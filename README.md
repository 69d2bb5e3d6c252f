# x2m_search: the list filter and group engine, in Dafny

The x2m_search add-on puts a search bar above the one2many and many2many
lists of a form. Filtering and grouping happen on the client, by
rearranging the rows of the list's table body (`tbody`). This project
models that engine from
`x2m_search/static/src/js/o2m_m2m_tree_search.js` and proves what it does.

The table body is the class `ListBody.TBody`. Its fields are:

- the ordered child rows;
- every row node it has held, by id;
- the `_originalRows` snapshot;
- the next id free for a synthesised header.

Each engine method is a method on that class that changes those fields in
place. Each one is proved equal to a specification function on the
`BodySpec.BodyState` value: `SearchSpec`, `GroupBySpec`, `RestoreSpec`,
`ToggleSpec`, `RemoveDataAndHeaders` and `FirstOther`. The lemmas beside
those functions state the properties the engine promises.

A row (`Rows.Row`) has these parts:

- its kind: data row, group header or other row (such as "add a line");
- whether it is displayed;
- its `data-group-value` and `data-group-folded` attributes;
- the data of its loaded record, if any;
- its cells, in column order;
- for a synthesised header, its label and the rows it folds.

JavaScript values are the datatype `JsValues.Value`.

The modules follow the engine's parts:

- `DefaultSearch` (`default_search.dfy`): the search definition built when
  the model has none.
- `GroupKeys` (`group_keys.dfy`): the `field[:desc]` group specification,
  the group column, `getGroupKey`, `getGroupDisplayValue`, the label
  overrides and the value a row is grouped by.
- `GroupPartition` (`partition.dfy`): the loop that fills the groups `Map`,
  modelled as a list of groups in insertion order.
- `GroupSort` (`group_sort.dfy`): the group comparator and the sort.
- `DomainEval` (`domain_eval.dfy`):
  - reading a row's data, from its record or by scraping its cells;
  - collecting the fields the domain names;
  - normalising many2one values;
  - the short-circuits of `_x2mEvaluateDomainForRow`;
  - the combined domain of the search model and its filter facets.
- `BodySpec` (`body_spec.dfy`): the specification of the body operations
  and the lemmas about them.
- `ListBody` (`list_body.dfy`): the `TBody` class.
- `JsValues`, `FieldMeta`, `Rows` and `SeqUtil`: values, `String()`,
  `trim`, `parseInt` and `parseFloat` on decimal text, field metadata, rows
  and sequence lemmas.

Where the code behaves in ways a reader may not expect:

- Groups with a null or undefined key sort last in both directions,
  descending included (`GroupSort.SortNullsLast`).
- Every insertion uses the same anchor, so the rebuilt body shows the
  groups in reverse sorted order, each header followed by its group's rows
  in the reverse of the order they were grouped in
  (`BodySpec.LayoutSplit`, `BodySpec.RegroupFlipsMembers`;
  `BodySpec.LayoutReversedExample` shows one instance). The next pass
  therefore reads those rows in another order than the previous one did.
- Restoring from the snapshot also puts the rows back in reverse snapshot
  order (`BodySpec.RestoreFromSnapshot`).
- Before a domain is evaluated, any non-empty array whose first element
  is a number or numeric text is reduced to that element (numeric text
  through `parseInt`), whatever the field's type. An "id,label" string and
  the strings "true" and "false" are passed unchanged
  (`DomainEval.Many2oneArrayBecomesId`, `DomainEval.IdLabelStringKept`).
- A many2one read as an array and the same many2one read as an "id,label"
  string land in two different groups
  (`GroupKeys.RepresentationsSplitGroups`).
- With only a text field "description" and a char field "code", the
  default search targets "description". With no preferred name present,
  the first textual field in the order of the field metadata's entries
  (`Object.entries`) wins
  (`DefaultSearch.FirstTextualFieldChosen`;
  `DefaultSearch.DescriptionChosenBeforeCode` is this instance).

## Model

| member | source | states |
|---|---|---|
| DefaultSearch.BuildDefaultSearchArch | x2m_search/static/src/js/o2m_m2m_tree_search.js:207-224 | The loop over the preferred names with its early exit, then the find over the entries, returns the search view markup for `DefaultSearchField`. |
| DefaultSearch.PreferredNameWins | x2m_search/static/src/js/o2m_m2m_tree_search.js:209-216 | The first of name, display_name, subject, title that is a char/text/html field is chosen, whatever comes later. |
| DefaultSearch.FirstTextualFieldChosen | x2m_search/static/src/js/o2m_m2m_tree_search.js:217-222 | Without a textual preferred name, the first entry, in the order of the field metadata's entries (`Object.entries`), with a textual type is chosen. |
| DefaultSearch.NameFallback | x2m_search/static/src/js/o2m_m2m_tree_search.js:221 | With no textual field at all the literal "name" is chosen. |
| DefaultSearch.DefaultFieldIsTextualOrName | x2m_search/static/src/js/o2m_m2m_tree_search.js:207-224 | The chosen field is always a textual field of the model, or "name" when the model has none. |
| DefaultSearch.DescriptionChosenBeforeCode | x2m_search/static/src/js/o2m_m2m_tree_search.js:218-222 | With only a text "description" and a char "code", the first entry in the order of the field metadata's entries (`Object.entries`), "description", is chosen. |
| DefaultSearch.FirstPreferredSound | x2m_search/static/src/js/o2m_m2m_tree_search.js:211-216 | A preferred name that is found is present in the metadata with a searchable type. |
| DefaultSearch.FirstSearchableEntrySound | x2m_search/static/src/js/o2m_m2m_tree_search.js:218-220 | An entry that is found has a searchable type and no earlier entry has one. |
| DefaultSearch.FirstSearchableEntryNoneComplete | x2m_search/static/src/js/o2m_m2m_tree_search.js:218-221 | When no entry is found, no entry has a searchable type. |
| FieldMeta.Lookup | x2m_search/static/src/js/o2m_m2m_tree_search.js:331 | `fields[name]` is defined exactly when some entry carries that name, and is that entry's definition. |
| GroupKeys.GroupField | x2m_search/static/src/js/o2m_m2m_tree_search.js:313 | The group field is the prefix of the specification up to, not including, the first colon; it contains no colon. |
| GroupKeys.GroupFieldOfSpec | x2m_search/static/src/js/o2m_m2m_tree_search.js:313 | For `field:order` the group field is `field`. |
| GroupKeys.DescendingSuffix | x2m_search/static/src/js/o2m_m2m_tree_search.js:314 | A specification ending in ":desc" asks for descending order. |
| GroupKeys.DescendingIff | x2m_search/static/src/js/o2m_m2m_tree_search.js:314 | The order is descending exactly when ":desc" occurs somewhere in the specification. |
| GroupKeys.ColumnIndex | x2m_search/static/src/js/o2m_m2m_tree_search.js:317-328 | The index of the LAST header column whose name is the group field, or -1 when none matches. |
| GroupKeys.FindColumnIndex | x2m_search/static/src/js/o2m_m2m_tree_search.js:320-328 | The header loop computes `ColumnIndex`. |
| GroupKeys.GroupColumnAttrs | x2m_search/static/src/js/o2m_m2m_tree_search.js:323-326 | A column whose `name` is non-empty is matched on it; else one whose `data-name` is non-empty on that; else on the name of its field element. |
| GroupKeys.FindOption | x2m_search/static/src/js/o2m_m2m_tree_search.js:335 | The option found matches the value strictly or by its String() text and no earlier option matches; None means no option matches. |
| GroupKeys.Many2oneArrayGroup | x2m_search/static/src/js/o2m_m2m_tree_search.js:338-348 | A many2one `[id, label, ...]` array is keyed by its id and labelled by its label, or "None" when the label is falsy. |
| GroupKeys.Many2oneStringGroup | x2m_search/static/src/js/o2m_m2m_tree_search.js:341-350 | A many2one "id,label" string is keyed by the digits before the first comma and labelled by the trimmed rest. |
| GroupKeys.SelectionGroup | x2m_search/static/src/js/o2m_m2m_tree_search.js:334-336 | A selection value is its own key and is labelled by the first matching option's caption, else by itself. |
| GroupKeys.BooleanLabels | x2m_search/static/src/js/o2m_m2m_tree_search.js:386-387 | A key true or "true" is labelled "Yes", a key false or "false" "No", whatever the field type. |
| GroupKeys.EmptyValueGroup | x2m_search/static/src/js/o2m_m2m_tree_search.js:386-388 | A null, undefined or empty value is its own key and is labelled "None". |
| GroupKeys.RepresentationsSplitGroups | x2m_search/static/src/js/o2m_m2m_tree_search.js:346-354 | A many2one read as an `[id, label, ...]` array and one read as an "id,label" string never share a key: the first is keyed by a number, the second by text. |
| GroupKeys.RepresentationsSplitExample | x2m_search/static/src/js/o2m_m2m_tree_search.js:346-354 | For instance `[7, "Acme"]` is keyed 7 and "7,Acme" is keyed "7". |
| GroupKeys.NamedCell | x2m_search/static/src/js/o2m_m2m_tree_search.js:369 | The cell found carries the field's name; None means no cell does. |
| GroupKeys.RecordValuePreferred | x2m_search/static/src/js/o2m_m2m_tree_search.js:363-368 | A loaded record holding a non-null value for the field decides the row's group value. |
| GroupKeys.NamedCellFallback | x2m_search/static/src/js/o2m_m2m_tree_search.js:368-384 | Without a record value, or with a null or undefined one, the first cell named after the field is read, an empty one counting as null. |
| GroupKeys.ColumnCellFallback | x2m_search/static/src/js/o2m_m2m_tree_search.js:368-384 | Without a non-null record value and without a cell named after the field, the cell under the field's column is read, an empty one counting as null. |
| GroupKeys.NoCellKeepsRecordValue | x2m_search/static/src/js/o2m_m2m_tree_search.js:358-385 | Without a non-null record value and without a cell to read, the value stays the record's null or undefined, or null when the record lacks the field. |
| GroupKeys.NamedCellFirst | x2m_search/static/src/js/o2m_m2m_tree_search.js:369 | The cell found is the first one carrying the name. |
| GroupKeys.GroupKey | x2m_search/static/src/js/o2m_m2m_tree_search.js:346-354 | `getGroupKey`. Its cases are stated through `KeyAndLabel` by `Many2oneArrayGroup`, `Many2oneStringGroup`, `SelectionGroup`, `EmptyValueGroup` and `RepresentationsSplitGroups`. |
| GroupKeys.GroupDisplayValue | x2m_search/static/src/js/o2m_m2m_tree_search.js:332-345 | `getGroupDisplayValue`. Its cases are stated through `KeyAndLabel` by `Many2oneArrayGroup`, `Many2oneStringGroup`, `SelectionGroup` and `EmptyValueGroup`. |
| GroupKeys.KeyAndLabel | x2m_search/static/src/js/o2m_m2m_tree_search.js:355-388 | The key and label a row gets, with the Yes/No/None override; stated by `BooleanLabels`, `EmptyValueGroup` and the many2one and selection lemmas. |
| GroupKeys.RawGroupValue | x2m_search/static/src/js/o2m_m2m_tree_search.js:358-385 | The value a row is grouped by; stated by `RecordValuePreferred`, `NamedCellFallback`, `ColumnCellFallback` and `NoCellKeepsRecordValue`, one lemma per branch. |
| GroupPartition.BuildGroups | x2m_search/static/src/js/o2m_m2m_tree_search.js:355-391 | The `visibleRows.forEach` loop builds exactly `Partition` of the rows' entries. |
| GroupPartition.KeyIndex | x2m_search/static/src/js/o2m_m2m_tree_search.js:389 | `groups.has(k)`: the position of the group keyed `k`, or -1 exactly when no group has that key. |
| GroupPartition.FirstIndex | x2m_search/static/src/js/o2m_m2m_tree_search.js:389 | The position of the first entry with key `k`, or -1 exactly when none has it. |
| GroupPartition.PartitionKeys | x2m_search/static/src/js/o2m_m2m_tree_search.js:389-390 | Group keys are distinct and are exactly the keys occurring among the rows. |
| GroupPartition.PartitionMembers | x2m_search/static/src/js/o2m_m2m_tree_search.js:389-390 | Each group holds exactly the rows whose key is its key, in row order. |
| GroupPartition.PartitionFirstOccurrence | x2m_search/static/src/js/o2m_m2m_tree_search.js:389 | Each group is labelled by the first row with its key, and groups come in the order of their keys' first rows (Map insertion order). |
| GroupPartition.PartitionIsPermutation | x2m_search/static/src/js/o2m_m2m_tree_search.js:355-391 | Every row lands in exactly one group: the groups' rows are a permutation of the rows. |
| GroupPartition.RowEntriesFromRows | x2m_search/static/src/js/o2m_m2m_tree_search.js:356-357 | Exactly the non-header rows get an entry, and distinct rows give distinct entries. |
| GroupPartition.GroupsOfDistinctRows | x2m_search/static/src/js/o2m_m2m_tree_search.js:355-391 | The groups hold every visible non-header row exactly once and nothing else. |
| GroupPartition.AddEntryKeys | x2m_search/static/src/js/o2m_m2m_tree_search.js:389 | One loop step keeps the keys distinct and adds just the row's key. |
| GroupSort.CompareEmptyKeysAfter | x2m_search/static/src/js/o2m_m2m_tree_search.js:397-398 | In both directions a group with a null or undefined key compares after every other group, and every group before it. |
| GroupSort.DescendingSwapsArguments | x2m_search/static/src/js/o2m_m2m_tree_search.js:400-411 | For two non-empty keys, descending order compares as ascending order with the arguments swapped. |
| GroupSort.NumericKeysByValue | x2m_search/static/src/js/o2m_m2m_tree_search.js:404-407 | In ascending order, two keys that both parse as numbers compare by numeric value. |
| GroupSort.CompareConsistent | x2m_search/static/src/js/o2m_m2m_tree_search.js:392-412 | With an antisymmetric collation the comparator is antisymmetric on every pair that does not have two empty keys. |
| GroupSort.SortIsPermutation | x2m_search/static/src/js/o2m_m2m_tree_search.js:392 | Sorting returns a permutation of the groups. |
| GroupSort.SortKeepsRows | x2m_search/static/src/js/o2m_m2m_tree_search.js:392 | Sorting moves whole groups: the rows of the sorted groups are a permutation of the rows before. |
| GroupSort.SortNullsLast | x2m_search/static/src/js/o2m_m2m_tree_search.js:397-398 | In both directions every group with a null or undefined key comes after all other groups. |
| GroupSort.SortOrdered | x2m_search/static/src/js/o2m_m2m_tree_search.js:392-412 | With an antisymmetric collation and at most one empty key, each sorted group compares at or before the next. |
| GroupSort.Compare | x2m_search/static/src/js/o2m_m2m_tree_search.js:392-412 | The group comparator; stated by `CompareEmptyKeysAfter`, `DescendingSwapsArguments`, `NumericKeysByValue` and `CompareConsistent`. |
| GroupSort.SortGroups | x2m_search/static/src/js/o2m_m2m_tree_search.js:392 | `sortedGroups.sort(...)` as a stable sort; stated by `SortIsPermutation`, `SortKeepsRows`, `SortNullsLast` and `SortOrdered`. |
| JsValues.ParseNumberOfNum | x2m_search/static/src/js/o2m_m2m_tree_search.js:404-405 | `parseFloat(String(n))` reads back every integer n. |
| JsValues.ParseFloatOfDigits | x2m_search/static/src/js/o2m_m2m_tree_search.js:404-405 | An optionally negated run of decimal digits parses as its value. |
| JsValues.NatToString | x2m_search/static/src/js/o2m_m2m_tree_search.js:431 | The decimal text of a count is a non-empty run of digits. |
| JsValues.DigitsValueOfNatToString | x2m_search/static/src/js/o2m_m2m_tree_search.js:431 | The decimal text of a count reads back as the count. |
| JsValues.Trim | x2m_search/static/src/js/o2m_m2m_tree_search.js:341 | `trim()`: the result is a slice of the text with only whitespace before and after it, and it neither starts nor ends with whitespace. |
| JsValues.ParseIntPrefix | x2m_search/static/src/js/o2m_m2m_tree_search.js:532 | `parseInt` yields a number only for text that holds a digit. |
| JsValues.ParseFloatPrefix | x2m_search/static/src/js/o2m_m2m_tree_search.js:404-405 | `parseFloat` yields a number only for text that holds a digit. |
| JsValues.DigitRun | x2m_search/static/src/js/o2m_m2m_tree_search.js:350 | The leading run of digits: all digits up to it, a non-digit right after it. |
| ListBody.TBody.ApplyGroupBy | x2m_search/static/src/js/o2m_m2m_tree_search.js:307-449 | The body after grouping is `GroupBySpec` of the body before, and stays well formed. |
| ListBody.TBody.PlaceSortedGroups | x2m_search/static/src/js/o2m_m2m_tree_search.js:419-448 | The rebuild loop takes the body to `PlaceGroups` of the sorted groups at the first other row. |
| ListBody.TBody.PlaceGroupAt | x2m_search/static/src/js/o2m_m2m_tree_search.js:420-447 | One round of the rebuild loop takes the remaining groups to those after, in both the children and the rows. |
| ListBody.TBody.PlaceOneGroup | x2m_search/static/src/js/o2m_m2m_tree_search.js:422-446 | A folded header goes before the anchor, then the group's rows reversed before the same anchor, hidden and tagged. |
| ListBody.TBody.InsertRun | x2m_search/static/src/js/o2m_m2m_tree_search.js:441-446 | Editing each row and inserting it before a fixed anchor (or appending) splices the run before the anchor, in order. |
| BodySpec.GroupByChildren | x2m_search/static/src/js/o2m_m2m_tree_search.js:413-448 | The new children are the rows that stay (filtered-out data rows and other rows, in old order) with the layout of the sorted groups spliced before the first other row. The snapshot is taken from allRows only when absent. |
| BodySpec.GroupByRows | x2m_search/static/src/js/o2m_m2m_tree_search.js:419-447 | One folded header per sorted group at fresh ids, captioned and owning its rows; every grouped row hidden and tagged with its key; every other row untouched. |
| BodySpec.SortedGroupsCover | x2m_search/static/src/js/o2m_m2m_tree_search.js:355-412 | The sorted groups are the partition reordered: every visible non-header row is in exactly one group, each group's rows are those with its key in visible order, and the null group is last. |
| BodySpec.GroupHeaderCount | x2m_search/static/src/js/o2m_m2m_tree_search.js:431 | Each new header's caption is its label followed by the number of visible rows carrying its key. |
| BodySpec.PlaceGroupsChildren | x2m_search/static/src/js/o2m_m2m_tree_search.js:419-448 | The loop inserts the groups' headers and rows before the original anchor in `Layout` order. |
| BodySpec.LayoutContents | x2m_search/static/src/js/o2m_m2m_tree_search.js:419-448 | The layout holds every grouped row and every new header exactly once. |
| BodySpec.LayoutReversedExample | x2m_search/static/src/js/o2m_m2m_tree_search.js:439-447 | Two groups [1,2] and [3,4] with headers 10 and 11 come out as 11, 4, 3, 10, 2, 1: later groups first, rows reversed. |
| BodySpec.LayoutSplit | x2m_search/static/src/js/o2m_m2m_tree_search.js:419-448 | In the layout, group i's header n + i comes after the layouts of the groups sorted after it, directly followed by group i's rows reversed, and then the groups sorted before it. |
| BodySpec.RegroupFlipsMembers | x2m_search/static/src/js/o2m_m2m_tree_search.js:441-447 | Group i's rows sit right after its header in reverse grouped order, which for two or more rows with distinct ends differs from the grouped order. |
| BodySpec.PlacedHeadersConsistent | x2m_search/static/src/js/o2m_m2m_tree_search.js:424-442 | Every new header is folded and all of its rows are hidden. |
| BodySpec.GroupByKeepsValid | x2m_search/static/src/js/o2m_m2m_tree_search.js:307-449 | Grouping keeps the body well formed: distinct children, known rows, headers owning known rows, the snapshot made of data rows. |
| BodySpec.PermutedGroups | x2m_search/static/src/js/o2m_m2m_tree_search.js:392 | A reordering of the groups keeps each group and the rows they hold. |
| BodySpec.GroupBySpec | x2m_search/static/src/js/o2m_m2m_tree_search.js:307-449 | The body after `_x2mApplyGroupByToRows`; stated by `GroupByChildren`, `GroupByRows`, `GroupHeaderCount`, `LayoutSplit` and `GroupByKeepsValid`. |
| ListBody.TBody.ToggleGroup | x2m_search/static/src/js/o2m_m2m_tree_search.js:451-475 | The body after a click is `ToggleSpec` of the body before. |
| BodySpec.ToggleFlips | x2m_search/static/src/js/o2m_m2m_tree_search.js:451-475 | Toggling flips the folded attribute, shows every member when the group unfolds and hides it when it folds, and changes nothing else. |
| BodySpec.ToggleTwice | x2m_search/static/src/js/o2m_m2m_tree_search.js:451-475 | Toggling a consistent header twice restores the whole body. |
| BodySpec.ToggleKeepsValid | x2m_search/static/src/js/o2m_m2m_tree_search.js:451-475 | Toggling keeps the body well formed. |
| BodySpec.ToggleSpec | x2m_search/static/src/js/o2m_m2m_tree_search.js:451-475 | The body after a header click; stated by `ToggleFlips`, `ToggleTwice` and `ToggleKeepsValid`. |
| ListBody.TBody.FindFirstNonDataRow | x2m_search/static/src/js/o2m_m2m_tree_search.js:547-552 | Returns the first child that is neither a data row nor a group header, or None. |
| BodySpec.FirstOther | x2m_search/static/src/js/o2m_m2m_tree_search.js:547-552 | The row found is a child of neither kind and every earlier child is a data row or a header; None means every child is one. |
| ListBody.TBody.RemoveDataAndGroupRows | x2m_search/static/src/js/o2m_m2m_tree_search.js:554-560 | Detaches every data row and group header and keeps the other children in order. |
| BodySpec.OthersLeft | x2m_search/static/src/js/o2m_m2m_tree_search.js:554-560 | After removing headers and data rows the children are exactly the other rows in order, so the first other row is the first child. |
| ListBody.TBody.RemoveGroupHeaders | x2m_search/static/src/js/o2m_m2m_tree_search.js:414 | Detaches every group header and nothing else. |
| ListBody.TBody.RemoveRows | x2m_search/static/src/js/o2m_m2m_tree_search.js:415-417 | Detaches exactly the children in the given set, keeping the rest in order. |
| ListBody.TBody.PutBackReversed | x2m_search/static/src/js/o2m_m2m_tree_search.js:565-571 | Removes data rows and headers, then puts the rows back before the first other row in reverse order, untagged. |
| ListBody.TBody.RestoreUngroupedRows | x2m_search/static/src/js/o2m_m2m_tree_search.js:562-589 | The body after ungrouping is `RestoreSpec` of the body before, and stays well formed. |
| BodySpec.RestoreFromSnapshot | x2m_search/static/src/js/o2m_m2m_tree_search.js:564-571 | With a non-empty snapshot only the other rows stay, and exactly the snapshot's rows go in front of them in reverse snapshot order, untagged. |
| BodySpec.RestoreCapturesSnapshot | x2m_search/static/src/js/o2m_m2m_tree_search.js:573-576 | Without a snapshot but with data rows, only the headers go; the snapshot becomes the data rows if undefined; their tags are cleared; nothing is reordered. |
| BodySpec.RestoreFromRows | x2m_search/static/src/js/o2m_m2m_tree_search.js:577-586 | Without a snapshot or data rows, the rows passed in go before the other rows in reverse order, untagged. |
| BodySpec.RestoreOnlyClears | x2m_search/static/src/js/o2m_m2m_tree_search.js:562-589 | Ungrouping changes no row's data, kind or display: only the group tag differs. |
| BodySpec.RestoreKeepsValid | x2m_search/static/src/js/o2m_m2m_tree_search.js:562-589 | Ungrouping keeps the body well formed. |
| BodySpec.EditRowsCleared | x2m_search/static/src/js/o2m_m2m_tree_search.js:576 | Clearing the tag of a list of rows changes exactly those rows' tag. |
| BodySpec.RestoreSpec | x2m_search/static/src/js/o2m_m2m_tree_search.js:562-589 | The body after `_x2mRestoreUngroupedRows`; stated by `RestoreFromSnapshot`, `RestoreCapturesSnapshot`, `RestoreFromRows`, `RestoreOnlyClears` and `RestoreKeepsValid`. |
| BodySpec.ReinsertReversed | x2m_search/static/src/js/o2m_m2m_tree_search.js:565-571 | Removing data rows and headers, then putting a list of rows back reversed and untagged before the first other row; stated by `RestoreFromSnapshot` and `RestoreFromRows`. |
| ListBody.TBody.ApplySearchModel | x2m_search/static/src/js/o2m_m2m_tree_search.js:247-305 | The body after a search pass is `SearchSpec` of the body before, and stays well formed. |
| ListBody.TBody.DecideRows | x2m_search/static/src/js/o2m_m2m_tree_search.js:277-283 | The first loop decides, for each data row, whether the domain keeps it. |
| ListBody.TBody.ShowDecided | x2m_search/static/src/js/o2m_m2m_tree_search.js:284-286 | The second loop writes those decisions as the rows' display. |
| ListBody.TBody.ShowUngrouped | x2m_search/static/src/js/o2m_m2m_tree_search.js:297-304 | The loop after ungrouping shows or hides each non-header row by the domain. |
| BodySpec.SearchGroupsVisible | x2m_search/static/src/js/o2m_m2m_tree_search.js:288-295 | With a group-by facet and a non-empty group-by, the search filters, then groups exactly the data rows left displayed, in child order. |
| BodySpec.SearchUngroupedVisibility | x2m_search/static/src/js/o2m_m2m_tree_search.js:292-304 | Otherwise it ungroups, and every data row it started from is shown exactly when the domain is empty or the row matches it. |
| BodySpec.ShouldShowReadsData | x2m_search/static/src/js/o2m_m2m_tree_search.js:297-304 | The display decision reads a row's data only, never its display or tags. |
| BodySpec.ShowRowsKeepsValid | x2m_search/static/src/js/o2m_m2m_tree_search.js:277-304 | Writing display flags keeps the body well formed. |
| BodySpec.SearchSpec | x2m_search/static/src/js/o2m_m2m_tree_search.js:247-305 | The body after `_x2mApplySearchModelToList`; stated by `SearchGroupsVisible`, `SearchUngroupedVisibility` and `ShowRowsKeepsValid`. |
| DomainEval.EvaluateDomainForRow | x2m_search/static/src/js/o2m_m2m_tree_search.js:477-545 | The evaluator returns `Matches`. |
| DomainEval.HiddenIff | x2m_search/static/src/js/o2m_m2m_tree_search.js:510-544 | A row is hidden exactly when it has data, the domain is non-empty and the domain evaluates to false on the normalised data; an evaluation error shows it. |
| DomainEval.Matches | x2m_search/static/src/js/o2m_m2m_tree_search.js:477-545 | `_x2mEvaluateDomainForRow` on a row; stated by `HiddenIff` and `RecordDataPreferred`. |
| DomainEval.RecordDataPreferred | x2m_search/static/src/js/o2m_m2m_tree_search.js:481-485 | A loaded record with any key supplies the row data; the cells are read only otherwise. |
| DomainEval.ScrapeRow | x2m_search/static/src/js/o2m_m2m_tree_search.js:485-508 | The header loop computes `Scrape`. |
| DomainEval.ScrapeSpec | x2m_search/static/src/js/o2m_m2m_tree_search.js:491-507 | A name is scraped exactly when some column with that name has a cell, and takes what the scraper reads from the cell under the last such column: its checkbox state when it holds a checkbox, else its value. |
| DomainEval.Extract | x2m_search/static/src/js/o2m_m2m_tree_search.js:516-525 | The recursive `extract` adds the domain's fields once each to the list. |
| DomainEval.DomainFieldsSpec | x2m_search/static/src/js/o2m_m2m_tree_search.js:516-525 | The field list has no duplicates and holds exactly the fields named by a condition anywhere in the domain. |
| DomainEval.DedupIntoSpec | x2m_search/static/src/js/o2m_m2m_tree_search.js:520 | Adding fields skips those already present and keeps the list's prefix and first-seen order. |
| DomainEval.NormalizeRowData | x2m_search/static/src/js/o2m_m2m_tree_search.js:526-540 | The loop over the domain fields computes `Normalized`. |
| DomainEval.NormalizeValue | x2m_search/static/src/js/o2m_m2m_tree_search.js:526-540 | The replacement of one referenced value; stated by `Many2oneArrayBecomesId`, `IdLabelStringKept`, `RadixIdReadAsZero`, `InfinityIdReadAsNaN` and `NormalizedIdempotent`. |
| DomainEval.NormalizedKeepsOtherFields | x2m_search/static/src/js/o2m_m2m_tree_search.js:526-540 | Only listed fields change; a listed field absent from the data becomes undefined; other fields are copied. |
| DomainEval.Many2oneArrayBecomesId | x2m_search/static/src/js/o2m_m2m_tree_search.js:529-533 | A listed field holding `[id, label, ...]` with a numeric id is replaced by that id. |
| DomainEval.IdLabelStringKept | x2m_search/static/src/js/o2m_m2m_tree_search.js:534-536 | A listed field holding an "id,label" string is passed unchanged. |
| DomainEval.RadixIdReadAsZero | x2m_search/static/src/js/o2m_m2m_tree_search.js:531-532 | A many2one id written as a hexadecimal, binary or octal literal passes the `isNaN` test and is read by `parseInt(…, 10)` as 0. |
| DomainEval.InfinityIdReadAsNaN | x2m_search/static/src/js/o2m_m2m_tree_search.js:531-532 | A many2one id "Infinity" passes the `isNaN` test and `parseInt` turns it into NaN. |
| DomainEval.NormalizedIdempotent | x2m_search/static/src/js/o2m_m2m_tree_search.js:526-540 | Normalising twice gives the same data as normalising once. |
| DomainEval.CollectFilterDomains | x2m_search/static/src/js/o2m_m2m_tree_search.js:260-267 | The loop over the filter facets computes `FilterDomains`. |
| DomainEval.FilterDomainsSpec | x2m_search/static/src/js/o2m_m2m_tree_search.js:257-267 | The collected domains are exactly the successful parses of the filter facets that carry a domain. |
| DomainEval.SearchDomainWins | x2m_search/static/src/js/o2m_m2m_tree_search.js:258-259 | A non-empty search-model domain is used as it is, whatever the facets. |
| DomainEval.SingleFilterUsed | x2m_search/static/src/js/o2m_m2m_tree_search.js:268-271 | When the search model has no domain and exactly one filter domain parses, that domain is used, whatever other facets are present. |
| DomainEval.SeveralFiltersConjoined | x2m_search/static/src/js/o2m_m2m_tree_search.js:268-274 | When the search model has no domain and two or more filter domains parse, the row domain is their conjunction. |
| DomainEval.NoFilterDomainEmpty | x2m_search/static/src/js/o2m_m2m_tree_search.js:257-276 | When the search model has no domain and no filter domain parses, the row domain stays empty. |
| DomainEval.CombinedDomain | x2m_search/static/src/js/o2m_m2m_tree_search.js:257-276 | The row domain of a pass. Its three cases are stated by `SearchDomainWins`, `SingleFilterUsed`, `SeveralFiltersConjoined` and `NoFilterDomainEmpty`. |

## Left out

- The `SearchArchParser` patch (lines 21-43): a guard in front of a parser that is not part of this model.
- Setup, mounting and remote fetches (lines 49-205 and 226-245): ORM and view-service I/O, the owl `App` and `SearchBar`, the container and placeholder, `Date.now()` ids.
- The `setTimeout` debounce of update events: timer and event-loop behaviour.
- `_x2mApplySearchModelToList` returns early when the list has no table or no `tbody`. The model starts once the body is found.
- The `Domain` class: `contains`, `toList` and `Domain.and` are foreign code. They are parameters of the model (`DomainEval.Contains`, `Parser`, `Conjoin`), with None for a throw of `contains` or of a facet's `toList`. `Domain.and` is called outside the try (line 268-271), and a throw there, which ends the whole pass, is not modelled: `Conjoin` is total.
- `localeCompare` is foreign, locale-dependent code. It is a parameter (`GroupSort.Collation`). For any antisymmetric collation, adjacent order is proved: each sorted group compares at or before the next.
- The header markup is not modelled: HTML, CSS classes, the colspan, the caret glyph and the `o_group_open`/`o_group_closed` classes. A header is modelled by its folded attribute, its caption and the rows it owns.
- The `onclick` handler is not modelled as an event. A header records the rows the handler folds, and `ListBody.TBody.ToggleGroup` is the click.
- Reading a cell is reduced to what the two readers take from a `td` (`Rows.Cell`): the `field` element's value or data-value, else its trimmed text (`value`), and the `checked` state of a checkbox inside it (`checkbox`). The group reader (lines 368-385) never looks at checkboxes, so a checkbox cell groups by its text, usually "" and so the "None" group (`GroupKeys.RawGroupValue`). The domain scraper (lines 491-507) takes the `checked` state when the cell holds a checkbox (`DomainEval.ScrapedValue`). Which element the two `querySelector` calls find inside a cell is not modelled.
- `list.records.find` by `data-id` is reduced to the row's loaded record (`Row.record`).
- Arrays and objects are compared structurally. In the code, `Map` keys and `===` compare them by identity.
- Numbers in record data are integers (`Value.Num`). Floating-point values, `NaN` arithmetic and `Infinity` are not modelled.
- JsValues.ParseFloatPrefix: reads an optional sign, digits and a decimal fraction. It does not read exponents or `Infinity`; `parseFloat` itself reads no hexadecimal text.
- BodySpec.RegroupFlipsMembers: states where one pass puts a group's rows and that this order is the reverse of the grouped order. It does not relate a second pass to the first: the rows of the next pass are read in the order this lemma states, but no lemma composes two passes of `BodySpec.GroupBySpec`.
- GroupSort.Compare: keeps only the sign of the numeric difference. The sort reads nothing else.
- `Array.prototype.sort` is modelled as a stable insertion sort (`GroupSort.SortGroups`). For a consistent, transitive comparator every stable sort gives the same order. The engine's comparator need not be transitive. Keys that parse as numbers compare by value and any other pair compares as text, so "9" < "10" numerically while "10" < "1a" < "9" as text. Any non-transitive collation does the same, and so do two groups with different empty keys (null and undefined). For such inputs the engine's order is implementation-defined, and the model promises only adjacent order.
- `insertBefore` of a node that is already attached moves it. The model only inserts rows that were detached first, which is what the engine does.
- `_x2mApplySearchModelToList` decides every row in a first loop and writes the displays in a second. The model keeps both loops (`ListBody.TBody.DecideRows`, `ListBody.TBody.ShowDecided`).
- x2m_search/__manifest__.py: add-on metadata with no logic.
