/**
 * The table body as the engine changes it: a `tbody` whose children are
 * detached, inserted and re-attributed in place. Every method is proved
 * against the function of `BodySpec` that says what it does to the body.
 */
module ListBody {
  import opened JsValues
  import opened Rows
  import opened SeqUtil
  import opened FieldMeta
  import opened GroupKeys
  import opened GroupPartition
  import opened GroupSort
  import opened DomainEval
  import opened BodySpec

  class TBody {
    /** The rows attached to the body, in document order. */
    var children: seq<RowId>
    /** Every row node, attached or detached, by id. */
    var rows: map<RowId, Row>
    /** `tbody._originalRows`; None while undefined. */
    var snapshot: Option<seq<RowId>>
    /** The id the next created group header gets. */
    var nextId: nat

    function Model(): BodyState
      reads this
    {
      BodyState(children, rows, snapshot, nextId)
    }

    ghost predicate Valid()
      reads this
    {
      ValidState(Model())
    }

    constructor (children0: seq<RowId>, rows0: map<RowId, Row>, nextId0: nat)
      requires ValidState(BodyState(children0, rows0, None, nextId0))
      ensures Model() == BodyState(children0, rows0, None, nextId0) && Valid()
    {
      children := children0;
      rows := rows0;
      snapshot := None;
      nextId := nextId0;
    }

    /** `_x2mFindFirstNonDataRow`: the first child that is neither a data row nor a group header. */
    method FindFirstNonDataRow() returns (r: Option<RowId>)
      ensures r == FirstOther(rows, children)
    {
      var i := 0;
      while i < |children|
        invariant 0 <= i <= |children|
        invariant FirstOther(rows, children) == FirstOther(rows, children[i..])
      {
        var id := children[i];
        assert children[i..][0] == id && children[i..][1..] == children[i + 1..];
        if id in rows && rows[id].kind == OtherRow {
          return Some(id);
        }
        i := i + 1;
      }
      return None;
    }

    /** Detach every child in `drop`; the rows themselves are kept. */
    method RemoveRows(drop: set<RowId>)
      modifies this
      ensures Model() == old(Model()).(children := Drop(old(children), drop))
    {
      var cs := children;
      var kept: seq<RowId> := [];
      var i := 0;
      while i < |cs|
        invariant 0 <= i <= |cs|
        invariant kept == Drop(cs[..i], drop)
        modifies {}
      {
        DropSnoc(cs, i, drop);
        if cs[i] !in drop {
          kept := kept + [cs[i]];
        }
        i := i + 1;
      }
      assert cs[..i] == cs;
      children := kept;
    }

    /** `querySelectorAll("tr.o_group_header").forEach(h => h.remove())`. */
    method RemoveGroupHeaders()
      modifies this
      ensures Model() == RemoveHeaders(old(Model()))
    {
      RemoveRows(KindSet(rows, GroupHeader));
    }

    /** `_x2mRemoveDataAndGroupRows`. */
    method RemoveDataAndGroupRows()
      modifies this
      ensures Model() == RemoveDataAndHeaders(old(Model()))
    {
      RemoveRows(KindSet(rows, DataRow) + KindSet(rows, GroupHeader));
    }

    /** Write `e` on each row of `xs` in turn. */
    method EditEach(xs: seq<RowId>, e: Edit)
      modifies this
      ensures Model() == old(Model()).(rows := EditRows(old(rows), SetOf(xs), e))
    {
      ghost var m0 := rows;
      var i := 0;
      assert EditRows(m0, SetOf(xs[..0]), e) == m0;
      while i < |xs|
        invariant 0 <= i <= |xs|
        invariant rows == EditRows(m0, SetOf(xs[..i]), e)
        invariant children == old(children) && snapshot == old(snapshot) && nextId == old(nextId)
      {
        EditRowsStep(m0, xs, i, e);
        if xs[i] in rows {
          rows := rows[xs[i] := ApplyEdit(rows[xs[i]], e)];
        }
        i := i + 1;
      }
      assert xs[..i] == xs;
    }

    /** Write `e` on each row of `xs` and insert it before `anchor` (or append it), one row at a time. */
    method InsertRun(xs: seq<RowId>, anchor: Option<RowId>, e: Edit)
      requires anchor.Some? ==> anchor.value !in xs
      modifies this
      ensures Model() == old(Model()).(children := Splice(old(children), xs, anchor),
                                       rows := EditRows(old(rows), SetOf(xs), e))
    {
      ghost var c0 := children;
      ghost var m0 := rows;
      var i := 0;
      SpliceNothing(c0, anchor);
      assert EditRows(m0, SetOf(xs[..0]), e) == m0;
      while i < |xs|
        invariant 0 <= i <= |xs|
        invariant children == Splice(c0, xs[..i], anchor)
        invariant rows == EditRows(m0, SetOf(xs[..i]), e)
        invariant snapshot == old(snapshot) && nextId == old(nextId)
      {
        var x := xs[i];
        EditRowsStep(m0, xs, i, e);
        if x in rows {
          rows := rows[x := ApplyEdit(rows[x], e)];
        }
        InsertBeforeIsSplice(children, x, anchor);
        SpliceTwice(c0, xs[..i], [x], anchor);
        assert xs[..i + 1] == xs[..i] + [x];
        children := InsertBefore(children, x, anchor);
        i := i + 1;
      }
      assert xs[..i] == xs;
    }

    /** Detach data rows and headers, then put `xs` back in reverse order before the first other row, untagged. */
    method PutBackReversed(xs: seq<RowId>)
      requires forall x :: x in xs ==> IsKind(rows, x, DataRow)
      modifies this
      ensures Model() == ReinsertReversed(old(Model()), xs)
    {
      RemoveDataAndGroupRows();
      var anchor := FindFirstNonDataRow();
      RevHas(xs);
      assert SetOf(Rev(xs)) == SetOf(xs);
      InsertRun(Rev(xs), anchor, ClearAttr);
    }

    /** `_x2mRestoreUngroupedRows(tbody, rs)`. */
    method RestoreUngroupedRows(rs: seq<RowId>)
      requires Valid()
      requires Distinct(rs) && forall x :: x in rs ==> IsKind(rows, x, DataRow)
      modifies this
      ensures Model() == RestoreSpec(old(Model()), rs) && Valid()
    {
      ghost var st0 := Model();
      RestoreKeepsValid(st0, rs);
      RemoveGroupHeaders();
      if snapshot.Some? && |snapshot.value| > 0 {
        PutBackReversed(snapshot.value);
      } else {
        var dataRows := Only(children, KindSet(rows, DataRow));
        if |dataRows| > 0 {
          if snapshot.None? {
            snapshot := Some(dataRows);
          }
          EditEach(dataRows, ClearAttr);
        } else if |rs| > 0 {
          PutBackReversed(rs);
        }
      }
    }

    /** `_x2mToggleGroup(header, rows)`: the click handler of a group header. */
    method ToggleGroup(h: RowId)
      requires h in rows && rows[h].header.Some?
      modifies this
      ensures Model() == ToggleSpec(old(Model()), h)
    {
      var isFolded := rows[h].foldedAttr == Some("true");
      var newFolded := !isFolded;
      var members := rows[h].header.value.members;
      rows := rows[h := rows[h].(foldedAttr := Some(if newFolded then "true" else "false"))];
      EditEach(members, Display(!newFolded));
    }

    /** `_x2mApplyGroupByToRows(tbody, visible, groupBy, _, allRows)`. */
    method ApplyGroupBy(visible: seq<RowId>, groupBy: seq<string>, allRows: seq<RowId>, env: Env)
      requires Valid()
      requires Distinct(visible) && forall id :: id in visible ==> id in children
      requires Distinct(allRows) && forall id :: id in allRows ==> IsKind(rows, id, DataRow)
      modifies this
      ensures Model() == GroupBySpec(old(Model()), visible, groupBy, allRows, env) && Valid()
    {
      ghost var st0 := Model();
      GroupByKeepsValid(st0, visible, groupBy, allRows, env);
      if |groupBy| == 0 || groupBy[0] == "" {
        RestoreUngroupedRows(allRows);
        return;
      }
      var spec := groupBy[0];
      var fieldName := GroupField(spec);
      var fd := Lookup(env.fields, fieldName);
      var col := FindColumnIndex(GroupColumnAttrs(env.columns), fieldName);
      var groups := BuildGroups(rows, visible, fieldName, fd, col);
      var sorted := SortGroups(groups, ComparatorOf(Order(IsMany2one(fd), IsDescending(spec), env.collate)));
      assert sorted == SortedGroups(st0.rows, visible, spec, env);
      if snapshot.None? {
        snapshot := Some(allRows);
      }
      RemoveGroupHeaders();
      RemoveRows(SetOf(visible));
      ghost var st3 := Model();
      assert st3 == Detached(st0, visible, allRows);
      GroupBySpecIsPlace(st0, visible, groupBy, allRows, env);
      if |sorted| == 0 {
        return;
      }
      var anchor := FindFirstNonDataRow();
      DetachedReady(st0, visible, groupBy, allRows, env);
      assert anchor.Some? ==> anchor.value in children;
      PlaceSortedGroups(sorted, anchor);
    }

    /** The rebuild loop: each group's header goes before the anchor, then its rows in reverse, and the header becomes the next anchor. */
    method PlaceSortedGroups(sorted: seq<Group>, anchor0: Option<RowId>)
      requires anchor0.Some? ==> anchor0.value !in Flatten(sorted)
      requires forall x :: x in Flatten(sorted) ==> x < nextId
      modifies this
      ensures Model() == PlaceGroups(old(Model()), sorted, anchor0)
    {
      ghost var st3 := Model();
      var anchor: Option<RowId> := anchor0;
      var i := 0;
      while i < |sorted|
        invariant 0 <= i <= |sorted|
        invariant nextId == st3.nextId + i && snapshot == st3.snapshot
        invariant PlaceChildren(children, sorted[i..], anchor, nextId) == PlaceChildren(st3.children, sorted, anchor0, st3.nextId)
        invariant PlaceRows(rows, sorted[i..], nextId) == PlaceRows(st3.rows, sorted, st3.nextId)
        invariant anchor.Some? ==> anchor.value !in Flatten(sorted)
      {
        var n := nextId;
        MembersInFlatten(sorted, i);
        PlaceGroupAt(sorted, i, anchor);
        anchor := Some(n);
        i := i + 1;
      }
      assert sorted[i..] == [];
    }

    /**
     * One round of the rebuild loop for group `sorted[i]`: a folded header
     * before the anchor, then the group's rows reversed, hidden and tagged.
     * Stated as the step that takes the remaining groups to the ones after.
     */
    method PlaceGroupAt(sorted: seq<Group>, i: nat, anchor: Option<RowId>)
      requires i < |sorted|
      requires anchor.Some? ==> anchor.value !in sorted[i].members
      modifies this
      ensures PlaceChildren(children, sorted[i + 1..], Some(old(nextId)), nextId)
           == PlaceChildren(old(children), sorted[i..], anchor, old(nextId))
      ensures PlaceRows(rows, sorted[i + 1..], nextId) == PlaceRows(old(rows), sorted[i..], old(nextId))
      ensures nextId == old(nextId) + 1 && snapshot == old(snapshot)
    {
      ghost var c, m, n := children, rows, nextId;
      PlaceOneGroup(sorted[i], anchor);
      PlaceChildrenStep(c, children, sorted, i, anchor, n);
      PlaceRowsStep(m, rows, sorted, i, n);
    }

    /** A folded header for `g` before the anchor, then its rows reversed, hidden and tagged. */
    method PlaceOneGroup(g: Group, anchor: Option<RowId>)
      requires anchor.Some? ==> anchor.value !in g.members
      modifies this
      ensures children == Splice(InsertBefore(old(children), old(nextId), anchor), Rev(g.members), anchor)
      ensures rows == StepRows(old(rows), g, old(nextId))
      ensures nextId == old(nextId) + 1 && snapshot == old(snapshot)
    {
      var h := nextId;
      var attr := KeyAttr(g.key);
      rows := rows[h := NewHeader(attr, g.caption, g.members)];
      nextId := h + 1;
      children := InsertBefore(children, h, anchor);
      RevHas(g.members);
      InsertRun(Rev(g.members), anchor, Hide(attr));
    }

    /** The first pass of the search: decide, for every row of `all`, whether the domain keeps it. */
    method DecideRows(all: seq<RowId>, d: seq<Value>, env: Env) returns (shows: seq<bool>)
      requires forall x :: x in all ==> x in rows
      ensures |shows| == |all|
      ensures forall k :: 0 <= k < |all| ==> shows[k] == ShouldShow(rows[all[k]], d, env)
    {
      shows := [];
      var j := 0;
      while j < |all|
        invariant 0 <= j <= |all| && |shows| == j
        invariant forall k :: 0 <= k < j ==> shows[k] == ShouldShow(rows[all[k]], d, env)
      {
        var show := true;
        if |d| > 0 {
          show := EvaluateDomainForRow(rows[all[j]], d, env.columns, env.contains);
        }
        shows := shows + [show];
        j := j + 1;
      }
    }

    /** The second pass: write the decisions as the rows' display. */
    method ShowDecided(all: seq<RowId>, shows: seq<bool>, d: seq<Value>, env: Env)
      requires forall x :: x in all ==> x in rows
      requires |shows| == |all|
      requires forall k :: 0 <= k < |all| ==> shows[k] == ShouldShow(rows[all[k]], d, env)
      modifies this
      ensures Model() == old(Model()).(rows := ShowRows(old(rows), SetOf(all), d, env, false))
    {
      ghost var m := rows;
      var j := 0;
      while j < |all|
        invariant 0 <= j <= |all|
        invariant rows == ShowRows(m, SetOf(all[..j]), d, env, false)
        invariant Model() == old(Model()).(rows := rows)
      {
        ShowRowsStep(m, all, j, d, env, false);
        rows := rows[all[j] := rows[all[j]].(shown := shows[j])];
        j := j + 1;
      }
      assert all[..j] == all;
    }

    /** The display loop after an ungrouped restore: every non-header row of `all` shown or hidden by the domain. */
    method ShowUngrouped(all: seq<RowId>, d: seq<Value>, env: Env)
      requires forall x :: x in all ==> x in rows
      modifies this
      ensures Model() == old(Model()).(rows := ShowRows(old(rows), SetOf(all), d, env, true))
    {
      ghost var m := rows;
      var j := 0;
      while j < |all|
        invariant 0 <= j <= |all|
        invariant rows == ShowRows(m, SetOf(all[..j]), d, env, true)
        invariant Model() == old(Model()).(rows := rows)
      {
        ShowRowsStep(m, all, j, d, env, true);
        var row := rows[all[j]];
        if row.kind != GroupHeader {
          var show := true;
          if |d| > 0 {
            show := EvaluateDomainForRow(row, d, env.columns, env.contains);
          }
          ShouldShowReadsData(row, m[all[j]], d, env);
          rows := rows[all[j] := row.(shown := show)];
        }
        j := j + 1;
      }
      assert all[..j] == all;
    }

    /** `_x2mApplySearchModelToList` once the table body is found. */
    method ApplySearchModel(searchDomain: seq<Value>, facets: seq<Facet>, groupBy: seq<string>, env: Env)
      requires Valid()
      modifies this
      ensures Model() == SearchSpec(old(Model()), searchDomain, facets, groupBy, env) && Valid()
    {
      ghost var st0 := Model();
      var all := Only(children, KindSet(rows, DataRow));
      var d := searchDomain;
      if |d| == 0 && HasFilterFacet(facets) {
        var ds := CollectFilterDomains(facets, env.parse);
        if |ds| > 0 {
          d := if |ds| == 1 then ds[0] else env.conj(ds);
        }
      }
      assert d == CombinedDomain(searchDomain, facets, env.parse, env.conj);

      var shows := DecideRows(all, d, env);
      ShowDecided(all, shows, d, env);
      assert Model() == FilterRows(st0, d, env);
      ShowRowsKeepsValid(st0, SetOf(all), d, env, false);
      DistinctOnly(st0.children, KindSet(st0.rows, DataRow));

      var visible := Only(all, ShownSet(rows));
      if |groupBy| > 0 && HasGroupByFacet(facets) {
        DistinctOnly(all, ShownSet(rows));
        ApplyGroupBy(visible, groupBy, all, env);
        return;
      }
      RestoreUngroupedRows(all);
      ghost var st2 := Model();
      RestoreOnlyClears(FilterRows(st0, d, env), all);
      ShowUngrouped(all, d, env);
      ShowRowsKeepsValid(st2, SetOf(all), d, env, true);
    }
  }
}
