/**
 * Per-row group key and group label (`getGroupKey`, `getGroupDisplayValue`,
 * the per-row value lookup and the Yes/No/None override in
 * `_x2mApplyGroupByToRows`), the column lookup, and the parsing of a
 * `field[:desc]` group-by specification.
 */
module GroupKeys {
  import opened JsValues
  import opened FieldMeta
  import opened Rows

  predicate IsMany2one(fd: Option<FieldDef>) {
    fd.Some? && fd.value.ftype == "many2one"
  }

  predicate IsSelection(fd: Option<FieldDef>) {
    fd.Some? && fd.value.ftype == "selection" && fd.value.selection.Some?
  }

  /** `/^\d+,/.test(s)`: one or more digits, then a comma. */
  predicate HasIdPrefix(s: string) {
    var k := DigitRun(s);
    0 < k < |s| && s[k] == ','
  }

  /** `s.split(",")[0]` for such a string: the digits before the first comma. */
  function IdText(s: string): string
    requires HasIdPrefix(s)
  {
    s[..DigitRun(s)]
  }

  /** `s.replace(/^\d+,/, "")`: what follows the leading "digits," prefix. */
  function AfterId(s: string): string
    requires HasIdPrefix(s)
  {
    s[DigitRun(s) + 1..]
  }

  /** `getGroupKey`: a many2one value is reduced to its id; every other value is its own key. */
  function GroupKey(fd: Option<FieldDef>, v: Value): Value {
    if IsMany2one(fd) then
      match v
      case Arr(es) => if |es| >= 1 then es[0] else v
      case Obj(p) => if "id" in p then p["id"] else v
      case Str(s) => if HasIdPrefix(s) then Str(IdText(s)) else v
      case _ => v
    else v
  }

  /** `selection.find((p) => p[0] === value || String(p[0]) === String(value))`. */
  function FindOption(options: seq<(Value, Value)>, v: Value): (r: Option<(Value, Value)>)
    ensures r.Some? ==> r.value in options && (r.value.0 == v || ToStr(r.value.0) == ToStr(v))
    ensures r.Some? ==> exists j :: 0 <= j < |options| && options[j] == r.value &&
                                    forall k :: 0 <= k < j ==> options[k].0 != v && ToStr(options[k].0) != ToStr(v)
    ensures r.None? ==> forall p :: p in options ==> p.0 != v && ToStr(p.0) != ToStr(v)
  {
    if options == [] then None
    else if options[0].0 == v || ToStr(options[0].0) == ToStr(v) then Some(options[0])
    else FindOption(options[1..], v)
  }

  /** `getGroupDisplayValue`. */
  function GroupDisplayValue(fd: Option<FieldDef>, v: Value): Value {
    if IsNullish(v) || v == Str("") then Str("None")
    else if IsSelection(fd) then
      match FindOption(fd.value.selection.value, v)
      case Some(p) => p.1
      case None => v
    else if IsMany2one(fd) then
      match v
      case Arr(es) => if |es| >= 2 then (if Truthy(es[1]) then es[1] else Str("None")) else v
      case Obj(p) =>
        if "display_name" in p then (if Truthy(p["display_name"]) then p["display_name"] else Str("None")) else v
      case Str(s) => if HasIdPrefix(s) then Str(Trim(AfterId(s))) else v
      case _ => v
    else v
  }

  /** The key values that the partition loop relabels. */
  predicate IsSpecialKey(k: Value) {
    k == Bool(true) || k == Str("true") || k == Bool(false) || k == Str("false") || IsNullish(k) || k == Str("")
  }

  /** The label override applied after the lookup: true is "Yes", false is "No", an empty key is "None". */
  function GroupLabel(key: Value, display: Value): Value {
    if key == Str("true") || key == Bool(true) then Str("Yes")
    else if key == Str("false") || key == Bool(false) then Str("No")
    else if IsNullish(key) || key == Str("") then Str("None")
    else display
  }

  /** The key a row is grouped under and the label its group gets if it is the first row with that key. */
  function KeyAndLabel(fd: Option<FieldDef>, raw: Value): (Value, Value) {
    var key := GroupKey(fd, raw);
    (key, GroupLabel(key, GroupDisplayValue(fd, raw)))
  }

  // ---------------------------------------------------------------------------
  // Where a row's value comes from

  /** `row.querySelector('td[name="f"]')`: the first cell carrying that name. */
  function NamedCell(cells: seq<Cell>, name: string): (r: Option<Cell>)
    ensures r.Some? ==> r.value in cells && r.value.name == Some(name)
    ensures r.None? ==> forall c :: c in cells ==> c.name != Some(name)
  {
    if cells == [] then None
    else if cells[0].name == Some(name) then Some(cells[0])
    else NamedCell(cells[1..], name)
  }

  /** The cell read for the group field: the named cell, else the cell under the field's column. */
  function GroupCell(cells: seq<Cell>, name: string, columnIndex: int): Option<Cell> {
    match NamedCell(cells, name)
    case Some(c) => Some(c)
    case None => if 0 <= columnIndex < |cells| then Some(cells[columnIndex]) else None
  }

  /** The record's value for the field, or null when there is no record or it lacks the field. */
  function RecordValue(row: Row, fieldName: string): Value {
    if row.record.Some? && fieldName in row.record.value then row.record.value[fieldName] else Null
  }

  /**
   * The value a row is grouped by: the loaded record's value when it is
   * neither null nor undefined, else the cell's value (an empty one read as
   * null), else the record's null/undefined or, without a record, null.
   */
  function RawGroupValue(row: Row, fieldName: string, columnIndex: int): Value {
    var fromRecord := RecordValue(row, fieldName);
    if !IsNullish(fromRecord) then fromRecord
    else
      match GroupCell(row.cells, fieldName, columnIndex)
      case Some(c) => if Truthy(c.value) then c.value else Null
      case None => fromRecord
  }

  // ---------------------------------------------------------------------------
  // The column of the group field and the group-by specification

  /** The name a header column is matched on when grouping: name, else data-name, else its field's name. */
  function GroupColumnAttr(c: Column): Option<string> {
    AttrOr(c.name, AttrOr(c.dataName, c.fieldChild))
  }

  /** The names the header columns are matched on, one per column. */
  function GroupColumnAttrs(columns: seq<Column>): (r: seq<Option<string>>)
    ensures |r| == |columns|
    ensures forall i :: 0 <= i < |columns| && NonEmpty(columns[i].name) ==> r[i] == columns[i].name
    ensures forall i :: 0 <= i < |columns| && !NonEmpty(columns[i].name) && NonEmpty(columns[i].dataName) ==>
      r[i] == columns[i].dataName
    ensures forall i :: 0 <= i < |columns| && !NonEmpty(columns[i].name) && !NonEmpty(columns[i].dataName) ==>
      r[i] == columns[i].fieldChild
  {
    seq(|columns|, i requires 0 <= i < |columns| => GroupColumnAttr(columns[i]))
  }

  /** The index of the LAST header column named `name` (each match overwrites the previous one), or -1. */
  function ColumnIndex(columns: seq<Option<string>>, name: string): (idx: int)
    ensures -1 <= idx < |columns|
    ensures idx >= 0 ==> columns[idx] == Some(name)
    ensures forall j :: idx < j < |columns| ==> columns[j] != Some(name)
  {
    if columns == [] then -1
    else if columns[|columns| - 1] == Some(name) then |columns| - 1
    else ColumnIndex(columns[..|columns| - 1], name)
  }

  /** The header loop of `_x2mApplyGroupByToRows` that finds the group field's column. */
  method FindColumnIndex(columns: seq<Option<string>>, name: string) returns (idx: int)
    ensures idx == ColumnIndex(columns, name)
  {
    idx := -1;
    var i := 0;
    while i < |columns|
      invariant 0 <= i <= |columns|
      invariant idx == ColumnIndex(columns[..i], name)
    {
      assert columns[..i + 1][..i] == columns[..i];
      if columns[i] == Some(name) {
        idx := i;
      }
      i := i + 1;
    }
    assert columns[..i] == columns;
  }

  /** `spec.split(":")[0]`: the group field is the text before the first colon. */
  function GroupField(spec: string): (f: string)
    ensures |f| <= |spec| && spec[..|f|] == f
    ensures ':' !in f
    ensures |f| < |spec| ==> spec[|f|] == ':'
  {
    if spec == [] || spec[0] == ':' then []
    else [spec[0]] + GroupField(spec[1..])
  }

  /** `spec.includes(":desc")`: descending order is asked for anywhere in the specification. */
  predicate IsDescending(spec: string) {
    HasInfix(spec, ":desc")
  }

  /** `s.includes(pat)`: `pat` occurs in `s` at some position. */
  predicate HasInfix(s: string, pat: string)
    decreases |s|
  {
    (|pat| <= |s| && s[..|pat|] == pat) || (s != [] && HasInfix(s[1..], pat))
  }

  // ---------------------------------------------------------------------------
  // Properties of keys and labels

  /** A many2one `[id, label, ...]` array is grouped under its id and labelled by its label, or "None". */
  lemma Many2oneArrayGroup(fd: Option<FieldDef>, id: int, caption: Value, rest: seq<Value>)
    requires IsMany2one(fd)
    ensures KeyAndLabel(fd, Arr([Num(id), caption] + rest))
         == (Num(id), if Truthy(caption) then caption else Str("None"))
  {
  }

  /** A many2one "id,label" string is grouped under the digits before the comma and labelled by the trimmed rest. */
  lemma Many2oneStringGroup(fd: Option<FieldDef>, s: string)
    requires IsMany2one(fd) && HasIdPrefix(s)
    ensures KeyAndLabel(fd, Str(s)) == (Str(s[..DigitRun(s)]), Str(Trim(s[DigitRun(s) + 1..])))
  {
    var id := s[..DigitRun(s)];
    var caption := Str(Trim(s[DigitRun(s) + 1..]));
    assert GroupKey(fd, Str(s)) == Str(id);
    assert GroupDisplayValue(fd, Str(s)) == caption by {
      assert !IsSelection(fd) && Str(s) != Str("");
    }
    assert !IsSpecialKey(Str(id)) by {
      assert IsDigit(id[0]);
      assert id != "true" && id != "false" && id != "" by {
        assert !IsDigit("true"[0]) && !IsDigit("false"[0]);
      }
    }
  }

  /**
   * A selection value is labelled by the caption of the first option whose
   * code matches it, or by itself when no option matches.
   */
  lemma SelectionGroup(fd: Option<FieldDef>, v: Value)
    requires IsSelection(fd) && !IsSpecialKey(v)
    ensures KeyAndLabel(fd, v).0 == v
    ensures KeyAndLabel(fd, v).1 ==
      match FindOption(fd.value.selection.value, v)
      case Some(p) => p.1
      case None => v
  {
  }

  /** Boolean keys are labelled "Yes" and "No", whatever the field type. */
  lemma BooleanLabels(fd: Option<FieldDef>, v: Value)
    ensures GroupKey(fd, v) in {Bool(true), Str("true")} ==> KeyAndLabel(fd, v).1 == Str("Yes")
    ensures GroupKey(fd, v) in {Bool(false), Str("false")} ==> KeyAndLabel(fd, v).1 == Str("No")
  {
  }

  /** A missing or empty value is its own key and is labelled "None". */
  lemma EmptyValueGroup(fd: Option<FieldDef>, v: Value)
    requires IsNullish(v) || v == Str("")
    ensures KeyAndLabel(fd, v) == (v, Str("None"))
  {
  }

  /**
   * A many2one read as an `[id, label, ...]` array (record data) and one read
   * as an "id,label" string (a scraped cell) never share a key, whatever the
   * ids: the first is keyed by a number, the second by text. Rows of the same
   * target read both ways land in two groups.
   */
  lemma RepresentationsSplitGroups(fd: Option<FieldDef>, id: int, caption: Value, rest: seq<Value>, s: string)
    requires IsMany2one(fd) && HasIdPrefix(s)
    ensures KeyAndLabel(fd, Arr([Num(id), caption] + rest)).0 != KeyAndLabel(fd, Str(s)).0
  {
    Many2oneArrayGroup(fd, id, caption, rest);
    Many2oneStringGroup(fd, s);
  }

  /** For instance `[7, "Acme"]` and "7,Acme" are keyed 7 and "7". */
  lemma RepresentationsSplitExample(fd: Option<FieldDef>)
    requires IsMany2one(fd)
    ensures KeyAndLabel(fd, Arr([Num(7), Str("Acme")])).0 == Num(7)
    ensures KeyAndLabel(fd, Str("7,Acme")).0 == Str("7")
  {
    var s := "7,Acme";
    assert DigitRun(s) == 1 by {
      assert IsDigit(s[0]) && !IsDigit(s[1]);
    }
    assert s[..1] == "7";
    assert GroupKey(fd, Str(s)) == Str("7");
  }

  /** The loaded record wins over the cells whenever it holds a non-null value. */
  lemma RecordValuePreferred(row: Row, fieldName: string, columnIndex: int)
    requires row.record.Some? && fieldName in row.record.value
    requires !IsNullish(row.record.value[fieldName])
    ensures RawGroupValue(row, fieldName, columnIndex) == row.record.value[fieldName]
  {
  }

  /** Without a non-null record value the cell named after the field is read, an empty cell counting as null. */
  lemma NamedCellFallback(row: Row, fieldName: string, columnIndex: int, k: nat)
    requires IsNullish(RecordValue(row, fieldName))
    requires k < |row.cells| && row.cells[k].name == Some(fieldName)
    requires forall j :: 0 <= j < k ==> row.cells[j].name != Some(fieldName)
    ensures RawGroupValue(row, fieldName, columnIndex)
         == if Truthy(row.cells[k].value) then row.cells[k].value else Null
  {
    NamedCellFirst(row.cells, fieldName, k);
  }

  /** Without a non-null record value and without a named cell, the cell under the field's column is read. */
  lemma ColumnCellFallback(row: Row, fieldName: string, columnIndex: int)
    requires IsNullish(RecordValue(row, fieldName))
    requires forall c :: c in row.cells ==> c.name != Some(fieldName)
    requires 0 <= columnIndex < |row.cells|
    ensures RawGroupValue(row, fieldName, columnIndex)
         == if Truthy(row.cells[columnIndex].value) then row.cells[columnIndex].value else Null
  {
  }

  /** Without a non-null record value and without any cell to read, the record's null or undefined stays. */
  lemma NoCellKeepsRecordValue(row: Row, fieldName: string, columnIndex: int)
    requires IsNullish(RecordValue(row, fieldName))
    requires forall c :: c in row.cells ==> c.name != Some(fieldName)
    requires !(0 <= columnIndex < |row.cells|)
    ensures RawGroupValue(row, fieldName, columnIndex) == RecordValue(row, fieldName)
  {
  }

  lemma {:induction false} NamedCellFirst(cells: seq<Cell>, name: string, k: nat)
    requires k < |cells| && cells[k].name == Some(name)
    requires forall j :: 0 <= j < k ==> cells[j].name != Some(name)
    ensures NamedCell(cells, name) == Some(cells[k])
  {
    if k > 0 {
      NamedCellFirst(cells[1..], name, k - 1);
    }
  }

  /** In `field:order` the group field is the part before the colon. */
  lemma {:induction false} GroupFieldOfSpec(f: string, rest: string)
    requires ':' !in f
    ensures GroupField(f + ":" + rest) == f
  {
    if f != [] {
      GroupFieldOfSpec(f[1..], rest);
      assert (f + ":" + rest)[1..] == f[1..] + ":" + rest;
    }
  }

  /** `pat` occurs in `s` starting at position `i`. */
  predicate OccursAt(s: string, pat: string, i: nat) {
    i + |pat| <= |s| && s[i..i + |pat|] == pat
  }

  /** `includes(":desc")`: the order is descending exactly when ":desc" occurs at some position. */
  lemma DescendingIff(spec: string)
    ensures IsDescending(spec) <==> exists i: nat :: OccursAt(spec, ":desc", i)
  {
    HasInfixIff(spec, ":desc");
  }

  /** `HasInfix` is the occurrence of `pat` at some position of `s`. */
  lemma {:induction false} HasInfixIff(s: string, pat: string)
    ensures HasInfix(s, pat) <==> exists i: nat :: OccursAt(s, pat, i)
    decreases |s|
  {
    if HasInfix(s, pat) {
      if |pat| <= |s| && s[..|pat|] == pat {
        assert OccursAt(s, pat, 0);
      } else {
        HasInfixIff(s[1..], pat);
        var i: nat :| OccursAt(s[1..], pat, i);
        assert s[i + 1..i + 1 + |pat|] == s[1..][i..i + |pat|];
        assert OccursAt(s, pat, i + 1);
      }
    }
    if exists i: nat :: OccursAt(s, pat, i) {
      var i: nat :| OccursAt(s, pat, i);
      if i > 0 {
        assert s[1..][i - 1..i - 1 + |pat|] == s[i..i + |pat|];
        assert OccursAt(s[1..], pat, i - 1);
        HasInfixIff(s[1..], pat);
      } else {
        assert s[..|pat|] == pat;
      }
    }
  }

  /** A specification ending in ":desc" asks for descending order, whatever precedes it. */
  lemma {:induction false} DescendingSuffix(f: string)
    ensures IsDescending(f + ":desc")
  {
    if f != [] {
      DescendingSuffix(f[1..]);
      assert (f + ":desc")[1..] == f[1..] + ":desc";
    }
  }
}
