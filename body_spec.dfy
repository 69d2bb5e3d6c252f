/**
 * The table body as a value, and what each DOM operation of the engine makes
 * of it: the spec functions the `TBody` methods are proved against, and the
 * properties of the layouts they produce.
 */
module BodySpec {
  import opened JsValues
  import opened Rows
  import opened SeqUtil
  import opened FieldMeta
  import opened GroupKeys
  import opened GroupPartition
  import opened GroupSort
  import opened DomainEval

  /**
   * A `tbody`: its children in order, every row node it has held (attached
   * or detached), the `_originalRows` snapshot (None while undefined) and the
   * next id free for a new header row.
   */
  datatype BodyState = BodyState(children: seq<RowId>, rows: map<RowId, Row>,
                                 snapshot: Option<seq<RowId>>, nextId: nat)

  /** What the engine reads and never changes: field metadata, header columns and the foreign operations. */
  datatype Env = Env(fields: Fields, columns: seq<Column>, collate: Collation,
                     contains: Contains, parse: Parser, conj: Conjoin)

  predicate IsKind(rows: map<RowId, Row>, id: RowId, k: Kind) {
    id in rows && rows[id].kind == k
  }

  /** `tr.o_data_row`, `tr.o_group_header` or the other rows, among all nodes. */
  function KindSet(rows: map<RowId, Row>, k: Kind): set<RowId> {
    set id | id in rows && rows[id].kind == k
  }

  function SetOf(s: seq<RowId>): set<RowId> {
    set x | x in s
  }

  predicate ValidState(st: BodyState) {
    && Distinct(st.children)
    && (forall id :: id in st.children ==> id in st.rows)
    && (forall id :: id in st.rows ==> id < st.nextId)
    && (st.snapshot.Some? ==>
          Distinct(st.snapshot.value) && forall id :: id in st.snapshot.value ==> IsKind(st.rows, id, DataRow))
    && (forall id :: id in st.rows && st.rows[id].header.Some? ==>
          forall m :: m in st.rows[id].header.value.members ==> m in st.rows)
  }

  /** `_x2mFindFirstNonDataRow`: the first child that is neither a data row nor a group header. */
  function FirstOther(rows: map<RowId, Row>, s: seq<RowId>): (r: Option<RowId>)
    ensures r.Some? ==> r.value in s && IsKind(rows, r.value, OtherRow)
    ensures r.Some? ==> exists j :: 0 <= j < |s| && s[j] == r.value && forall i :: 0 <= i < j ==> !IsKind(rows, s[i], OtherRow)
    ensures r.None? ==> forall id :: id in s ==> !IsKind(rows, id, OtherRow)
  {
    if s == [] then None
    else if IsKind(rows, s[0], OtherRow) then Some(s[0])
    else
      var r := FirstOther(rows, s[1..]);
      assert r.Some? ==> exists j :: 0 <= j < |s[1..]| && s[1..][j] == r.value && forall i :: 0 <= i < j ==> !IsKind(rows, s[1..][i], OtherRow);
      assert r.Some? ==> exists j :: 0 <= j < |s| && s[j] == r.value && forall i :: 0 <= i < j ==> !IsKind(rows, s[i], OtherRow) by {
        if r.Some? {
          var j :| 0 <= j < |s[1..]| && s[1..][j] == r.value && forall i :: 0 <= i < j ==> !IsKind(rows, s[1..][i], OtherRow);
          assert forall i :: 0 <= i < j + 1 ==> !IsKind(rows, s[i], OtherRow) by {
            forall i | 0 <= i < j + 1 ensures !IsKind(rows, s[i], OtherRow) {
              if i > 0 { assert s[i] == s[1..][i-1]; }
            }
          }
        }
      }
      r
  }

  // ---------------------------------------------------------------------------
  // Row edits

  /** What the engine writes on a row: hidden and tagged with a group, untagged, or shown or hidden. */
  datatype Edit = Hide(attr: string) | ClearAttr | Display(shown: bool)

  function ApplyEdit(r: Row, e: Edit): Row {
    match e
    case Hide(a) => r.(shown := false, groupAttr := Some(a))
    case ClearAttr => r.(groupAttr := None)
    case Display(v) => r.(shown := v)
  }

  function EditRows(m: map<RowId, Row>, ids: set<RowId>, e: Edit): map<RowId, Row> {
    map k | k in m :: if k in ids then ApplyEdit(m[k], e) else m[k]
  }

  /** `setAttribute("data-group-value", key ?? "")`: the key's text, empty for null and undefined. */
  function KeyAttr(k: Value): string {
    if IsNullish(k) then "" else ToStr(k)
  }

  // ---------------------------------------------------------------------------
  // Ungrouping

  /** Every `tr.o_group_header` removed. */
  function RemoveHeaders(st: BodyState): BodyState {
    st.(children := Drop(st.children, KindSet(st.rows, GroupHeader)))
  }

  /** `_x2mRemoveDataAndGroupRows`: data rows and group headers removed; other rows stay. */
  function RemoveDataAndHeaders(st: BodyState): BodyState {
    st.(children := Drop(st.children, KindSet(st.rows, DataRow) + KindSet(st.rows, GroupHeader)))
  }

  /** Re-insert `rs` before the first other row, in REVERSE order, untagged. */
  function ReinsertReversed(st: BodyState, rs: seq<RowId>): BodyState {
    var st2 := RemoveDataAndHeaders(st);
    st2.(children := Splice(st2.children, Rev(rs), FirstOther(st2.rows, st2.children)),
         rows := EditRows(st2.rows, SetOf(rs), ClearAttr))
  }

  /** `_x2mRestoreUngroupedRows(tbody, rs)`. */
  function RestoreSpec(st: BodyState, rs: seq<RowId>): BodyState {
    var st1 := RemoveHeaders(st);
    if st1.snapshot.Some? && |st1.snapshot.value| > 0 then
      ReinsertReversed(st1, st1.snapshot.value)
    else
      var dataRows := Only(st1.children, KindSet(st1.rows, DataRow));
      if |dataRows| > 0 then
        st1.(snapshot := if st1.snapshot.None? then Some(dataRows) else st1.snapshot,
             rows := EditRows(st1.rows, SetOf(dataRows), ClearAttr))
      else if |rs| > 0 then
        ReinsertReversed(st1, rs)
      else st1
  }

  // ---------------------------------------------------------------------------
  // Grouping

  /** The groups of the visible rows for the group-by specification `spec`, sorted. */
  function SortedGroups(rows: map<RowId, Row>, visible: seq<RowId>, spec: string, env: Env): seq<Group>
    requires forall id :: id in visible ==> id in rows
  {
    var fieldName := GroupField(spec);
    var fd := Lookup(env.fields, fieldName);
    var col := ColumnIndex(GroupColumnAttrs(env.columns), fieldName);
    SortGroups(Partition(RowEntries(rows, visible, fieldName, fd, col)),
               ComparatorOf(Order(IsMany2one(fd), IsDescending(spec), env.collate)))
  }

  /** The rows after one group is placed: a new folded header at `h`, and the members hidden and tagged. */
  function StepRows(m: map<RowId, Row>, g: Group, h: RowId): map<RowId, Row> {
    var attr := KeyAttr(g.key);
    EditRows(m[h := NewHeader(attr, g.caption, g.members)], SetOf(Rev(g.members)), Hide(attr))
  }

  /**
   * The rebuild loop: for each group in turn, a folded header goes before the
   * anchor, then the group's rows in reverse order, hidden and tagged; the
   * header then becomes the anchor for the next group.
   */
  function PlaceGroups(st: BodyState, gs: seq<Group>, anchor: Option<RowId>): BodyState {
    BodyState(PlaceChildren(st.children, gs, anchor, st.nextId), PlaceRows(st.rows, gs, st.nextId),
              st.snapshot, st.nextId + |gs|)
  }

  /** The children after placing groups `gs` whose headers get ids n, n+1, ... */
  function PlaceChildren(c: seq<RowId>, gs: seq<Group>, anchor: Option<RowId>, n: nat): seq<RowId>
    decreases |gs|
  {
    if gs == [] then c
    else PlaceChildren(Splice(InsertBefore(c, n, anchor), Rev(gs[0].members), anchor), gs[1..], Some(n), n + 1)
  }


  /** The rows after placing groups `gs` whose headers get ids n, n+1, ... */
  function PlaceRows(m: map<RowId, Row>, gs: seq<Group>, n: nat): map<RowId, Row>
    decreases |gs|
  {
    if gs == [] then m else PlaceRows(StepRows(m, gs[0], n), gs[1..], n + 1)
  }

  /** One round of the rebuild loop, for both components. */
  lemma PlaceChildrenStep(c: seq<RowId>, c': seq<RowId>, gs: seq<Group>, i: nat, anchor: Option<RowId>, n: nat)
    requires i < |gs|
    requires c' == Splice(InsertBefore(c, n, anchor), Rev(gs[i].members), anchor)
    ensures PlaceChildren(c', gs[i + 1..], Some(n), n + 1) == PlaceChildren(c, gs[i..], anchor, n)
  {
    assert gs[i..][0] == gs[i] && gs[i..][1..] == gs[i + 1..];
  }

  lemma PlaceRowsStep(m: map<RowId, Row>, m': map<RowId, Row>, gs: seq<Group>, i: nat, n: nat)
    requires i < |gs|
    requires m' == StepRows(m, gs[i], n)
    ensures PlaceRows(m', gs[i + 1..], n + 1) == PlaceRows(m, gs[i..], n)
  {
    assert gs[i..][0] == gs[i] && gs[i..][1..] == gs[i + 1..];
  }

  /** `_x2mApplyGroupByToRows(tbody, visible, groupBy, _, allRows)`. */
  function GroupBySpec(st: BodyState, visible: seq<RowId>, groupBy: seq<string>, allRows: seq<RowId>, env: Env): BodyState
    requires forall id :: id in visible ==> id in st.rows
  {
    if |groupBy| == 0 || groupBy[0] == "" then RestoreSpec(st, allRows)
    else
      var sorted := SortedGroups(st.rows, visible, groupBy[0], env);
      var st3 := Detached(st, visible, allRows);
      if |sorted| == 0 then st3 else PlaceGroups(st3, sorted, FirstOther(st3.rows, st3.children))
  }

  /** The children the rebuild inserts for groups `gs` whose headers get ids n, n+1, ...: later groups first, each header followed by its rows reversed. */
  function Layout(gs: seq<Group>, n: nat): seq<RowId>
    decreases |gs|
  {
    if gs == [] then [] else Layout(gs[1..], n + 1) + [n] + Rev(gs[0].members)
  }

  function HeaderIds(n: nat, k: nat): (r: seq<RowId>)
    ensures |r| == k && forall i :: 0 <= i < k ==> r[i] == n + i
  {
    seq(k, i requires 0 <= i < k => n + i)
  }

  // ---------------------------------------------------------------------------
  // Filtering and the projection decision

  /** Whether a row stays displayed: always when the combined domain is empty, else as the evaluator says. */
  function ShouldShow(row: Row, d: seq<Value>, env: Env): bool {
    if |d| > 0 then Matches(row, d, env.columns, env.contains) else true
  }

  /** The display loop over `ids`; the second loop of the search skips group headers. */
  function ShowRows(m: map<RowId, Row>, ids: set<RowId>, d: seq<Value>, env: Env, skipHeaders: bool): map<RowId, Row> {
    map k | k in m :: if k in ids && !(skipHeaders && m[k].kind == GroupHeader) then m[k].(shown := ShouldShow(m[k], d, env)) else m[k]
  }

  /** Rows that are not headers and are displayed. */
  function ShownSet(m: map<RowId, Row>): set<RowId> {
    set k | k in m && m[k].kind != GroupHeader && m[k].shown
  }

  predicate HasGroupByFacet(facets: seq<Facet>) {
    exists i :: 0 <= i < |facets| && facets[i].ftype == "groupBy"
  }

  /** The data rows among the children, in order. */
  function DataChildren(st: BodyState): seq<RowId> {
    Only(st.children, KindSet(st.rows, DataRow))
  }

  /** The first display loop: every data row among the children shown or hidden by the domain. */
  function FilterRows(st: BodyState, d: seq<Value>, env: Env): BodyState {
    st.(rows := ShowRows(st.rows, SetOf(DataChildren(st)), d, env, false))
  }

  /** The rows the grouping sees: the data rows left displayed by the filter, in child order. */
  function Visible(st: BodyState, d: seq<Value>, env: Env): seq<RowId> {
    Only(DataChildren(st), ShownSet(FilterRows(st, d, env).rows))
  }

  /** `_x2mApplySearchModelToList` once the table body is found. */
  function SearchSpec(st: BodyState, searchDomain: seq<Value>, facets: seq<Facet>, groupBy: seq<string>, env: Env): BodyState {
    var all := DataChildren(st);
    var d := CombinedDomain(searchDomain, facets, env.parse, env.conj);
    var st1 := FilterRows(st, d, env);
    if |groupBy| > 0 && HasGroupByFacet(facets) then GroupBySpec(st1, Visible(st, d, env), groupBy, all, env)
    else
      var st2 := RestoreSpec(st1, all);
      st2.(rows := ShowRows(st2.rows, SetOf(all), d, env, true))
  }

  // ---------------------------------------------------------------------------
  // Folding

  /** `_x2mToggleGroup(header, members)`: flip `data-group-folded`, then show or hide every member. */
  function ToggleSpec(st: BodyState, h: RowId): BodyState
    requires h in st.rows && st.rows[h].header.Some?
  {
    var newFolded := !(st.rows[h].foldedAttr == Some("true"));
    var rows1 := st.rows[h := st.rows[h].(foldedAttr := Some(if newFolded then "true" else "false"))];
    st.(rows := EditRows(rows1, SetOf(st.rows[h].header.value.members), Display(!newFolded)))
  }

  // ---------------------------------------------------------------------------
  // The rebuild loop




  /** Group members kept apart from the children and from the ids still free for headers. */
  predicate Insertable(c: seq<RowId>, gs: seq<Group>, anchor: Option<RowId>, n: nat) {
    && Distinct(Flatten(gs))
    && (forall x :: x in Flatten(gs) ==> x !in c && x < n)
    && (forall x :: x in c ==> x < n)
    && (anchor.Some? ==> anchor.value < n)
  }

  /** A header and then its rows inserted before the same anchor sit together, header first. */
  lemma HeaderThenRows(c: seq<RowId>, h: RowId, members: seq<RowId>, anchor: Option<RowId>)
    requires anchor.Some? ==> anchor.value != h
    ensures Splice(InsertBefore(c, h, anchor), Rev(members), anchor) == Splice(c, [h] + Rev(members), anchor)
  {
    InsertBeforeIsSplice(c, h, anchor);
    SpliceTwice(c, [h], Rev(members), anchor);
  }

  lemma InsertableTail(c: seq<RowId>, gs: seq<Group>, anchor: Option<RowId>, n: nat)
    requires gs != [] && Insertable(c, gs, anchor, n)
    ensures Insertable(Splice(c, [n] + Rev(gs[0].members), anchor), gs[1..], Some(n), n + 1)
  {
    var run := [n] + Rev(gs[0].members);
    var c' := Splice(c, run, anchor);
    var rest := gs[1..];
    assert Distinct(Flatten(rest)) && forall x :: x in gs[0].members ==> x !in Flatten(rest) by {
      FlattenCons(gs);
      DistinctParts(gs[0].members, Flatten(rest));
    }
    assert forall x :: x in c' ==> x in c || x == n || x in gs[0].members by {
      SpliceHas(c, run, anchor);
      RevHas(gs[0].members);
    }
    assert forall x :: x in Flatten(gs) <==> x in gs[0].members || x in Flatten(rest) by {
      FlattenCons(gs);
    }
    InsertableOf(c, c', gs[0].members, Flatten(gs), Flatten(rest), n);
  }

  /** The set-level step of InsertableTail, over abstract sequences. */
  lemma InsertableOf(c: seq<RowId>, c': seq<RowId>, ms: seq<RowId>, all: seq<RowId>, rest: seq<RowId>, n: nat)
    requires forall x :: x in c' ==> x in c || x == n || x in ms
    requires forall x :: x in all <==> x in ms || x in rest
    requires forall x :: x in ms ==> x !in rest
    requires forall x :: x in all ==> x !in c && x < n
    requires forall x :: x in c ==> x < n
    ensures forall x :: x in rest ==> x !in c' && x < n + 1
    ensures forall x :: x in c' ==> x < n + 1
  {
  }

  lemma {:induction false} PlaceChildrenLayout(c: seq<RowId>, gs: seq<Group>, anchor: Option<RowId>, n: nat)
    requires Insertable(c, gs, anchor, n)
    ensures PlaceChildren(c, gs, anchor, n) == Splice(c, Layout(gs, n), anchor)
    decreases |gs|
  {
    if gs == [] {
      SpliceNothing(c, anchor);
    } else {
      var run := [n] + Rev(gs[0].members);
      var c' := Splice(c, run, anchor);
      var rest := Layout(gs[1..], n + 1);
      assert PlaceChildren(c, gs, anchor, n) == PlaceChildren(c', gs[1..], Some(n), n + 1) by {
        HeaderThenRows(c, n, gs[0].members, anchor);
        PlaceChildrenStep(c, c', gs, 0, anchor, n);
        assert gs[0..] == gs;
      }
      assert PlaceChildren(c', gs[1..], Some(n), n + 1) == Splice(c', rest, Some(n)) by {
        InsertableTail(c, gs, anchor, n);
        PlaceChildrenLayout(c', gs[1..], Some(n), n + 1);
      }
      assert Splice(c', rest, Some(n)) == Splice(c, rest + run, anchor) by {
        assert Insertable(c, gs, anchor, n);
        SpliceAtHead(c, run, rest, anchor);
      }
      assert Layout(gs, n) == rest + run;
    }
  }

  /**
   * The loop inserts, before the original anchor, the groups' headers and
   * rows in `Layout` order: the header of the first group ends up after
   * those of all later groups, because every later group goes in front of it.
   */
  lemma PlaceGroupsChildren(st: BodyState, gs: seq<Group>, anchor: Option<RowId>)
    requires Insertable(st.children, gs, anchor, st.nextId)
    ensures PlaceGroups(st, gs, anchor).children == Splice(st.children, Layout(gs, st.nextId), anchor)
    ensures PlaceGroups(st, gs, anchor).nextId == st.nextId + |gs|
    ensures PlaceGroups(st, gs, anchor).snapshot == st.snapshot
  {
    PlaceChildrenLayout(st.children, gs, anchor, st.nextId);
  }

  /**
   * `r` is `m` after placing groups `gs` with header ids from `n`: one folded
   * header per group, labelled with its caption and owning its rows; each
   * grouped row hidden and tagged with its group's key; every other row
   * untouched; no other node.
   */
  ghost predicate PlacedRows(m: map<RowId, Row>, gs: seq<Group>, n: nat, r: map<RowId, Row>) {
    && (forall x :: x in r <==> x in m || n <= x < n + |gs|)
    && (forall i :: 0 <= i < |gs| ==> HeaderAt(r, gs, n, i))
    && (forall i, x :: 0 <= i < |gs| && x in gs[i].members ==>
          x in m && x in r && r[x] == ApplyEdit(m[x], Hide(KeyAttr(gs[i].key))))
    && (forall x :: x in m && x !in Flatten(gs) ==> x in r && r[x] == m[x])
  }

  lemma PlaceRowsAll(m: map<RowId, Row>, gs: seq<Group>, n: nat)
    requires Owned(m, gs)
    requires forall x :: x in m ==> x < n
    ensures PlacedRows(m, gs, n, PlaceRows(m, gs, n))
  {
    PlaceRowsKeys(m, gs, n);
    PlaceRowsHeaders(m, gs, n);
    PlaceRowsMembers(m, gs, n);
    PlaceRowsOthers(m, gs, n);
  }

  /** Every group's members are in the map of rows, and no row is in two groups. */
  predicate Owned(rows: map<RowId, Row>, gs: seq<Group>) {
    && Distinct(Flatten(gs))
    && forall i, x :: 0 <= i < |gs| && x in gs[i].members ==> x in rows
  }

  lemma StepRowsSpec(m: map<RowId, Row>, g: Group, h: RowId)
    requires h !in m
    requires forall x :: x in g.members ==> x in m
    ensures var r := StepRows(m, g, h);
      && (forall x :: x in r <==> x in m || x == h)
      && r[h] == NewHeader(KeyAttr(g.key), g.caption, g.members)
      && (forall x :: x in g.members ==> r[x] == ApplyEdit(m[x], Hide(KeyAttr(g.key))))
      && (forall x :: x in m && x !in g.members ==> r[x] == m[x])
  {
    RevHas(g.members);
  }



  lemma {:induction false} PlaceRowsKeys(m: map<RowId, Row>, gs: seq<Group>, n: nat)
    requires Owned(m, gs)
    requires forall x :: x in m ==> x < n
    ensures forall x :: x in PlaceRows(m, gs, n) <==> x in m || n <= x < n + |gs|
    decreases |gs|
  {
    if gs != [] {
      OwnedTail(m, gs, n);
      PlaceRowsKeys(StepRows(m, gs[0], n), gs[1..], n + 1);
    }
  }

  lemma OwnedTail(m: map<RowId, Row>, gs: seq<Group>, n: nat)
    requires gs != [] && Owned(m, gs)
    requires forall x :: x in m ==> x < n
    ensures Owned(StepRows(m, gs[0], n), gs[1..])
    ensures forall x :: x in StepRows(m, gs[0], n) ==> x < n + 1
    ensures forall x :: x in Flatten(gs[1..]) ==> x !in gs[0].members && x < n
    ensures forall x :: x in gs[0].members ==> x in m
  {
    FlattenCons(gs);
    DistinctParts(gs[0].members, Flatten(gs[1..]));
    StepRowsSpec(m, gs[0], n);
    forall i, x | 0 <= i < |gs[1..]| && x in gs[1..][i].members ensures x in StepRows(m, gs[0], n) {
      assert gs[1..][i] == gs[i + 1];
    }
    forall x | x in Flatten(gs[1..]) ensures x < n {
      MemberInFlattenInv(gs[1..], x);
    }
  }

  lemma MemberInFlattenInv(gs: seq<Group>, x: RowId)
    requires x in Flatten(gs)
    ensures exists i :: 0 <= i < |gs| && x in gs[i].members
  {
    FlattenCons(gs);
    if x !in gs[0].members {
      MemberInFlattenInv(gs[1..], x);
      var i :| 0 <= i < |gs[1..]| && x in gs[1..][i].members;
      assert gs[1..][i] == gs[i + 1];
    }
  }

  lemma {:induction false} PlaceRowsOthers(m: map<RowId, Row>, gs: seq<Group>, n: nat)
    requires Owned(m, gs)
    requires forall x :: x in m ==> x < n
    ensures forall x :: x in m && x !in Flatten(gs) ==> x in PlaceRows(m, gs, n) && PlaceRows(m, gs, n)[x] == m[x]
    decreases |gs|
  {
    if gs != [] {
      OwnedTail(m, gs, n);
      FlattenCons(gs);
      StepRowsSpec(m, gs[0], n);
      PlaceRowsKeys(StepRows(m, gs[0], n), gs[1..], n + 1);
      PlaceRowsOthers(StepRows(m, gs[0], n), gs[1..], n + 1);
    }
  }

  /** Group i's header sits at id n + i in r. */
  ghost predicate HeaderAt(r: map<RowId, Row>, gs: seq<Group>, n: nat, i: nat)
    requires i < |gs|
  {
    n + i in r && r[n + i] == NewHeader(KeyAttr(gs[i].key), gs[i].caption, gs[i].members)
  }

  lemma {:induction false} PlaceRowsHeaders(m: map<RowId, Row>, gs: seq<Group>, n: nat)
    requires Owned(m, gs)
    requires forall x :: x in m ==> x < n
    ensures forall i :: 0 <= i < |gs| ==> HeaderAt(PlaceRows(m, gs, n), gs, n, i)
  {
    forall i | 0 <= i < |gs|
      ensures HeaderAt(PlaceRows(m, gs, n), gs, n, i)
    {
      PlaceRowsHeaderAt(m, gs, n, i);
    }
  }

  /** The header of group i gets id n + i. */
  lemma {:induction false} PlaceRowsHeaderAt(m: map<RowId, Row>, gs: seq<Group>, n: nat, i: nat)
    requires Owned(m, gs)
    requires forall x :: x in m ==> x < n
    requires i < |gs|
    ensures n + i in PlaceRows(m, gs, n) && PlaceRows(m, gs, n)[n + i] == NewHeader(KeyAttr(gs[i].key), gs[i].caption, gs[i].members)
    decreases i
  {
    var m1 := StepRows(m, gs[0], n);
    var r := PlaceRows(m1, gs[1..], n + 1);
    assert PlaceRows(m, gs, n) == r;
    if i == 0 {
      assert n in m1 && m1[n] == NewHeader(KeyAttr(gs[0].key), gs[0].caption, gs[0].members) by {
        StepRowsSpec(m, gs[0], n);
      }
      assert n in r && r[n] == m1[n] by {
        OwnedTail(m, gs, n);
        PlaceRowsOthers(m1, gs[1..], n + 1);
      }
    } else {
      var j := i - 1;
      assert Owned(m1, gs[1..]) && forall x :: x in m1 ==> x < n + 1 by {
        OwnedTail(m, gs, n);
      }
      PlaceRowsHeaderAt(m1, gs[1..], n + 1, j);
      assert gs[1..][j] == gs[i];
      assert n + 1 + j == n + i;
    }
  }

  lemma {:induction false} PlaceRowsMembers(m: map<RowId, Row>, gs: seq<Group>, n: nat)
    requires Owned(m, gs)
    requires forall x :: x in m ==> x < n
    ensures forall i, x :: 0 <= i < |gs| && x in gs[i].members ==>
      x in PlaceRows(m, gs, n) && PlaceRows(m, gs, n)[x] == ApplyEdit(m[x], Hide(KeyAttr(gs[i].key)))
    decreases |gs|
  {
    if gs != [] {
      var m1 := StepRows(m, gs[0], n);
      OwnedTail(m, gs, n);
      StepRowsSpec(m, gs[0], n);
      PlaceRowsKeys(m1, gs[1..], n + 1);
      PlaceRowsOthers(m1, gs[1..], n + 1);
      PlaceRowsMembers(m1, gs[1..], n + 1);
      FlattenCons(gs);
      DistinctParts(gs[0].members, Flatten(gs[1..]));
      MembersStep(m, m1, PlaceRows(m1, gs[1..], n + 1), gs, gs[1..]);
    }
  }

  /** The inductive step of `PlaceRowsMembers`, over abstract maps; `rest` is `gs[1..]`. */
  lemma MembersStep(m: map<RowId, Row>, m1: map<RowId, Row>, r: map<RowId, Row>, gs: seq<Group>, rest: seq<Group>)
    requires gs != [] && rest == gs[1..]
    requires Owned(m, gs) && Owned(m1, rest)
    requires forall x :: x in gs[0].members ==> x !in Flatten(rest)
    requires forall x :: x in gs[0].members ==> x in m1 && m1[x] == ApplyEdit(m[x], Hide(KeyAttr(gs[0].key)))
    requires forall x :: x in m && x !in gs[0].members ==> x in m1 && m1[x] == m[x]
    requires forall x :: x in m1 && x !in Flatten(rest) ==> x in r && r[x] == m1[x]
    requires forall i, x :: 0 <= i < |rest| && x in rest[i].members ==>
      x in r && r[x] == ApplyEdit(m1[x], Hide(KeyAttr(rest[i].key)))
    requires forall x :: x in Flatten(rest) ==> x !in gs[0].members
    ensures forall i, x :: 0 <= i < |gs| && x in gs[i].members ==>
      x in r && r[x] == ApplyEdit(m[x], Hide(KeyAttr(gs[i].key)))
  {
    forall i, x | 0 <= i < |gs| && x in gs[i].members
      ensures x in r && r[x] == ApplyEdit(m[x], Hide(KeyAttr(gs[i].key)))
    {
      if i == 0 {
        assert r[x] == m1[x];
      } else {
        LaterMemberStep(m, m1, r, gs, rest, i, x);
      }
    }
  }

  /** A member of a later group: its own group's edit, applied on top of an untouched row. */
  lemma LaterMemberStep(m: map<RowId, Row>, m1: map<RowId, Row>, r: map<RowId, Row>, gs: seq<Group>, rest: seq<Group>, i: nat, x: RowId)
    requires gs != [] && rest == gs[1..] && 0 < i < |gs| && x in gs[i].members
    requires Owned(m, gs) && Owned(m1, rest)
    requires forall x :: x in m && x !in gs[0].members ==> x in m1 && m1[x] == m[x]
    requires forall i, x :: 0 <= i < |rest| && x in rest[i].members ==>
      x in r && r[x] == ApplyEdit(m1[x], Hide(KeyAttr(rest[i].key)))
    requires forall x :: x in Flatten(rest) ==> x !in gs[0].members
    ensures x in r && r[x] == ApplyEdit(m[x], Hide(KeyAttr(gs[i].key)))
  {
    var j := i - 1;
    assert rest[j] == gs[i];
    assert x in m;
    MemberInFlatten(rest, j, x);
    assert r[x] == ApplyEdit(m1[x], Hide(KeyAttr(rest[j].key)));
  }

  /** Each group's header and rows are placed in front of the groups sorted before it: the last group comes first. */
  lemma {:induction false} LayoutSnoc(gs: seq<Group>, g: Group, n: nat)
    ensures Layout(gs + [g], n) == [n + |gs|] + Rev(g.members) + Layout(gs, n)
    decreases |gs|
  {
    if gs == [] {
      assert (gs + [g])[1..] == [];
    } else {
      var rest := gs[1..];
      var head := [n] + Rev(gs[0].members);
      assert Layout(gs + [g], n) == Layout(rest + [g], n + 1) + head by {
        assert (gs + [g])[1..] == rest + [g];
        assert (gs + [g])[0] == gs[0];
      }
      assert Layout(rest + [g], n + 1) == [n + |gs|] + Rev(g.members) + Layout(rest, n + 1) by {
        LayoutSnoc(rest, g, n + 1);
      }
      assert Layout(gs, n) == Layout(rest, n + 1) + head;
    }
  }

  /** The layout holds every grouped row and every new header id, each once. */
  lemma {:induction false} LayoutContents(gs: seq<Group>, n: nat)
    requires Distinct(Flatten(gs))
    requires forall x :: x in Flatten(gs) ==> x < n
    ensures forall x :: x in Layout(gs, n) <==> x in Flatten(gs) || n <= x < n + |gs|
    ensures Distinct(Layout(gs, n))
    decreases |gs|
  {
    if gs != [] {
      FlattenCons(gs);
      DistinctParts(gs[0].members, Flatten(gs[1..]));
      RevHas(gs[0].members);
      DistinctRev(gs[0].members);
      assert forall x :: x in Flatten(gs) <==> x in gs[0].members || x in Flatten(gs[1..]);
      LayoutContents(gs[1..], n + 1);
      assert forall x :: x in [n] + Rev(gs[0].members) <==> x == n || x in gs[0].members;
      DistinctAppend([n], Rev(gs[0].members));
      DistinctAppend(Layout(gs[1..], n + 1), [n] + Rev(gs[0].members));
      assert Layout(gs, n) == Layout(gs[1..], n + 1) + ([n] + Rev(gs[0].members));
    }
  }

  /** Two groups of two rows each, laid out with headers 10 and 11: the second group and its rows come first, each reversed. */
  lemma LayoutReversedExample()
    ensures Layout([Group(Str("a"), Str("A"), [1, 2]), Group(Str("b"), Str("B"), [3, 4])], 10) == [11, 4, 3, 10, 2, 1]
  {
    var g1 := Group(Str("a"), Str("A"), [1, 2]);
    var g2 := Group(Str("b"), Str("B"), [3, 4]);
    LayoutSnoc([g1], g2, 10);
    assert Layout([g1], 10) == [10, 2, 1];
  }

  /**
   * Where group i ends up: after the groups sorted later, its header n + i
   * directly followed by its rows in reverse order, then the groups sorted
   * earlier.
   */
  lemma {:induction false} LayoutSplit(gs: seq<Group>, n: nat, i: nat)
    requires i < |gs|
    ensures Layout(gs, n) == Layout(gs[i + 1..], n + i + 1) + ([n + i] + Rev(gs[i].members)) + Layout(gs[..i], n)
    decreases i
  {
    if i == 0 {
      assert gs[..0] == [];
    } else {
      var tail := gs[1..];
      var later := Layout(gs[i + 1..], n + i + 1);
      var mid := [n + i] + Rev(gs[i].members);
      var between := Layout(tail[..i - 1], n + 1);
      var first := [n] + Rev(gs[0].members);
      assert Layout(tail, n + 1) == later + mid + between by {
        LayoutSplit(tail, n + 1, i - 1);
        assert tail[i - 1 + 1..] == gs[i + 1..];
        assert tail[i - 1] == gs[i];
      }
      assert Layout(gs[..i], n) == between + first by {
        assert gs[..i][1..] == tail[..i - 1];
        assert gs[..i][0] == gs[0];
      }
      assert Layout(gs, n) == Layout(tail, n + 1) + first;
      ConcatRegroup(Layout(gs, n), Layout(tail, n + 1), Layout(gs[..i], n), later, mid, between, first);
    }
  }

  /** The regrouping of concatenations in the inductive step of `LayoutSplit`. */
  lemma ConcatRegroup(all: seq<RowId>, tail: seq<RowId>, prefix: seq<RowId>,
                      later: seq<RowId>, mid: seq<RowId>, between: seq<RowId>, first: seq<RowId>)
    requires all == tail + first && tail == later + mid + between && prefix == between + first
    ensures all == later + mid + prefix
  {
  }

  /**
   * The rows of a group sit right after its header in the reverse of the
   * order they were grouped in; for two or more rows with distinct ends that
   * is a different order.
   */
  lemma RegroupFlipsMembers(gs: seq<Group>, n: nat, i: nat)
    requires i < |gs|
    requires |gs[i].members| >= 2 && gs[i].members[0] != gs[i].members[|gs[i].members| - 1]
    ensures Layout(gs, n) == Layout(gs[i + 1..], n + i + 1) + ([n + i] + Rev(gs[i].members)) + Layout(gs[..i], n)
    ensures Rev(gs[i].members) != gs[i].members && Rev(Rev(gs[i].members)) == gs[i].members
  {
    LayoutSplit(gs, n, i);
    RevRev(gs[i].members);
    assert Rev(gs[i].members)[0] == gs[i].members[|gs[i].members| - 1];
  }

  // ---------------------------------------------------------------------------
  // The groups of the visible rows

  /**
   * The sorted groups are the partition reordered: every visible non-header
   * row is in exactly one group, each group's rows are those with its key in
   * visible order, and the null group is last.
   */
  lemma SortedGroupsCover(rows: map<RowId, Row>, visible: seq<RowId>, spec: string, env: Env)
    requires forall id :: id in visible ==> id in rows
    requires Distinct(visible)
    ensures var fieldName := GroupField(spec);
      var es := RowEntries(rows, visible, fieldName, Lookup(env.fields, fieldName),
                           ColumnIndex(GroupColumnAttrs(env.columns), fieldName));
      var sorted := SortedGroups(rows, visible, spec, env);
      && multiset(sorted) == multiset(Partition(es))
      && (forall i :: 0 <= i < |sorted| ==> sorted[i].members == IdsWithKey(es, sorted[i].key))
      && Distinct(Flatten(sorted))
      && (forall x :: x in Flatten(sorted) <==> x in visible && rows[x].kind != GroupHeader)
      && NullsLast(sorted)
  {
    var fieldName := GroupField(spec);
    var fd := Lookup(env.fields, fieldName);
    var col := ColumnIndex(GroupColumnAttrs(env.columns), fieldName);
    var es := RowEntries(rows, visible, fieldName, fd, col);
    var o := Order(IsMany2one(fd), IsDescending(spec), env.collate);
    var ps := Partition(es);
    var sorted := SortGroups(ps, ComparatorOf(o));
    SortIsPermutation(ps, ComparatorOf(o));
    SortKeepsRows(ps, ComparatorOf(o));
    SortNullsLast(ps, o);
    GroupsOfDistinctRows(rows, visible, fieldName, fd, col);
    PermutedGroups(ps, sorted);
    forall i | 0 <= i < |sorted| ensures sorted[i].members == IdsWithKey(es, sorted[i].key) {
      PartitionMembers(es);
      var j :| 0 <= j < |ps| && ps[j] == sorted[i];
    }
  }

  /** A reordering of groups keeps each group and the rows they hold. */
  lemma PermutedGroups(ps: seq<Group>, sorted: seq<Group>)
    requires multiset(sorted) == multiset(ps)
    requires multiset(Flatten(sorted)) == multiset(Flatten(ps))
    requires Distinct(Flatten(ps))
    ensures Distinct(Flatten(sorted))
    ensures forall x :: x in Flatten(sorted) <==> x in Flatten(ps)
    ensures forall i :: 0 <= i < |sorted| ==> sorted[i] in ps
  {
    DistinctPermutation(Flatten(sorted), Flatten(ps));
    forall x ensures x in Flatten(sorted) <==> x in Flatten(ps) {
      assert x in Flatten(sorted) <==> x in multiset(Flatten(sorted));
      assert x in Flatten(ps) <==> x in multiset(Flatten(ps));
    }
    forall i | 0 <= i < |sorted| ensures sorted[i] in ps {
      assert sorted[i] in multiset(ps);
    }
  }

  // ---------------------------------------------------------------------------
  // The rebuild

  /** The body the rebuild loop starts from: snapshot taken if absent, old headers and the visible rows detached. */
  function Detached(st: BodyState, visible: seq<RowId>, allRows: seq<RowId>): BodyState {
    var st1 := st.(snapshot := if st.snapshot.None? then Some(allRows) else st.snapshot);
    var st2 := RemoveHeaders(st1);
    st2.(children := Drop(st2.children, SetOf(visible)))
  }

  lemma GroupBySpecIsPlace(st: BodyState, visible: seq<RowId>, groupBy: seq<string>, allRows: seq<RowId>, env: Env)
    requires forall id :: id in visible ==> id in st.rows
    requires |groupBy| > 0 && groupBy[0] != ""
    ensures var st3 := Detached(st, visible, allRows);
      GroupBySpec(st, visible, groupBy, allRows, env)
        == PlaceGroups(st3, SortedGroups(st.rows, visible, groupBy[0], env), FirstOther(st3.rows, st3.children))
  {
  }

  lemma GroupsOwned(rows: map<RowId, Row>, visible: seq<RowId>, spec: string, env: Env)
    requires Distinct(visible) && forall id :: id in visible ==> id in rows
    ensures Owned(rows, SortedGroups(rows, visible, spec, env))
  {
    var sorted := SortedGroups(rows, visible, spec, env);
    SortedGroupsCover(rows, visible, spec, env);
    forall i, x | 0 <= i < |sorted| && x in sorted[i].members ensures x in rows {
      MemberInFlatten(sorted, i, x);
    }
  }

  /** What the rebuild does to the rows before it: these are the preconditions of the loop lemmas. */
  lemma DetachedReady(st: BodyState, visible: seq<RowId>, groupBy: seq<string>, allRows: seq<RowId>, env: Env)
    requires ValidState(st)
    requires Distinct(visible) && forall id :: id in visible ==> id in st.children
    requires |groupBy| > 0
    ensures var st3 := Detached(st, visible, allRows);
      var sorted := SortedGroups(st.rows, visible, groupBy[0], env);
      && st3.children == Drop(st.children, KindSet(st.rows, GroupHeader) + SetOf(visible))
      && st3.rows == st.rows && st3.nextId == st.nextId
      && Insertable(st3.children, sorted, FirstOther(st3.rows, st3.children), st.nextId)
      && Owned(st.rows, sorted)
  {
    var st3 := Detached(st, visible, allRows);
    var sorted := SortedGroups(st.rows, visible, groupBy[0], env);
    DropDrop(st.children, KindSet(st.rows, GroupHeader), SetOf(visible));
    SortedGroupsCover(st.rows, visible, groupBy[0], env);
    forall i, x | 0 <= i < |sorted| && x in sorted[i].members ensures x in st.rows {
      MemberInFlatten(sorted, i, x);
    }
  }

  /**
   * The rebuilt child list: the rows that stay (filtered-out data rows and
   * other rows, in their old order) with the layout of the sorted groups
   * inserted before the first other row; the snapshot is taken only if absent.
   */
  lemma GroupByChildren(st: BodyState, visible: seq<RowId>, groupBy: seq<string>, allRows: seq<RowId>, env: Env)
    requires ValidState(st)
    requires Distinct(visible) && forall id :: id in visible ==> id in st.children
    requires |groupBy| > 0 && groupBy[0] != ""
    ensures var sorted := SortedGroups(st.rows, visible, groupBy[0], env);
      var rest := Drop(st.children, KindSet(st.rows, GroupHeader) + SetOf(visible));
      var r := GroupBySpec(st, visible, groupBy, allRows, env);
      && r.children == Splice(rest, Layout(sorted, st.nextId), FirstOther(st.rows, rest))
      && r.snapshot == (if st.snapshot.None? then Some(allRows) else st.snapshot)
      && r.nextId == st.nextId + |sorted|
  {
    var st3 := Detached(st, visible, allRows);
    var sorted := SortedGroups(st.rows, visible, groupBy[0], env);
    GroupBySpecIsPlace(st, visible, groupBy, allRows, env);
    DetachedReady(st, visible, groupBy, allRows, env);
    PlaceGroupsChildren(st3, sorted, FirstOther(st3.rows, st3.children));
  }

  lemma GroupByRowsArePlaceRows(st: BodyState, visible: seq<RowId>, groupBy: seq<string>, allRows: seq<RowId>, env: Env)
    requires forall id :: id in visible ==> id in st.rows
    requires |groupBy| > 0 && groupBy[0] != ""
    ensures GroupBySpec(st, visible, groupBy, allRows, env).rows
      == PlaceRows(st.rows, SortedGroups(st.rows, visible, groupBy[0], env), st.nextId)
  {
    var st3 := Detached(st, visible, allRows);
    GroupBySpecIsPlace(st, visible, groupBy, allRows, env);
  }

  /**
   * The rebuilt rows: one folded header per sorted group at the next free
   * ids, labelled with the group's caption and owning its rows; each grouped
   * row hidden and tagged with its key; every other row untouched.
   */
  lemma GroupByRows(st: BodyState, visible: seq<RowId>, groupBy: seq<string>, allRows: seq<RowId>, env: Env)
    requires forall x :: x in st.rows ==> x < st.nextId
    requires Distinct(visible) && forall id :: id in visible ==> id in st.rows
    requires |groupBy| > 0 && groupBy[0] != ""
    ensures PlacedRows(st.rows, SortedGroups(st.rows, visible, groupBy[0], env), st.nextId,
                       GroupBySpec(st, visible, groupBy, allRows, env).rows)
  {
    var sorted := SortedGroups(st.rows, visible, groupBy[0], env);
    GroupByRowsArePlaceRows(st, visible, groupBy, allRows, env);
    GroupsOwned(st.rows, visible, groupBy[0], env);
    PlaceRowsAll(st.rows, sorted, st.nextId);
  }

  // ---------------------------------------------------------------------------
  // Ungrouping

  /** `r` is `m` with the `data-group-value` of the rows `ids` cleared, and nothing else changed. */
  ghost predicate Cleared(m: map<RowId, Row>, ids: seq<RowId>, r: map<RowId, Row>) {
    && (forall x :: x in r <==> x in m)
    && (forall x :: x in m ==> r[x] == if x in ids then m[x].(groupAttr := None) else m[x])
  }

  lemma EditRowsCleared(m: map<RowId, Row>, ids: seq<RowId>)
    ensures Cleared(m, ids, EditRows(m, SetOf(ids), ClearAttr))
  {
  }

  /** Removing headers and data rows from the children leaves exactly the other rows, in order. */
  lemma OthersLeft(st: BodyState)
    requires forall id :: id in st.children ==> id in st.rows
    ensures var st2 := RemoveDataAndHeaders(RemoveHeaders(st));
      && st2.children == Only(st.children, KindSet(st.rows, OtherRow))
      && FirstOther(st2.rows, st2.children) == if st2.children == [] then None else Some(st2.children[0])
  {
    var h := KindSet(st.rows, GroupHeader);
    var d := KindSet(st.rows, DataRow);
    var others := Only(st.children, KindSet(st.rows, OtherRow));
    assert RemoveDataAndHeaders(RemoveHeaders(st)).children == others by {
      DropDrop(st.children, h, d + h);
      DropIsOnly(st.children, h + (d + h), KindSet(st.rows, OtherRow));
    }
    if others != [] {
      assert others[0] in others;
      assert IsKind(st.rows, others[0], OtherRow);
    }
  }

  /**
   * With a non-empty snapshot, ungrouping keeps only the other rows and
   * puts exactly the snapshot's rows before them, in reverse snapshot order,
   * with their group tag cleared.
   */
  lemma RestoreFromSnapshot(st: BodyState, rs: seq<RowId>)
    requires ValidState(st)
    requires st.snapshot.Some? && |st.snapshot.value| > 0
    ensures var r := RestoreSpec(st, rs);
      && r.children == Rev(st.snapshot.value) + Only(st.children, KindSet(st.rows, OtherRow))
      && Cleared(st.rows, st.snapshot.value, r.rows)
      && r.snapshot == st.snapshot && r.nextId == st.nextId
  {
    OthersLeft(st);
    SpliceFront(Only(st.children, KindSet(st.rows, OtherRow)), Rev(st.snapshot.value));
    EditRowsCleared(st.rows, st.snapshot.value);
  }

  /**
   * Without a snapshot but with data rows, ungrouping removes the headers,
   * records the data rows as the snapshot if there was none, clears their
   * group tag and reorders nothing.
   */
  lemma RestoreCapturesSnapshot(st: BodyState, rs: seq<RowId>)
    requires ValidState(st)
    requires st.snapshot.None? || st.snapshot == Some([])
    requires Only(st.children, KindSet(st.rows, DataRow)) != []
    ensures var r := RestoreSpec(st, rs);
      var dataRows := Only(st.children, KindSet(st.rows, DataRow));
      && r.children == Drop(st.children, KindSet(st.rows, GroupHeader))
      && r.snapshot == (if st.snapshot.None? then Some(dataRows) else st.snapshot)
      && Cleared(st.rows, dataRows, r.rows)
      && r.nextId == st.nextId
  {
    var dataRows := Only(st.children, KindSet(st.rows, DataRow));
    OnlyDropDisjoint(st.children, KindSet(st.rows, GroupHeader), KindSet(st.rows, DataRow));
    EditRowsCleared(st.rows, dataRows);
  }

  /**
   * Without a snapshot and without data rows, ungrouping puts the rows it is
   * given before the other rows, in reverse order, with their group tag cleared.
   */
  lemma RestoreFromRows(st: BodyState, rs: seq<RowId>)
    requires ValidState(st)
    requires st.snapshot.None? || st.snapshot == Some([])
    requires Only(st.children, KindSet(st.rows, DataRow)) == []
    requires |rs| > 0
    ensures var r := RestoreSpec(st, rs);
      && r.children == Rev(rs) + Only(st.children, KindSet(st.rows, OtherRow))
      && Cleared(st.rows, rs, r.rows)
      && r.snapshot == st.snapshot && r.nextId == st.nextId
  {
    OnlyDropDisjoint(st.children, KindSet(st.rows, GroupHeader), KindSet(st.rows, DataRow));
    OthersLeft(st);
    SpliceFront(Only(st.children, KindSet(st.rows, OtherRow)), Rev(rs));
    EditRowsCleared(st.rows, rs);
  }

  // ---------------------------------------------------------------------------
  // Folding

  /** A header whose members' display agrees with its folded attribute, and which is not its own member. */
  ghost predicate FoldConsistent(rows: map<RowId, Row>, h: RowId) {
    && h in rows && rows[h].header.Some?
    && h !in rows[h].header.value.members
    && (rows[h].foldedAttr == Some("true") || rows[h].foldedAttr == Some("false"))
    && forall x :: x in rows[h].header.value.members && x in rows ==>
         rows[x].shown == (rows[h].foldedAttr == Some("false"))
  }

  /**
   * A toggle flips the header's folded attribute, shows every member when
   * the group unfolds and hides it when it folds, and changes nothing else.
   */
  lemma ToggleFlips(st: BodyState, h: RowId)
    requires h in st.rows && st.rows[h].header.Some?
    ensures var r := ToggleSpec(st, h);
      var members := st.rows[h].header.value.members;
      var nowFolded := st.rows[h].foldedAttr != Some("true");
      && r.children == st.children && r.snapshot == st.snapshot && r.nextId == st.nextId
      && (forall x :: x in r.rows <==> x in st.rows)
      && r.rows[h].foldedAttr == Some(if nowFolded then "true" else "false")
      && (h !in members ==> r.rows[h] == st.rows[h].(foldedAttr := r.rows[h].foldedAttr))
      && (forall x :: x in members && x in st.rows && x != h ==> r.rows[x] == st.rows[x].(shown := !nowFolded))
      && (forall x :: x in st.rows && x != h && x !in members ==> r.rows[x] == st.rows[x])
  {
  }

  /** Toggling a consistent header twice gives back the same body. */
  lemma ToggleTwice(st: BodyState, h: RowId)
    requires FoldConsistent(st.rows, h)
    ensures ToggleSpec(st, h).rows[h].header == st.rows[h].header
    ensures ToggleSpec(ToggleSpec(st, h), h) == st
  {
    var st1 := ToggleSpec(st, h);
    ToggleFlips(st, h);
    ToggleFlips(st1, h);
    var st2 := ToggleSpec(st1, h);
    var members := st.rows[h].header.value.members;
    forall x | x in st.rows ensures st2.rows[x] == st.rows[x] {
      if x == h {
      } else if x in members {
        assert st.rows[x].shown == (st.rows[h].foldedAttr == Some("false"));
      }
    }
    assert st2.rows == st.rows;
  }

  /** Every header the rebuild creates is consistent: folded, with all its rows hidden. */
  lemma PlacedHeadersConsistent(m: map<RowId, Row>, gs: seq<Group>, n: nat, r: map<RowId, Row>)
    requires PlacedRows(m, gs, n, r)
    requires forall x :: x in m ==> x < n
    ensures forall h :: n <= h < n + |gs| ==> FoldConsistent(r, h)
  {
    forall h | n <= h < n + |gs| ensures FoldConsistent(r, h) {
      PlacedHeaderConsistent(m, gs, n, r, h - n);
    }
  }

  lemma PlacedHeaderConsistent(m: map<RowId, Row>, gs: seq<Group>, n: nat, r: map<RowId, Row>, i: nat)
    requires PlacedRows(m, gs, n, r)
    requires forall x :: x in m ==> x < n
    requires i < |gs|
    ensures FoldConsistent(r, n + i)
  {
    var g := gs[i];
    assert HeaderAt(r, gs, n, i);
    assert n + i in r && r[n + i] == NewHeader(KeyAttr(g.key), g.caption, g.members);
    forall x | x in g.members ensures x in m && !r[x].shown {
      assert x in m && x in r && r[x] == ApplyEdit(m[x], Hide(KeyAttr(g.key)));
    }
  }

  // ---------------------------------------------------------------------------
  // The search

  /** Only `data-group-value` differs between a row before and after ungrouping. */
  lemma RestoreOnlyClears(st: BodyState, rs: seq<RowId>)
    ensures var r := RestoreSpec(st, rs);
      && (forall x :: x in r.rows <==> x in st.rows)
      && forall x :: x in st.rows ==> r.rows[x] == st.rows[x].(groupAttr := r.rows[x].groupAttr)
  {
    var st1 := RemoveHeaders(st);
    var dataRows := Only(st1.children, KindSet(st1.rows, DataRow));
    if st1.snapshot.Some? && |st1.snapshot.value| > 0 {
      ClearedRows(st, RestoreSpec(st, rs).rows, st1.snapshot.value);
    } else if |dataRows| > 0 {
      ClearedRows(st, RestoreSpec(st, rs).rows, dataRows);
    } else if |rs| > 0 {
      ClearedRows(st, RestoreSpec(st, rs).rows, rs);
    }
  }

  /** Rows cleared of their group tags are the old rows up to that tag. */
  lemma ClearedRows(st: BodyState, r: map<RowId, Row>, ids: seq<RowId>)
    requires r == EditRows(st.rows, SetOf(ids), ClearAttr)
    ensures (forall x :: x in r <==> x in st.rows)
      && forall x :: x in st.rows ==> r[x] == st.rows[x].(groupAttr := r[x].groupAttr)
  {
    EditRowsCleared(st.rows, ids);
  }

  /**
   * Without a group-by facet (or with an empty group-by list) the search
   * ungroups, and then every data row it started from is shown exactly when
   * the combined domain is empty or the row satisfies it.
   */
  lemma SearchUngroupedVisibility(st: BodyState, searchDomain: seq<Value>, facets: seq<Facet>,
                                  groupBy: seq<string>, env: Env)
    requires !(|groupBy| > 0 && HasGroupByFacet(facets))
    ensures var d := CombinedDomain(searchDomain, facets, env.parse, env.conj);
      var r := SearchSpec(st, searchDomain, facets, groupBy, env);
      && r.children == RestoreSpec(FilterRows(st, d, env), DataChildren(st)).children
      && forall x :: x in DataChildren(st) ==>
           x in r.rows && r.rows[x].shown == (|d| == 0 || Matches(st.rows[x], d, env.columns, env.contains))
  {
    var d := CombinedDomain(searchDomain, facets, env.parse, env.conj);
    var all := DataChildren(st);
    var st1 := FilterRows(st, d, env);
    var st2 := RestoreSpec(st1, all);
    var r := SearchSpec(st, searchDomain, facets, groupBy, env);
    assert r == st2.(rows := ShowRows(st2.rows, SetOf(all), d, env, true));
    assert forall x :: x in all ==> x in st.rows && st.rows[x].kind == DataRow;
    assert forall x :: x in st.rows ==> x in st2.rows && SameData(st2.rows[x], st.rows[x]) by {
      RestoreOnlyClears(st1, all);
    }
    ShownUngrouped(st.rows, st2.rows, r.rows, all, d, env);
  }

  /** Two versions of a row that differ at most in display and tags. */
  predicate SameData(a: Row, b: Row) {
    a.record == b.record && a.cells == b.cells && a.kind == b.kind
  }

  /** The second display loop decides each data row from its data alone. */
  lemma ShownUngrouped(m0: map<RowId, Row>, m2: map<RowId, Row>, r: map<RowId, Row>, all: seq<RowId>, d: seq<Value>, env: Env)
    requires forall x :: x in all ==> x in m0 && m0[x].kind == DataRow
    requires forall x :: x in m0 ==> x in m2 && SameData(m2[x], m0[x])
    requires r == ShowRows(m2, SetOf(all), d, env, true)
    ensures forall x :: x in all ==> x in r && r[x].shown == (|d| == 0 || Matches(m0[x], d, env.columns, env.contains))
  {
    forall x | x in all
      ensures x in r && r[x].shown == (|d| == 0 || Matches(m0[x], d, env.columns, env.contains))
    {
      ShouldShowReadsData(m2[x], m0[x], d, env);
    }
  }

  /**
   * With a group-by facet and a non-empty group-by list the search groups
   * the data rows the domain leaves displayed, in child order.
   */
  lemma SearchGroupsVisible(st: BodyState, searchDomain: seq<Value>, facets: seq<Facet>,
                            groupBy: seq<string>, env: Env)
    requires ValidState(st)
    requires |groupBy| > 0 && HasGroupByFacet(facets)
    ensures var d := CombinedDomain(searchDomain, facets, env.parse, env.conj);
      var vis := Visible(st, d, env);
      && SearchSpec(st, searchDomain, facets, groupBy, env)
           == GroupBySpec(FilterRows(st, d, env), vis, groupBy, DataChildren(st), env)
      && Distinct(vis)
      && forall x :: x in vis <==> x in st.children && IsKind(st.rows, x, DataRow) && ShouldShow(st.rows[x], d, env)
  {
    var d := CombinedDomain(searchDomain, facets, env.parse, env.conj);
    DistinctOnly(st.children, KindSet(st.rows, DataRow));
    DistinctOnly(DataChildren(st), ShownSet(FilterRows(st, d, env).rows));
  }

  /** Header `n + i` of `r` is captioned with group i's caption and the number of entries with its key. */
  ghost predicate HeadersCount(r: map<RowId, Row>, sorted: seq<Group>, n: nat, es: seq<Entry>) {
    forall i :: 0 <= i < |sorted| ==> CountAt(r, sorted, n, es, i)
  }

  /** Header n + i is captioned with group i's caption and the count of entries carrying its key. */
  ghost predicate CountAt(r: map<RowId, Row>, sorted: seq<Group>, n: nat, es: seq<Entry>, i: nat)
    requires i < |sorted|
  {
    && n + i in r && r[n + i].header.Some?
    && HeaderText(r[n + i].header.value)
       == ToStr(sorted[i].caption) + " (" + NatToString(|IdsWithKey(es, sorted[i].key)|) + ")"
  }

  /** The caption of each header the rebuild creates counts the visible rows whose key is its group's. */
  lemma GroupHeaderCount(st: BodyState, visible: seq<RowId>, groupBy: seq<string>, allRows: seq<RowId>, env: Env)
    requires forall x :: x in st.rows ==> x < st.nextId
    requires Distinct(visible) && forall id :: id in visible ==> id in st.rows
    requires |groupBy| > 0 && groupBy[0] != ""
    ensures HeadersCount(GroupBySpec(st, visible, groupBy, allRows, env).rows,
                         SortedGroups(st.rows, visible, groupBy[0], env), st.nextId,
                         RowEntries(st.rows, visible, GroupField(groupBy[0]), Lookup(env.fields, GroupField(groupBy[0])),
                                    ColumnIndex(GroupColumnAttrs(env.columns), GroupField(groupBy[0]))))
  {
    var fieldName := GroupField(groupBy[0]);
    var es := RowEntries(st.rows, visible, fieldName, Lookup(env.fields, fieldName),
                         ColumnIndex(GroupColumnAttrs(env.columns), fieldName));
    var sorted := SortedGroups(st.rows, visible, groupBy[0], env);
    GroupByRows(st, visible, groupBy, allRows, env);
    SortedGroupsCover(st.rows, visible, groupBy[0], env);
    HeaderCaptions(st.rows, sorted, st.nextId, GroupBySpec(st, visible, groupBy, allRows, env).rows, es);
  }

  lemma HeaderCaptions(m: map<RowId, Row>, sorted: seq<Group>, n: nat, r: map<RowId, Row>, es: seq<Entry>)
    requires PlacedRows(m, sorted, n, r)
    requires forall i :: 0 <= i < |sorted| ==> sorted[i].members == IdsWithKey(es, sorted[i].key)
    ensures HeadersCount(r, sorted, n, es)
  {
    forall i | 0 <= i < |sorted|
      ensures CountAt(r, sorted, n, es, i)
    {
      assert HeaderAt(r, sorted, n, i);
    }
  }

  // ---------------------------------------------------------------------------
  // One loop iteration at a time

  /** Editing one more row of a list: the edit applied to that row's current value (edits are idempotent). */
  lemma EditRowsStep(m: map<RowId, Row>, s: seq<RowId>, i: nat, e: Edit)
    requires i < |s|
    ensures var prev := EditRows(m, SetOf(s[..i]), e);
      EditRows(m, SetOf(s[..i + 1]), e) == if s[i] in m then prev[s[i] := ApplyEdit(prev[s[i]], e)] else prev
  {
    var prev := EditRows(m, SetOf(s[..i]), e);
    var next := EditRows(m, SetOf(s[..i + 1]), e);
    var want := if s[i] in m then prev[s[i] := ApplyEdit(prev[s[i]], e)] else prev;
    assert SetOf(s[..i + 1]) == SetOf(s[..i]) + {s[i]} by {
      assert s[..i + 1] == s[..i] + [s[i]];
    }
    assert next.Keys == want.Keys;
    assert forall k :: k in next ==> next[k] == want[k];
  }

  /** The display decision reads a row's data, never its display or tags. */
  lemma ShouldShowReadsData(a: Row, b: Row, d: seq<Value>, env: Env)
    requires a.record == b.record && a.cells == b.cells
    ensures ShouldShow(a, d, env) == ShouldShow(b, d, env)
  {
  }

  /** One more row through a display loop. */
  lemma ShowRowsStep(m: map<RowId, Row>, s: seq<RowId>, i: nat, d: seq<Value>, env: Env, skipHeaders: bool)
    requires i < |s|
    ensures var prev := ShowRows(m, SetOf(s[..i]), d, env, skipHeaders);
      ShowRows(m, SetOf(s[..i + 1]), d, env, skipHeaders)
        == if s[i] in m && !(skipHeaders && m[s[i]].kind == GroupHeader)
           then prev[s[i] := prev[s[i]].(shown := ShouldShow(m[s[i]], d, env))] else prev
  {
    var prev := ShowRows(m, SetOf(s[..i]), d, env, skipHeaders);
    var next := ShowRows(m, SetOf(s[..i + 1]), d, env, skipHeaders);
    var want := if s[i] in m && !(skipHeaders && m[s[i]].kind == GroupHeader)
                then prev[s[i] := prev[s[i]].(shown := ShouldShow(m[s[i]], d, env))] else prev;
    assert SetOf(s[..i + 1]) == SetOf(s[..i]) + {s[i]} by {
      assert s[..i + 1] == s[..i] + [s[i]];
    }
    assert next.Keys == want.Keys;
    assert forall k :: k in next ==> next[k] == want[k];
  }

  // ---------------------------------------------------------------------------
  // Every operation keeps the body well formed

  lemma ClearedKeepsValid(st: BodyState, ids: seq<RowId>, r: BodyState)
    requires ValidState(st)
    requires Cleared(st.rows, ids, r.rows) && r.nextId == st.nextId
    requires Distinct(r.children) && forall id :: id in r.children ==> id in st.rows
    requires r.snapshot == st.snapshot || (r.snapshot.Some? && Distinct(r.snapshot.value)
               && forall id :: id in r.snapshot.value ==> IsKind(st.rows, id, DataRow))
    ensures ValidState(r)
  {
  }

  lemma RestoreKeepsValid(st: BodyState, rs: seq<RowId>)
    requires ValidState(st)
    requires Distinct(rs) && forall id :: id in rs ==> IsKind(st.rows, id, DataRow)
    ensures ValidState(RestoreSpec(st, rs))
  {
    if st.snapshot.Some? && |st.snapshot.value| > 0 {
      RestoreFromSnapshot(st, rs);
      ReinsertedValid(st, st.snapshot.value, RestoreSpec(st, rs));
    } else if Only(st.children, KindSet(st.rows, DataRow)) != [] {
      RestoreCapturesSnapshot(st, rs);
      DistinctDrop(st.children, KindSet(st.rows, GroupHeader));
      DistinctOnly(st.children, KindSet(st.rows, DataRow));
      ClearedKeepsValid(st, Only(st.children, KindSet(st.rows, DataRow)), RestoreSpec(st, rs));
    } else if |rs| > 0 {
      RestoreFromRows(st, rs);
      ReinsertedValid(st, rs, RestoreSpec(st, rs));
    } else {
      OnlyDropDisjoint(st.children, KindSet(st.rows, GroupHeader), KindSet(st.rows, DataRow));
      DistinctDrop(st.children, KindSet(st.rows, GroupHeader));
    }
  }

  /** The rows put back in front of the other rows, untagged: the body stays well formed. */
  lemma ReinsertedValid(st: BodyState, back: seq<RowId>, r: BodyState)
    requires ValidState(st)
    requires Distinct(back) && forall id :: id in back ==> IsKind(st.rows, id, DataRow)
    requires r.children == Rev(back) + Only(st.children, KindSet(st.rows, OtherRow))
    requires Cleared(st.rows, back, r.rows)
    requires r.snapshot == st.snapshot && r.nextId == st.nextId
    ensures ValidState(r)
  {
    var others := Only(st.children, KindSet(st.rows, OtherRow));
    DistinctOnly(st.children, KindSet(st.rows, OtherRow));
    DistinctRev(back);
    RevHas(back);
    DistinctAppend(Rev(back), others);
    ClearedKeepsValid(st, back, r);
  }

  lemma ToggleKeepsValid(st: BodyState, h: RowId)
    requires ValidState(st) && h in st.rows && st.rows[h].header.Some?
    ensures ValidState(ToggleSpec(st, h))
  {
    ToggleFlips(st, h);
  }

  lemma ShowRowsKeepsValid(st: BodyState, ids: set<RowId>, d: seq<Value>, env: Env, skipHeaders: bool)
    requires ValidState(st)
    ensures ValidState(st.(rows := ShowRows(st.rows, ids, d, env, skipHeaders)))
  {
  }

  /** Placing groups changes no row's kind and no existing header's group. */
  lemma PlacedKeepsKinds(m: map<RowId, Row>, gs: seq<Group>, n: nat, r: map<RowId, Row>)
    requires PlacedRows(m, gs, n, r)
    ensures forall x :: x in m ==> x in r && r[x].kind == m[x].kind && r[x].header == m[x].header
  {
    forall x | x in m ensures x in r && r[x].kind == m[x].kind && r[x].header == m[x].header {
      if x in Flatten(gs) {
        MemberInFlattenInv(gs, x);
      }
    }
  }

  /** A body laid out by the rebuild loop from a well-formed one is well formed. */
  lemma PlacedValid(st: BodyState, rest: seq<RowId>, sorted: seq<Group>, anchor: Option<RowId>, r: BodyState)
    requires ValidState(st)
    requires Distinct(rest) && forall x :: x in rest ==> x in st.children
    requires Owned(st.rows, sorted) && forall x :: x in Flatten(sorted) ==> x !in rest
    requires r.children == Splice(rest, Layout(sorted, st.nextId), anchor)
    requires PlacedRows(st.rows, sorted, st.nextId, r.rows)
    requires r.nextId == st.nextId + |sorted|
    requires r.snapshot == st.snapshot || (r.snapshot.Some? && Distinct(r.snapshot.value)
               && forall id :: id in r.snapshot.value ==> IsKind(st.rows, id, DataRow))
    ensures ValidState(r)
  {
    var n := st.nextId;
    PlacedChildren(st, rest, sorted, anchor, r);
    PlacedKeepsKinds(st.rows, sorted, n, r.rows);
    PlacedHeaders(st, sorted, r);
    PlacedIds(st, sorted, r);
    if r.snapshot.Some? {
      PlacedSnapshot(st.rows, r.rows, r.snapshot.value);
    }
  }

  lemma PlacedIds(st: BodyState, sorted: seq<Group>, r: BodyState)
    requires forall id :: id in st.rows ==> id < st.nextId
    requires forall x :: x in r.rows <==> x in st.rows || st.nextId <= x < st.nextId + |sorted|
    requires r.nextId == st.nextId + |sorted|
    ensures forall id :: id in r.rows ==> id < r.nextId
  {
  }

  lemma PlacedSnapshot(m: map<RowId, Row>, r: map<RowId, Row>, snap: seq<RowId>)
    requires forall id :: id in snap ==> IsKind(m, id, DataRow)
    requires forall x :: x in m ==> x in r && r[x].kind == m[x].kind
    ensures forall id :: id in snap ==> IsKind(r, id, DataRow)
  {
  }

  lemma PlacedChildren(st: BodyState, rest: seq<RowId>, sorted: seq<Group>, anchor: Option<RowId>, r: BodyState)
    requires ValidState(st)
    requires Distinct(rest) && forall x :: x in rest ==> x in st.children
    requires Owned(st.rows, sorted) && forall x :: x in Flatten(sorted) ==> x !in rest
    requires r.children == Splice(rest, Layout(sorted, st.nextId), anchor)
    requires forall x :: x in r.rows <==> x in st.rows || st.nextId <= x < st.nextId + |sorted|
    ensures Distinct(r.children) && forall x :: x in r.children ==> x in r.rows
  {
    var n := st.nextId;
    assert forall x :: x in Flatten(sorted) ==> x in st.rows && x < n by {
      forall x | x in Flatten(sorted) ensures x in st.rows {
        MemberInFlattenInv(sorted, x);
      }
    }
    LayoutContents(sorted, n);
    DistinctSplice(rest, Layout(sorted, n), anchor);
    SpliceHas(rest, Layout(sorted, n), anchor);
  }

  lemma PlacedHeaders(st: BodyState, sorted: seq<Group>, r: BodyState)
    requires ValidState(st)
    requires PlacedRows(st.rows, sorted, st.nextId, r.rows)
    requires forall x :: x in st.rows ==> x in r.rows && r.rows[x].header == st.rows[x].header
    ensures forall id :: id in r.rows && r.rows[id].header.Some? ==>
      forall m :: m in r.rows[id].header.value.members ==> m in r.rows
  {
    var n := st.nextId;
    forall id | id in r.rows && r.rows[id].header.Some?
      ensures forall x :: x in r.rows[id].header.value.members ==> x in r.rows
    {
      if id !in st.rows {
        var i := id - n;
        assert 0 <= i < |sorted|;
        assert HeaderAt(r.rows, sorted, n, i);
        assert r.rows[n + i] == NewHeader(KeyAttr(sorted[i].key), sorted[i].caption, sorted[i].members);
        forall x | x in sorted[i].members ensures x in r.rows {
          assert x in st.rows;
        }
      }
    }
  }

  lemma GroupByKeepsValid(st: BodyState, visible: seq<RowId>, groupBy: seq<string>, allRows: seq<RowId>, env: Env)
    requires ValidState(st)
    requires Distinct(visible) && forall id :: id in visible ==> id in st.children
    requires Distinct(allRows) && forall id :: id in allRows ==> IsKind(st.rows, id, DataRow)
    ensures ValidState(GroupBySpec(st, visible, groupBy, allRows, env))
  {
    if |groupBy| == 0 || groupBy[0] == "" {
      RestoreKeepsValid(st, allRows);
    } else {
      var r := GroupBySpec(st, visible, groupBy, allRows, env);
      var sorted := SortedGroups(st.rows, visible, groupBy[0], env);
      var rest := Drop(st.children, KindSet(st.rows, GroupHeader) + SetOf(visible));
      GroupByChildren(st, visible, groupBy, allRows, env);
      GroupByRows(st, visible, groupBy, allRows, env);
      GroupsOwned(st.rows, visible, groupBy[0], env);
      DistinctDrop(st.children, KindSet(st.rows, GroupHeader) + SetOf(visible));
      SortedGroupsCover(st.rows, visible, groupBy[0], env);
      PlacedValid(st, rest, sorted, FirstOther(st.rows, rest), r);
    }
  }
}
