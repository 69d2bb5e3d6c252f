/**
 * The partition of the visible rows into groups: the `groups` Map of
 * `_x2mApplyGroupByToRows`, keyed by group key in insertion order, each
 * entry holding the label of its first row and its rows in order.
 */
module GroupPartition {
  import opened JsValues
  import opened FieldMeta
  import opened Rows
  import opened SeqUtil
  import opened GroupKeys

  /** What the partition loop computes for one row. */
  datatype Entry = Entry(id: RowId, key: Value, caption: Value)

  /** One entry of the groups Map: key, label and rows. */
  datatype Group = Group(key: Value, caption: Value, members: seq<RowId>)

  predicate KeysDistinct(gs: seq<Group>) {
    forall i, j :: 0 <= i < j < |gs| ==> gs[i].key != gs[j].key
  }

  /** Position of the group stored under `k` (`groups.has(k)`), or -1. */
  function KeyIndex(gs: seq<Group>, k: Value): (i: int)
    ensures -1 <= i < |gs|
    ensures i >= 0 ==> gs[i].key == k
    ensures i < 0 ==> forall j :: 0 <= j < |gs| ==> gs[j].key != k
  {
    if gs == [] then -1
    else if gs[|gs| - 1].key == k then |gs| - 1
    else KeyIndex(gs[..|gs| - 1], k)
  }

  /** One step of the loop: a new key opens a group labelled by this row; a known key gets the row appended. */
  function AddEntry(gs: seq<Group>, e: Entry): seq<Group> {
    var i := KeyIndex(gs, e.key);
    if i < 0 then gs + [Group(e.key, e.caption, [e.id])]
    else gs[i := gs[i].(members := gs[i].members + [e.id])]
  }

  function Partition(es: seq<Entry>): seq<Group> {
    if es == [] then [] else AddEntry(Partition(es[..|es| - 1]), es[|es| - 1])
  }

  /** Index of the first entry with key `k`, or -1. */
  function FirstIndex(es: seq<Entry>, k: Value): (i: int)
    ensures -1 <= i < |es|
    ensures i >= 0 ==> es[i].key == k
    ensures forall j :: 0 <= j < |es| && (i < 0 || j < i) ==> es[j].key != k
  {
    if es == [] then -1
    else
      var f := FirstIndex(es[..|es| - 1], k);
      if f >= 0 then f else if es[|es| - 1].key == k then |es| - 1 else -1
  }

  /** The rows of the entries with key `k`, in order. */
  function IdsWithKey(es: seq<Entry>, k: Value): seq<RowId> {
    if es == [] then []
    else IdsWithKey(es[..|es| - 1], k) + (if es[|es| - 1].key == k then [es[|es| - 1].id] else [])
  }

  function Ids(es: seq<Entry>): (r: seq<RowId>)
    ensures |r| == |es| && forall i :: 0 <= i < |es| ==> r[i] == es[i].id
  {
    if es == [] then [] else Ids(es[..|es| - 1]) + [es[|es| - 1].id]
  }

  /** The rows of all groups, group after group. */
  function Flatten(gs: seq<Group>): seq<RowId> {
    if gs == [] then [] else Flatten(gs[..|gs| - 1]) + gs[|gs| - 1].members
  }

  // ---------------------------------------------------------------------------
  // From rows to entries, and the loop that builds the Map

  /** The entries of the non-header rows among `ids`, each with its group key and label. */
  function RowEntries(rows: map<RowId, Row>, ids: seq<RowId>, fieldName: string,
                      fd: Option<FieldDef>, columnIndex: int): seq<Entry>
    requires forall id :: id in ids ==> id in rows
  {
    if ids == [] then []
    else
      var last := ids[|ids| - 1];
      var kl := KeyAndLabel(fd, RawGroupValue(rows[last], fieldName, columnIndex));
      RowEntries(rows, ids[..|ids| - 1], fieldName, fd, columnIndex)
        + (if rows[last].kind == GroupHeader then [] else [Entry(last, kl.0, kl.1)])
  }

  /** The `visibleRows.forEach` loop that fills the groups Map. */
  method BuildGroups(rows: map<RowId, Row>, ids: seq<RowId>, fieldName: string,
                     fd: Option<FieldDef>, columnIndex: int) returns (gs: seq<Group>)
    requires forall id :: id in ids ==> id in rows
    ensures gs == Partition(RowEntries(rows, ids, fieldName, fd, columnIndex))
  {
    gs := [];
    var i := 0;
    while i < |ids|
      invariant 0 <= i <= |ids|
      invariant gs == Partition(RowEntries(rows, ids[..i], fieldName, fd, columnIndex))
    {
      var es := RowEntries(rows, ids[..i + 1], fieldName, fd, columnIndex);
      assert ids[..i + 1][..i] == ids[..i];
      var row := rows[ids[i]];
      if row.kind != GroupHeader {
        var kl := KeyAndLabel(fd, RawGroupValue(row, fieldName, columnIndex));
        var e := Entry(ids[i], kl.0, kl.1);
        assert es == RowEntries(rows, ids[..i], fieldName, fd, columnIndex) + [e];
        assert es[..|es| - 1] == RowEntries(rows, ids[..i], fieldName, fd, columnIndex);
        gs := AddEntry(gs, e);
      } else {
        assert es == RowEntries(rows, ids[..i], fieldName, fd, columnIndex);
      }
      i := i + 1;
    }
    assert ids[..i] == ids;
  }

  // ---------------------------------------------------------------------------
  // What the partition is

  lemma {:induction false} IdsWithKeyNone(es: seq<Entry>, k: Value)
    requires FirstIndex(es, k) < 0
    ensures IdsWithKey(es, k) == []
  {
    if es != [] {
      IdsWithKeyNone(es[..|es| - 1], k);
    }
  }

  lemma FirstIndexStable(es: seq<Entry>)
    requires es != []
    ensures forall k :: FirstIndex(es[..|es| - 1], k) >= 0 ==> FirstIndex(es, k) == FirstIndex(es[..|es| - 1], k)
  {
  }

  /** The groups' keys are distinct and are exactly the keys occurring among the entries. */
  lemma {:induction false} PartitionKeys(es: seq<Entry>)
    ensures KeysDistinct(Partition(es))
    ensures forall k :: KeyIndex(Partition(es), k) >= 0 <==> FirstIndex(es, k) >= 0
  {
    if es != [] {
      var pre := es[..|es| - 1];
      var e := es[|es| - 1];
      PartitionKeys(pre);
      AddEntryKeys(Partition(pre), e, Partition(es));
      assert forall k :: FirstIndex(es, k) >= 0 <==> FirstIndex(pre, k) >= 0 || k == e.key;
    }
  }

  /** One step of the loop keeps the keys distinct and adds the entry's key. */
  lemma AddEntryKeys(g0: seq<Group>, e: Entry, gs: seq<Group>)
    requires KeysDistinct(g0) && gs == AddEntry(g0, e)
    ensures KeysDistinct(gs)
    ensures forall k :: KeyIndex(gs, k) >= 0 <==> KeyIndex(g0, k) >= 0 || k == e.key
  {
    var i0 := KeyIndex(g0, e.key);
    if i0 < 0 {
      assert gs == g0 + [Group(e.key, e.caption, [e.id])];
      assert gs[..|gs| - 1] == g0;
    } else {
      assert forall j :: 0 <= j < |gs| ==> gs[j].key == g0[j].key;
      forall k ensures KeyIndex(gs, k) >= 0 <==> KeyIndex(g0, k) >= 0 {
        if KeyIndex(g0, k) >= 0 {
          assert gs[KeyIndex(g0, k)].key == k;
        }
      }
    }
  }

  /** Each group holds exactly the rows whose key is its key, in row order. */
  lemma {:induction false} PartitionMembers(es: seq<Entry>)
    ensures forall i :: 0 <= i < |Partition(es)| ==> Partition(es)[i].members == IdsWithKey(es, Partition(es)[i].key)
  {
    if es != [] {
      var pre := es[..|es| - 1];
      var e := es[|es| - 1];
      var g0 := Partition(pre);
      PartitionMembers(pre);
      PartitionKeys(pre);
      var gs := Partition(es);
      var i0 := KeyIndex(g0, e.key);
      if i0 < 0 {
        IdsWithKeyNone(pre, e.key);
        assert gs == g0 + [Group(e.key, e.caption, [e.id])];
      } else {
        assert gs == g0[i0 := g0[i0].(members := g0[i0].members + [e.id])];
      }
    }
  }

  /** Each group is labelled by the first entry with its key, and groups are ordered by those first entries. */
  ghost predicate FirstOrdered(es: seq<Entry>, gs: seq<Group>) {
    && (forall i :: 0 <= i < |gs| ==>
          FirstIndex(es, gs[i].key) >= 0 && gs[i].caption == es[FirstIndex(es, gs[i].key)].caption)
    && (forall i, j :: 0 <= i < j < |gs| ==> FirstIndex(es, gs[i].key) < FirstIndex(es, gs[j].key))
  }

  /** A group is labelled by the first row with its key, and groups come in the order of their keys' first rows. */
  lemma {:induction false} PartitionFirstOccurrence(es: seq<Entry>)
    ensures forall i :: 0 <= i < |Partition(es)| ==> FirstIndex(es, Partition(es)[i].key) >= 0
    ensures forall i :: 0 <= i < |Partition(es)| ==>
      Partition(es)[i].caption == es[FirstIndex(es, Partition(es)[i].key)].caption
    ensures forall i, j :: 0 <= i < j < |Partition(es)| ==>
      FirstIndex(es, Partition(es)[i].key) < FirstIndex(es, Partition(es)[j].key)
  {
    PartitionFirstOrdered(es);
  }

  lemma {:induction false} PartitionFirstOrdered(es: seq<Entry>)
    ensures FirstOrdered(es, Partition(es))
  {
    if es != [] {
      var pre := es[..|es| - 1];
      var e := es[|es| - 1];
      PartitionFirstOrdered(pre);
      PartitionKeys(pre);
      FirstIndexStable(es);
      AddEntryFirstOrdered(pre, e, es, Partition(pre));
    }
  }

  /** One more entry keeps the groups labelled and ordered by first occurrence. */
  lemma AddEntryFirstOrdered(pre: seq<Entry>, e: Entry, es: seq<Entry>, g0: seq<Group>)
    requires es != [] && pre == es[..|es| - 1] && e == es[|es| - 1]
    requires FirstOrdered(pre, g0)
    requires forall k :: KeyIndex(g0, k) >= 0 <==> FirstIndex(pre, k) >= 0
    requires forall k :: FirstIndex(pre, k) >= 0 ==> FirstIndex(es, k) == FirstIndex(pre, k)
    ensures FirstOrdered(es, AddEntry(g0, e))
  {
    var i0 := KeyIndex(g0, e.key);
    if i0 < 0 {
      assert FirstIndex(pre, e.key) < 0;
      NewKeyFirstOrdered(pre, e, es, g0, AddEntry(g0, e));
    } else {
      KnownKeyFirstOrdered(pre, e, es, g0, i0, AddEntry(g0, e));
    }
  }

  lemma NewKeyFirstOrdered(pre: seq<Entry>, e: Entry, es: seq<Entry>, g0: seq<Group>, gs: seq<Group>)
    requires es != [] && pre == es[..|es| - 1] && e == es[|es| - 1]
    requires FirstOrdered(pre, g0)
    requires FirstIndex(pre, e.key) < 0
    requires forall k :: FirstIndex(pre, k) >= 0 ==> FirstIndex(es, k) == FirstIndex(pre, k)
    requires gs == g0 + [Group(e.key, e.caption, [e.id])]
    ensures FirstOrdered(es, gs)
  {
    assert FirstIndex(es, e.key) == |es| - 1;
    forall i | 0 <= i < |g0| ensures gs[i] == g0[i] && FirstIndex(es, gs[i].key) == FirstIndex(pre, g0[i].key) {
      assert FirstIndex(pre, g0[i].key) >= 0;
    }
    assert gs[|g0|] == Group(e.key, e.caption, [e.id]);
    assert es[|es| - 1] == e;
  }

  lemma KnownKeyFirstOrdered(pre: seq<Entry>, e: Entry, es: seq<Entry>, g0: seq<Group>, i0: int, gs: seq<Group>)
    requires es != [] && pre == es[..|es| - 1] && e == es[|es| - 1]
    requires FirstOrdered(pre, g0)
    requires forall k :: FirstIndex(pre, k) >= 0 ==> FirstIndex(es, k) == FirstIndex(pre, k)
    requires 0 <= i0 < |g0|
    requires gs == g0[i0 := g0[i0].(members := g0[i0].members + [e.id])]
    ensures FirstOrdered(es, gs)
  {
    forall i | 0 <= i < |g0|
      ensures gs[i].key == g0[i].key && gs[i].caption == g0[i].caption
      ensures FirstIndex(es, gs[i].key) == FirstIndex(pre, g0[i].key)
    {
      assert FirstIndex(pre, g0[i].key) >= 0;
    }
  }

  /** Every row of the entries lands in exactly one group: the groups' rows are a permutation of the entries' rows. */
  lemma {:induction false} PartitionIsPermutation(es: seq<Entry>)
    ensures multiset(Flatten(Partition(es))) == multiset(Ids(es))
  {
    if es != [] {
      var pre := es[..|es| - 1];
      var e := es[|es| - 1];
      var g0 := Partition(pre);
      PartitionIsPermutation(pre);
      assert Ids(es) == Ids(pre) + [e.id];
      var i0 := KeyIndex(g0, e.key);
      if i0 < 0 {
        assert Partition(es) == g0 + [Group(e.key, e.caption, [e.id])];
        assert (g0 + [Group(e.key, e.caption, [e.id])])[..|g0|] == g0;
      } else {
        FlattenAppendMember(g0, i0, e.id);
      }
    }
  }

  lemma {:induction false} FlattenAppendMember(gs: seq<Group>, i: nat, x: RowId)
    requires i < |gs|
    ensures multiset(Flatten(gs[i := gs[i].(members := gs[i].members + [x])]))
         == multiset(Flatten(gs)) + multiset{x}
  {
    var gs' := gs[i := gs[i].(members := gs[i].members + [x])];
    var n := |gs| - 1;
    if i == n {
      assert gs'[..n] == gs[..n];
    } else {
      FlattenAppendMember(gs[..n], i, x);
      assert gs'[..n] == gs[..n][i := gs[i].(members := gs[i].members + [x])];
    }
  }

  lemma {:induction false} FlattenAppend(a: seq<Group>, b: seq<Group>)
    ensures Flatten(a + b) == Flatten(a) + Flatten(b)
  {
    if b != [] {
      var n := |b| - 1;
      FlattenAppend(a, b[..n]);
      assert (a + b)[..|a + b| - 1] == a + b[..n];
    } else {
      assert a + b == a;
    }
  }

  lemma FlattenCons(gs: seq<Group>)
    requires gs != []
    ensures Flatten(gs) == gs[0].members + Flatten(gs[1..])
  {
    FlattenAppend([gs[0]], gs[1..]);
    assert [gs[0]] + gs[1..] == gs;
    assert Flatten([gs[0]]) == Flatten([gs[0]][..0]) + gs[0].members;
  }

  lemma MemberInFlatten(gs: seq<Group>, i: nat, x: RowId)
    requires i < |gs| && x in gs[i].members
    ensures x in Flatten(gs)
  {
    FlattenAppend(gs[..i + 1], gs[i + 1..]);
    assert gs[..i + 1] + gs[i + 1..] == gs;
    assert gs[..i + 1][..i] == gs[..i];
  }

  lemma MembersInFlatten(gs: seq<Group>, i: nat)
    requires i < |gs|
    ensures forall x :: x in gs[i].members ==> x in Flatten(gs)
  {
    forall x | x in gs[i].members ensures x in Flatten(gs) {
      MemberInFlatten(gs, i, x);
    }
  }

  /** The entries are a subsequence of the rows they were computed from. */
  lemma {:induction false} RowEntriesFromRows(rows: map<RowId, Row>, ids: seq<RowId>, fieldName: string,
                                               fd: Option<FieldDef>, columnIndex: int)
    requires forall id :: id in ids ==> id in rows
    ensures forall x :: x in Ids(RowEntries(rows, ids, fieldName, fd, columnIndex)) <==> x in ids && rows[x].kind != GroupHeader
    ensures Distinct(ids) ==> Distinct(Ids(RowEntries(rows, ids, fieldName, fd, columnIndex)))
  {
    if ids != [] {
      var n := |ids| - 1;
      var pre := RowEntries(rows, ids[..n], fieldName, fd, columnIndex);
      RowEntriesFromRows(rows, ids[..n], fieldName, fd, columnIndex);
      var es := RowEntries(rows, ids, fieldName, fd, columnIndex);
      assert Ids(es) == Ids(pre) + (if rows[ids[n]].kind == GroupHeader then [] else [ids[n]]) by {
        if rows[ids[n]].kind != GroupHeader {
          assert es[..|es| - 1] == pre;
        }
      }
      EntriesStep(rows, ids, Ids(pre), Ids(es));
    }
  }

  /** One more row through the entry loop, over the id lists alone. */
  lemma EntriesStep(rows: map<RowId, Row>, ids: seq<RowId>, p: seq<RowId>, q: seq<RowId>)
    requires ids != [] && forall id :: id in ids ==> id in rows
    requires q == p + (if rows[ids[|ids| - 1]].kind == GroupHeader then [] else [ids[|ids| - 1]])
    requires forall x :: x in p <==> x in ids[..|ids| - 1] && rows[x].kind != GroupHeader
    requires Distinct(ids[..|ids| - 1]) ==> Distinct(p)
    ensures forall x :: x in q <==> x in ids && rows[x].kind != GroupHeader
    ensures Distinct(ids) ==> Distinct(q)
  {
    var n := |ids| - 1;
    assert ids == ids[..n] + [ids[n]];
    if Distinct(ids) {
      DistinctParts(ids[..n], [ids[n]]);
      if rows[ids[n]].kind != GroupHeader {
        DistinctAppend(p, [ids[n]]);
      }
    }
  }

  /** Groups built from distinct rows hold distinct rows, each one of the non-header rows it was built from. */
  lemma GroupsOfDistinctRows(rows: map<RowId, Row>, ids: seq<RowId>, fieldName: string,
                             fd: Option<FieldDef>, columnIndex: int)
    requires forall id :: id in ids ==> id in rows
    requires Distinct(ids)
    ensures var gs := Partition(RowEntries(rows, ids, fieldName, fd, columnIndex));
      Distinct(Flatten(gs)) && forall x :: x in Flatten(gs) <==> x in ids && rows[x].kind != GroupHeader
  {
    var es := RowEntries(rows, ids, fieldName, fd, columnIndex);
    RowEntriesFromRows(rows, ids, fieldName, fd, columnIndex);
    PartitionIsPermutation(es);
    DistinctPermutation(Flatten(Partition(es)), Ids(es));
    forall x ensures x in Flatten(Partition(es)) <==> x in Ids(es) {
      assert x in Flatten(Partition(es)) <==> x in multiset(Flatten(Partition(es)));
      assert x in Ids(es) <==> x in multiset(Ids(es));
    }
  }
}
