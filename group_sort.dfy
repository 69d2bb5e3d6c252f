/**
 * The order of the groups: `Array.from(groups.entries()).sort(comparator)`
 * in `_x2mApplyGroupByToRows`. A group with a null or undefined key sorts
 * after every other group in both directions; many2one groups compare by
 * label with `localeCompare`; other groups compare numerically when both
 * keys parse as numbers, else by their keys' text.
 */
module GroupSort {
  import opened JsValues
  import opened SeqUtil
  import opened GroupPartition

  /** `a.localeCompare(b)`: negative, zero or positive. */
  type Collation = (string, string) -> int

  /** The comparator's inputs besides the two groups: the field type, the direction and the collation. */
  datatype Order = Order(many2one: bool, descending: bool, collate: Collation)

  function Sign(x: real): int {
    if x < 0.0 then -1 else if x > 0.0 then 1 else 0
  }

  /** The sort comparator; only its sign matters to the sort, so numeric differences are reduced to their sign. */
  function Compare(a: Group, b: Group, o: Order): int {
    if IsNullish(a.key) then 1
    else if IsNullish(b.key) then -1
    else if o.many2one then
      if o.descending then o.collate(ToStr(b.caption), ToStr(a.caption))
      else o.collate(ToStr(a.caption), ToStr(b.caption))
    else
      match (ParseNumber(a.key), ParseNumber(b.key))
      case (Some(x), Some(y)) => if o.descending then Sign(y - x) else Sign(x - y)
      case _ =>
        if o.descending then o.collate(ToStr(b.key), ToStr(a.key))
        else o.collate(ToStr(a.key), ToStr(b.key))
  }

  /** A comparator over groups. */
  type Comparator = (Group, Group) -> int

  /** The comparator the sort receives, for one field type, direction and collation. */
  function ComparatorOf(o: Order): Comparator {
    (a: Group, b: Group) => Compare(a, b, o)
  }

  /**
   * Stable insertion of `x` into `s` from the right: `x` moves left past every
   * group that compares after it.
   */
  function Insert(s: seq<Group>, x: Group, cmp: Comparator): seq<Group> {
    if s == [] then [x]
    else if cmp(s[|s| - 1], x) > 0 then Insert(s[..|s| - 1], x, cmp) + [s[|s| - 1]]
    else s + [x]
  }

  /** A stable sort (insertion sort); for a consistent comparator every stable sort agrees with it. */
  function SortGroups(gs: seq<Group>, cmp: Comparator): seq<Group> {
    if gs == [] then [] else Insert(SortGroups(gs[..|gs| - 1], cmp), gs[|gs| - 1], cmp)
  }

  ghost predicate Antisymmetric(collate: Collation) {
    forall s, t :: collate(s, t) > 0 ==> collate(t, s) <= 0
  }

  /** `cmp(a, b) > 0` implies `cmp(b, a) <= 0` except for two groups with empty keys. */
  ghost predicate ConsistentExceptEmpty(cmp: Comparator) {
    forall a: Group, b: Group :: !(IsNullish(a.key) && IsNullish(b.key)) && cmp(a, b) > 0 ==> cmp(b, a) <= 0
  }

  /** An empty key compares after everything, and anything compares before an empty key. */
  ghost predicate EmptyKeysAfter(cmp: Comparator) {
    forall a: Group, b: Group :: IsNullish(a.key) ==> cmp(a, b) > 0 && (!IsNullish(b.key) ==> cmp(b, a) < 0)
  }

  /** Null and undefined keys are both "empty": at most one group may have one for the comparator to be consistent. */
  predicate AtMostOneNullish(gs: seq<Group>) {
    forall i, j :: 0 <= i < j < |gs| ==> !(IsNullish(gs[i].key) && IsNullish(gs[j].key))
  }

  ghost predicate Ordered(s: seq<Group>, cmp: Comparator) {
    forall i :: 0 <= i < |s| - 1 ==> cmp(s[i], s[i + 1]) <= 0
  }

  predicate NullsLast(s: seq<Group>) {
    forall i, j :: 0 <= i < j < |s| && IsNullish(s[i].key) ==> IsNullish(s[j].key)
  }

  // ---------------------------------------------------------------------------
  // The comparator

  /** With an antisymmetric collation the comparator is consistent on every pair without two empty keys. */
  lemma CompareConsistent(o: Order)
    requires Antisymmetric(o.collate)
    ensures ConsistentExceptEmpty(ComparatorOf(o))
  {
    forall a: Group, b: Group | !(IsNullish(a.key) && IsNullish(b.key)) && ComparatorOf(o)(a, b) > 0
      ensures ComparatorOf(o)(b, a) <= 0
    {
      CompareAntisymmetric(a, b, o);
    }
  }

  lemma CompareAntisymmetric(a: Group, b: Group, o: Order)
    requires Antisymmetric(o.collate)
    requires !(IsNullish(a.key) && IsNullish(b.key)) && Compare(a, b, o) > 0
    ensures Compare(b, a, o) <= 0
  {
    if !IsNullish(a.key) && !IsNullish(b.key) {
      if o.many2one {
        if o.descending {
          assert o.collate(ToStr(b.caption), ToStr(a.caption)) > 0 ==> o.collate(ToStr(a.caption), ToStr(b.caption)) <= 0;
        } else {
          assert o.collate(ToStr(a.caption), ToStr(b.caption)) > 0 ==> o.collate(ToStr(b.caption), ToStr(a.caption)) <= 0;
        }
      } else if ParseNumber(a.key).None? || ParseNumber(b.key).None? {
        if o.descending {
          assert o.collate(ToStr(b.key), ToStr(a.key)) > 0 ==> o.collate(ToStr(a.key), ToStr(b.key)) <= 0;
        } else {
          assert o.collate(ToStr(a.key), ToStr(b.key)) > 0 ==> o.collate(ToStr(b.key), ToStr(a.key)) <= 0;
        }
      }
    }
  }

  /** In both directions the comparator puts a group with a null or undefined key after the others. */
  lemma CompareEmptyKeysAfter(o: Order)
    ensures EmptyKeysAfter(ComparatorOf(o))
  {
  }

  /** Descending order compares two non-empty keys as ascending order compares them swapped. */
  lemma DescendingSwapsArguments(a: Group, b: Group, o: Order)
    requires !IsNullish(a.key) && !IsNullish(b.key)
    ensures Compare(a, b, o.(descending := true)) == Compare(b, a, o.(descending := false))
  {
  }

  /** Numeric keys sort by value: in ascending order a key that parses to a smaller number comes first. */
  lemma NumericKeysByValue(a: Group, b: Group, o: Order)
    requires !o.many2one && !o.descending
    requires !IsNullish(a.key) && !IsNullish(b.key)
    requires ParseNumber(a.key).Some? && ParseNumber(b.key).Some?
    ensures Compare(a, b, o) < 0 <==> ParseNumber(a.key).value < ParseNumber(b.key).value
  {
  }

  // ---------------------------------------------------------------------------
  // Permutation

  lemma {:induction false} InsertPermutation(s: seq<Group>, x: Group, cmp: Comparator)
    ensures multiset(Insert(s, x, cmp)) == multiset(s) + multiset{x}
  {
    if s != [] {
      var n := |s| - 1;
      assert s == s[..n] + [s[n]];
      if cmp(s[n], x) > 0 {
        InsertPermutation(s[..n], x, cmp);
      }
    }
  }

  lemma {:induction false} InsertFlatten(s: seq<Group>, x: Group, cmp: Comparator)
    ensures multiset(Flatten(Insert(s, x, cmp))) == multiset(Flatten(s)) + multiset(x.members)
  {
    if s != [] {
      var n := |s| - 1;
      if cmp(s[n], x) > 0 {
        InsertFlatten(s[..n], x, cmp);
        var r := Insert(s[..n], x, cmp) + [s[n]];
        assert r[..|r| - 1] == Insert(s[..n], x, cmp);
      } else {
        var r := s + [x];
        assert r[..|r| - 1] == s;
      }
    } else {
      assert [x][..0] == [];
    }
  }

  /** The sorted groups are a permutation of the groups. */
  lemma {:induction false} SortIsPermutation(gs: seq<Group>, cmp: Comparator)
    ensures multiset(SortGroups(gs, cmp)) == multiset(gs)
  {
    if gs != [] {
      var n := |gs| - 1;
      var s := SortGroups(gs[..n], cmp);
      SortIsPermutation(gs[..n], cmp);
      InsertPermutation(s, gs[n], cmp);
      assert SortGroups(gs, cmp) == Insert(s, gs[n], cmp);
      assert gs == gs[..n] + [gs[n]];
      assert multiset(gs) == multiset(gs[..n]) + multiset{gs[n]};
    }
  }

  /** Sorting moves whole groups: the rows of the sorted groups are a permutation of the groups' rows. */
  lemma {:induction false} SortKeepsRows(gs: seq<Group>, cmp: Comparator)
    ensures multiset(Flatten(SortGroups(gs, cmp))) == multiset(Flatten(gs))
  {
    if gs != [] {
      var n := |gs| - 1;
      SortKeepsRows(gs[..n], cmp);
      InsertFlatten(SortGroups(gs[..n], cmp), gs[n], cmp);
    }
  }

  // ---------------------------------------------------------------------------
  // Empty keys last

  lemma {:induction false} InsertNullsLast(s: seq<Group>, x: Group, cmp: Comparator)
    requires EmptyKeysAfter(cmp)
    requires NullsLast(s)
    ensures NullsLast(Insert(s, x, cmp))
  {
    if s != [] {
      var n := |s| - 1;
      if cmp(s[n], x) > 0 {
        InsertNullsLast(s[..n], x, cmp);
        InsertPermutation(s[..n], x, cmp);
        var r := Insert(s[..n], x, cmp);
        if !IsNullish(s[n].key) {
          assert !IsNullish(x.key);
          forall i | 0 <= i < |r|
            ensures !IsNullish(r[i].key)
          {
            assert r[i] in multiset(r);
            if r[i] != x {
              assert r[i] in s[..n];
            }
          }
        }
        var q := r + [s[n]];
        assert forall i :: 0 <= i < |r| ==> q[i] == r[i];
      } else if !IsNullish(x.key) {
        assert !IsNullish(s[n].key);
      }
    }
  }

  /** Whatever the direction, groups with a null or undefined key come after all others. */
  lemma {:induction false} SortNullsLast(gs: seq<Group>, o: Order)
    ensures NullsLast(SortGroups(gs, ComparatorOf(o)))
  {
    if gs != [] {
      CompareEmptyKeysAfter(o);
      SortNullsLast(gs[..|gs| - 1], o);
      InsertNullsLast(SortGroups(gs[..|gs| - 1], ComparatorOf(o)), gs[|gs| - 1], ComparatorOf(o));
    }
  }

  // ---------------------------------------------------------------------------
  // Sortedness

  lemma InsertLast(s: seq<Group>, x: Group, cmp: Comparator)
    ensures |Insert(s, x, cmp)| == |s| + 1
    ensures var r := Insert(s, x, cmp);
      r[|r| - 1] == x || (s != [] && r[|r| - 1] == s[|s| - 1])
  {
    if s != [] && cmp(s[|s| - 1], x) > 0 {
      InsertLast(s[..|s| - 1], x, cmp);
    }
  }

  lemma {:induction false} InsertOrdered(s: seq<Group>, x: Group, cmp: Comparator)
    requires ConsistentExceptEmpty(cmp)
    requires Ordered(s, cmp)
    requires forall y :: y in s ==> !(IsNullish(y.key) && IsNullish(x.key))
    ensures Ordered(Insert(s, x, cmp), cmp)
  {
    if s != [] {
      var n := |s| - 1;
      if cmp(s[n], x) > 0 {
        var r := Insert(s[..n], x, cmp);
        InsertOrdered(s[..n], x, cmp);
        InsertLast(s[..n], x, cmp);
        if r[|r| - 1] == x {
          assert s[n] in s;
        } else {
          assert cmp(s[n - 1], s[n]) <= 0;
        }
        var q := r + [s[n]];
        assert forall i :: 0 <= i < |r| ==> q[i] == r[i];
      } else {
        var q := s + [x];
        assert forall i :: 0 <= i < |s| ==> q[i] == s[i];
      }
    }
  }

  /**
   * With an antisymmetric collation and at most one empty key, each group
   * compares at or before the next one: the result is sorted.
   */
  lemma {:induction false} SortOrdered(gs: seq<Group>, o: Order)
    requires Antisymmetric(o.collate)
    requires AtMostOneNullish(gs)
    ensures Ordered(SortGroups(gs, ComparatorOf(o)), ComparatorOf(o))
  {
    if gs != [] {
      var n := |gs| - 1;
      var cmp := ComparatorOf(o);
      CompareConsistent(o);
      SortOrdered(gs[..n], o);
      SortIsPermutation(gs[..n], cmp);
      var s := SortGroups(gs[..n], cmp);
      forall y | y in s
        ensures !(IsNullish(y.key) && IsNullish(gs[n].key))
      {
        assert y in multiset(s);
        var i :| 0 <= i < n && gs[..n][i] == y;
      }
      InsertOrdered(s, gs[n], cmp);
    }
  }
}
