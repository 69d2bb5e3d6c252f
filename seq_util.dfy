/**
 * Sequence operations the DOM rebuild is stated with: reversal, removal of a
 * set of nodes, selection of a set of nodes, and `insertBefore` on a child list.
 */
module SeqUtil {
  import opened JsValues

  predicate Distinct<T(==)>(s: seq<T>) {
    forall i, j :: 0 <= i < j < |s| ==> s[i] != s[j]
  }

  function Rev<T>(s: seq<T>): (r: seq<T>)
    ensures |r| == |s|
    ensures forall i :: 0 <= i < |s| ==> r[i] == s[|s| - 1 - i]
  {
    if s == [] then [] else Rev(s[1..]) + [s[0]]
  }

  /** Index of the first occurrence of `x`. */
  function IndexOf(s: seq<nat>, x: nat): (i: nat)
    requires x in s
    ensures i < |s| && s[i] == x
    ensures forall j :: 0 <= j < i ==> s[j] != x
  {
    if s[0] == x then 0 else 1 + IndexOf(s[1..], x)
  }

  /** The elements of `s` that lie in `keep`, in their order in `s`. */
  function Only(s: seq<nat>, keep: set<nat>): (r: seq<nat>)
    ensures forall x :: x in r <==> x in s && x in keep
    ensures |r| <= |s|
  {
    if s == [] then []
    else (if s[0] in keep then [s[0]] else []) + Only(s[1..], keep)
  }

  /** The elements of `s` that do not lie in `drop`, in their order in `s`. */
  function Drop(s: seq<nat>, drop: set<nat>): (r: seq<nat>)
    ensures forall x :: x in r <==> x in s && x !in drop
    ensures |r| <= |s|
  {
    if s == [] then []
    else (if s[0] in drop then [] else [s[0]]) + Drop(s[1..], drop)
  }

  /**
   * `parent.insertBefore(x, anchor)` for a node `x` that is not a child yet:
   * `x` goes just before `anchor`, or at the end when there is no anchor.
   */
  function InsertBefore(s: seq<nat>, x: nat, anchor: Option<nat>): seq<nat> {
    if anchor.Some? && anchor.value in s then
      var i := IndexOf(s, anchor.value);
      s[..i] + [x] + s[i..]
    else s + [x]
  }

  // ---------------------------------------------------------------------------

  lemma {:induction false} MultisetRev<T>(s: seq<T>)
    ensures multiset(Rev(s)) == multiset(s)
  {
    if s != [] {
      MultisetRev(s[1..]);
      assert s == [s[0]] + s[1..];
    }
  }

  lemma DistinctRev<T>(s: seq<T>)
    requires Distinct(s)
    ensures Distinct(Rev(s))
  {
  }

  lemma RevRev<T>(s: seq<T>)
    ensures Rev(Rev(s)) == s
  {
  }

  lemma {:induction false} DropAppend(a: seq<nat>, b: seq<nat>, drop: set<nat>)
    ensures Drop(a + b, drop) == Drop(a, drop) + Drop(b, drop)
  {
    if a != [] {
      var h := if a[0] in drop then [] else [a[0]];
      assert Drop(a + b, drop) == h + Drop(a[1..] + b, drop) by {
        assert (a + b)[1..] == a[1..] + b;
        assert (a + b)[0] == a[0];
      }
      DropAppend(a[1..], b, drop);
      assert Drop(a, drop) == h + Drop(a[1..], drop);
    } else {
      assert a + b == b;
    }
  }

  /** Dropping from one element more of a prefix. */
  lemma DropSnoc(s: seq<nat>, i: nat, drop: set<nat>)
    requires i < |s|
    ensures Drop(s[..i + 1], drop) == Drop(s[..i], drop) + (if s[i] in drop then [] else [s[i]])
  {
    assert s[..i + 1] == s[..i] + [s[i]];
    DropAppend(s[..i], [s[i]], drop);
    assert [s[i]][1..] == [];
  }

  lemma {:induction false} OnlyAppend(a: seq<nat>, b: seq<nat>, keep: set<nat>)
    ensures Only(a + b, keep) == Only(a, keep) + Only(b, keep)
  {
    if a != [] {
      var h := if a[0] in keep then [a[0]] else [];
      assert Only(a + b, keep) == h + Only(a[1..] + b, keep) by {
        assert (a + b)[1..] == a[1..] + b;
        assert (a + b)[0] == a[0];
      }
      OnlyAppend(a[1..], b, keep);
      assert Only(a, keep) == h + Only(a[1..], keep);
    } else {
      assert a + b == b;
    }
  }

  lemma {:induction false} DropDrop(s: seq<nat>, a: set<nat>, b: set<nat>)
    ensures Drop(Drop(s, a), b) == Drop(s, a + b)
  {
    if s != [] {
      DropDrop(s[1..], a, b);
      DropAppend(if s[0] in a then [] else [s[0]], Drop(s[1..], a), b);
    }
  }

  /** Only the members of `s` matter for what is dropped. */
  lemma {:induction false} DropSameOnS(s: seq<nat>, a: set<nat>, b: set<nat>)
    requires forall x :: x in s ==> (x in a <==> x in b)
    ensures Drop(s, a) == Drop(s, b)
  {
    if s != [] {
      DropSameOnS(s[1..], a, b);
    }
  }

  lemma {:induction false} OnlySameOnS(s: seq<nat>, a: set<nat>, b: set<nat>)
    requires forall x :: x in s ==> (x in a <==> x in b)
    ensures Only(s, a) == Only(s, b)
  {
    if s != [] {
      OnlySameOnS(s[1..], a, b);
    }
  }

  lemma DropNothing(s: seq<nat>, drop: set<nat>)
    requires forall x :: x in s ==> x !in drop
    ensures Drop(s, drop) == s
  {
    DropSameOnS(s, drop, {});
    DropEmpty(s);
  }

  lemma {:induction false} DropEmpty(s: seq<nat>)
    ensures Drop(s, {}) == s
  {
    if s != [] {
      DropEmpty(s[1..]);
    }
  }

  lemma {:induction false} DistinctDrop(s: seq<nat>, drop: set<nat>)
    requires Distinct(s)
    ensures Distinct(Drop(s, drop))
  {
    if s != [] {
      DistinctDrop(s[1..], drop);
      var r := Drop(s[1..], drop);
      assert s[0] !in r;
    }
  }

  lemma {:induction false} DistinctOnly(s: seq<nat>, keep: set<nat>)
    requires Distinct(s)
    ensures Distinct(Only(s, keep))
  {
    if s != [] {
      DistinctOnly(s[1..], keep);
      var r := Only(s[1..], keep);
      assert s[0] !in r;
    }
  }

  lemma DistinctAppend<T>(a: seq<T>, b: seq<T>)
    requires Distinct(a) && Distinct(b)
    requires forall x :: x in a ==> x !in b
    ensures Distinct(a + b)
  {
    forall i, j | 0 <= i < j < |a + b|
      ensures (a + b)[i] != (a + b)[j]
    {
      if j >= |a| && i < |a| {
        assert (a + b)[i] in a && (a + b)[j] in b;
      }
    }
  }

  lemma DistinctParts<T>(a: seq<T>, b: seq<T>)
    requires Distinct(a + b)
    ensures Distinct(a) && Distinct(b)
    ensures forall x :: x in a ==> x !in b
  {
    forall i, j | 0 <= i < j < |a|
      ensures a[i] != a[j]
    {
      assert (a + b)[i] == a[i] && (a + b)[j] == a[j];
    }
    forall i, j | 0 <= i < j < |b|
      ensures b[i] != b[j]
    {
      assert (a + b)[|a| + i] == b[i] && (a + b)[|a| + j] == b[j];
    }
    forall i, j | 0 <= i < |a| && 0 <= j < |b|
      ensures a[i] != b[j]
    {
      assert (a + b)[i] == a[i] && (a + b)[|a| + j] == b[j];
    }
  }

  lemma IndexOfAfterPrefix(a: seq<nat>, b: seq<nat>)
    requires b != [] && b[0] !in a
    ensures IndexOf(a + b, b[0]) == |a|
  {
    var s := a + b;
    assert s[|a|] == b[0];
    assert forall k :: 0 <= k < |a| ==> s[k] == a[k];
  }

  /** Inserting before the first node of `b` puts the new node between `a` and `b`. */
  lemma InsertBeforeBetween(a: seq<nat>, b: seq<nat>, x: nat)
    requires b != [] && b[0] !in a
    ensures InsertBefore(a + b, x, Some(b[0])) == a + [x] + b
  {
    IndexOfAfterPrefix(a, b);
    var s := a + b;
    assert s[..|a|] == a && s[|a|..] == b;
  }

  lemma InsertBeforeEnd(a: seq<nat>, x: nat)
    ensures InsertBefore(a, x, None) == a + [x]
  {
  }

  // ---------------------------------------------------------------------------
  // Inserting a run of nodes before an anchor

  /** Where `insertBefore(_, anchor)` puts a node: at the anchor when it is a child, else at the end. */
  function AnchorPos(s: seq<nat>, anchor: Option<nat>): (p: nat)
    ensures p <= |s|
    ensures anchor.Some? && anchor.value in s ==> p < |s| && s[p] == anchor.value && anchor.value !in s[..p]
    ensures !(anchor.Some? && anchor.value in s) ==> p == |s|
  {
    if anchor.Some? && anchor.value in s then IndexOf(s, anchor.value) else |s|
  }

  /** The child list after inserting `xs`, one by one and in order, before `anchor`. */
  function Splice(s: seq<nat>, xs: seq<nat>, anchor: Option<nat>): seq<nat> {
    var p := AnchorPos(s, anchor);
    s[..p] + xs + s[p..]
  }

  lemma IndexOfUnique(s: seq<nat>, x: nat, i: nat)
    requires i < |s| && s[i] == x && x !in s[..i]
    ensures IndexOf(s, x) == i
  {
    assert forall k :: 0 <= k < i ==> s[k] == s[..i][k];
  }

  lemma InsertBeforeIsSplice(s: seq<nat>, x: nat, anchor: Option<nat>)
    ensures InsertBefore(s, x, anchor) == Splice(s, [x], anchor)
  {
    assert s[..|s|] == s;
  }

  /** Inserting `a` and then `b` before the same anchor inserts `a + b`, provided the anchor is not among `a`. */
  lemma SpliceTwice(s: seq<nat>, a: seq<nat>, b: seq<nat>, anchor: Option<nat>)
    requires anchor.Some? ==> anchor.value !in a
    ensures Splice(Splice(s, a, anchor), b, anchor) == Splice(s, a + b, anchor)
  {
    var p := AnchorPos(s, anchor);
    var t := Splice(s, a, anchor);
    var q := p + |a|;
    assert t[..q] == s[..p] + a && t[q..] == s[p..];
    assert AnchorPos(t, anchor) == q by {
      if anchor.Some? && anchor.value in s {
        IndexOfUnique(t, anchor.value, q);
      } else {
        assert anchor.Some? ==> anchor.value !in t;
      }
    }
    assert Splice(t, b, anchor) == s[..p] + a + b + s[p..];
  }

  /** Inserting `ys` before the first node of an inserted run `xs` puts `ys` just in front of it. */
  lemma SpliceAtHead(s: seq<nat>, xs: seq<nat>, ys: seq<nat>, anchor: Option<nat>)
    requires xs != [] && xs[0] !in s
    ensures Splice(Splice(s, xs, anchor), ys, Some(xs[0])) == Splice(s, ys + xs, anchor)
  {
    var p := AnchorPos(s, anchor);
    var t := s[..p] + xs + s[p..];
    assert t[p] == xs[0] && t[..p] == s[..p] && t[p..] == xs + s[p..];
    assert xs[0] !in s[..p];
    IndexOfUnique(t, xs[0], p);
  }

  lemma SpliceMultiset(s: seq<nat>, xs: seq<nat>, anchor: Option<nat>)
    ensures multiset(Splice(s, xs, anchor)) == multiset(s) + multiset(xs)
  {
    var p := AnchorPos(s, anchor);
    assert s == s[..p] + s[p..];
  }

  lemma DistinctSplice(s: seq<nat>, xs: seq<nat>, anchor: Option<nat>)
    requires Distinct(s) && Distinct(xs)
    requires forall x :: x in xs ==> x !in s
    ensures Distinct(Splice(s, xs, anchor))
  {
    var p := AnchorPos(s, anchor);
    assert s == s[..p] + s[p..];
    DistinctParts(s[..p], s[p..]);
    DistinctAppend(s[..p], xs);
    DistinctAppend(s[..p] + xs, s[p..]);
  }

  // ---------------------------------------------------------------------------
  // Distinctness and multisets

  lemma {:induction false} DistinctCountOne(s: seq<nat>)
    requires Distinct(s)
    ensures forall x :: multiset(s)[x] <= 1
  {
    if s != [] {
      var t := s[1..];
      assert s == [s[0]] + t;
      DistinctParts([s[0]], t);
      DistinctCountOne(t);
      assert multiset(t)[s[0]] == 0;
    }
  }

  lemma {:induction false} CountOneDistinct(s: seq<nat>)
    requires forall x :: multiset(s)[x] <= 1
    ensures Distinct(s)
  {
    if s != [] {
      var t := s[1..];
      assert s == [s[0]] + t;
      assert forall x :: multiset(t)[x] <= multiset(s)[x];
      CountOneDistinct(t);
      assert multiset(t)[s[0]] == 0;
      forall i, j | 0 <= i < j < |s|
        ensures s[i] != s[j]
      {
        assert s[j] == t[j - 1] && s[j] in t;
        if i > 0 {
          assert s[i] == t[i - 1];
        }
      }
    }
  }

  /** A permutation of a sequence without repetitions has none either. */
  lemma DistinctPermutation(a: seq<nat>, b: seq<nat>)
    requires multiset(a) == multiset(b) && Distinct(b)
    ensures Distinct(a)
  {
    DistinctCountOne(b);
    CountOneDistinct(a);
  }

  lemma RevHas(s: seq<nat>)
    ensures forall x :: x in Rev(s) <==> x in s
  {
    MultisetRev(s);
    assert forall x :: x in Rev(s) <==> x in multiset(Rev(s));
  }

  /** Dropping the members of one set is keeping those of another when the two split the sequence's elements. */
  lemma {:induction false} DropIsOnly(s: seq<nat>, drop: set<nat>, keep: set<nat>)
    requires forall x :: x in s ==> (x in drop <==> x !in keep)
    ensures Drop(s, drop) == Only(s, keep)
  {
    if s != [] {
      DropIsOnly(s[1..], drop, keep);
    }
  }

  lemma SpliceHas(s: seq<nat>, xs: seq<nat>, anchor: Option<nat>)
    ensures forall x :: x in Splice(s, xs, anchor) <==> x in s || x in xs
  {
    var p := AnchorPos(s, anchor);
    assert s == s[..p] + s[p..];
  }

  lemma SpliceNothing(s: seq<nat>, anchor: Option<nat>)
    ensures Splice(s, [], anchor) == s
  {
    var p := AnchorPos(s, anchor);
    assert s[..p] + s[p..] == s;
  }

  lemma {:induction false} OnlyDropDisjoint(s: seq<nat>, drop: set<nat>, keep: set<nat>)
    requires forall x :: x in keep ==> x !in drop
    ensures Only(Drop(s, drop), keep) == Only(s, keep)
  {
    if s != [] {
      OnlyDropDisjoint(s[1..], drop, keep);
      var d1 := Drop(s[1..], drop);
      if s[0] in drop {
        assert Drop(s, drop) == d1;
        assert Only(s, keep) == Only(s[1..], keep);
      } else {
        var d := [s[0]] + d1;
        assert Drop(s, drop) == d;
        assert d[0] == s[0] && d[1..] == d1;
        assert Only(d, keep) == (if s[0] in keep then [s[0]] else []) + Only(d1, keep);
      }
    }
  }

  /** Keeping only elements none of which `s` has leaves nothing. */
  lemma OnlyNone(s: seq<nat>, keep: set<nat>)
    requires forall x :: x in s ==> x !in keep
    ensures Only(s, keep) == []
  {
  }

  /** Inserting before the first element puts the run in front. */
  lemma SpliceFront(s: seq<nat>, xs: seq<nat>)
    ensures Splice(s, xs, if s == [] then None else Some(s[0])) == xs + s
  {
    if s != [] {
      IndexOfUnique(s, s[0], 0);
    }
  }
}
