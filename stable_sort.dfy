/** `Array.prototype.sort` with a comparator, as the charts use it: the
    comparator orders elements by a numeric rank (`d3.descending(a.count,
    b.count)` ranks a bucket by its negated count, `a.year - b.year` by its
    year), and the sort is stable, so elements of equal rank keep their
    relative order. */
module StableSort {
  import opened Filtering

  ghost predicate SortedBy<T>(s: seq<T>, rank: T -> real)
  {
    forall i, j :: 0 <= i < j < |s| ==> rank(s[i]) <= rank(s[j])
  }

  /** The elements of `s` whose rank is `v`, in their order in `s`. */
  function Ties<T>(s: seq<T>, rank: T -> real, v: real): seq<T>
  {
    Filter(s, x => rank(x) == v)
  }

  /** Places `x` after every element of `s` whose rank is not above its own. */
  function Insert<T>(s: seq<T>, x: T, rank: T -> real): (r: seq<T>)
    ensures |r| == |s| + 1
  {
    if s == [] || rank(s[|s| - 1]) <= rank(x) then s + [x]
    else Insert(s[..|s| - 1], x, rank) + [s[|s| - 1]]
  }

  /** Stable sort by rank: each element in turn is inserted into the sorted
      prefix before it. */
  function SortBy<T>(s: seq<T>, rank: T -> real): (r: seq<T>)
    ensures |r| == |s|
  {
    if s == [] then [] else Insert(SortBy(s[..|s| - 1], rank), s[|s| - 1], rank)
  }

  lemma {:induction false} InsertMultiset<T>(s: seq<T>, x: T, rank: T -> real)
    ensures multiset(Insert(s, x, rank)) == multiset(s) + multiset{x}
  {
    if !(s == [] || rank(s[|s| - 1]) <= rank(x)) {
      var init, last := s[..|s| - 1], s[|s| - 1];
      InsertMultiset(init, x, rank);
      assert s == init + [last];
    }
  }

  lemma {:induction false} InsertSorted<T>(s: seq<T>, x: T, rank: T -> real)
    requires SortedBy(s, rank)
    ensures SortedBy(Insert(s, x, rank), rank)
  {
    if s == [] || rank(s[|s| - 1]) <= rank(x) {
      var out := s + [x];
      assert Insert(s, x, rank) == out;
      forall i, j | 0 <= i < j < |out| ensures rank(out[i]) <= rank(out[j]) {
        assert out[i] == s[i];
        if j < |s| {
          assert out[j] == s[j];
        } else {
          assert rank(s[i]) <= rank(s[|s| - 1]);
        }
      }
    } else {
      var init, last := s[..|s| - 1], s[|s| - 1];
      assert SortedBy(init, rank) by {
        forall i, j | 0 <= i < j < |init| ensures rank(init[i]) <= rank(init[j]) {
          assert init[i] == s[i] && init[j] == s[j];
        }
      }
      InsertSorted(init, x, rank);
      InsertMultiset(init, x, rank);
      var r := Insert(init, x, rank);
      forall i | 0 <= i < |r| ensures rank(r[i]) <= rank(last) {
        assert r[i] in multiset(init) + multiset{x};
        if r[i] != x {
          assert r[i] in init;
          var p :| 0 <= p < |init| && init[p] == r[i];
          assert init[p] == s[p];
        }
      }
      var out := r + [last];
      assert Insert(s, x, rank) == out;
      forall i, j | 0 <= i < j < |out| ensures rank(out[i]) <= rank(out[j]) {
        assert out[i] == r[i];
        if j < |r| {
          assert out[j] == r[j];
        }
      }
    }
  }

  lemma {:induction false} InsertTies<T>(s: seq<T>, x: T, rank: T -> real, v: real)
    ensures Ties(Insert(s, x, rank), rank, v) == Ties(s, rank, v) + (if rank(x) == v then [x] else [])
  {
    if s == [] || rank(s[|s| - 1]) <= rank(x) {
      var r := s + [x];
      assert r[..|r| - 1] == s;
    } else {
      var init, last := s[..|s| - 1], s[|s| - 1];
      InsertTies(init, x, rank, v);
      var r := Insert(init, x, rank) + [last];
      assert r[..|r| - 1] == Insert(init, x, rank);
    }
  }

  /** The sort puts the ranks in non-decreasing order. */
  lemma {:induction false} SortBySorted<T>(s: seq<T>, rank: T -> real)
    ensures SortedBy(SortBy(s, rank), rank)
  {
    if s != [] {
      SortBySorted(s[..|s| - 1], rank);
      InsertSorted(SortBy(s[..|s| - 1], rank), s[|s| - 1], rank);
    }
  }

  /** The sort only reorders: the result is a permutation of the input. */
  lemma {:induction false} SortByPermutation<T>(s: seq<T>, rank: T -> real)
    ensures multiset(SortBy(s, rank)) == multiset(s)
  {
    if s != [] {
      var init, last := s[..|s| - 1], s[|s| - 1];
      SortByPermutation(init, rank);
      InsertMultiset(SortBy(init, rank), last, rank);
      assert s == init + [last];
    }
  }

  /** The sort is stable: for every rank, the elements of that rank appear
      in the same order as in the input. */
  lemma {:induction false} SortByStable<T>(s: seq<T>, rank: T -> real, v: real)
    ensures Ties(SortBy(s, rank), rank, v) == Ties(s, rank, v)
  {
    if s != [] {
      var init, last := s[..|s| - 1], s[|s| - 1];
      SortByStable(init, rank, v);
      InsertTies(SortBy(init, rank), last, rank, v);
    }
  }

  /** Elements of equal rank come out of the sort in their input order:
      whenever two of them stand at `i < j` in the result, they stood at
      some `p < q` in the input. */
  lemma SortByKeepsTieOrder<T>(s: seq<T>, rank: T -> real, i: nat, j: nat)
    requires i < j < |s|
    requires rank(SortBy(s, rank)[i]) == rank(SortBy(s, rank)[j])
    ensures exists p, q :: 0 <= p < q < |s| && s[p] == SortBy(s, rank)[i] && s[q] == SortBy(s, rank)[j]
  {
    var r := SortBy(s, rank);
    var v := rank(r[i]);
    var keep := x => rank(x) == v;
    SortByStable(s, rank, v);
    assert Filter(r, keep) == Filter(s, keep);
    FilterPreservesOrder(r, keep, i, j);
    var a', b' :| 0 <= a' < b' < |Filter(r, keep)| && Filter(r, keep)[a'] == r[i] && Filter(r, keep)[b'] == r[j];
    FilterReflectsOrder(s, keep, a', b');
  }

  lemma TiesMember<T>(s: seq<T>, rank: T -> real, x: T)
    requires x in s
    ensures x in Ties(s, rank, rank(x))
  {
    FilterKeeps(s, y => rank(y) == rank(x), x);
  }

  lemma TiesLast<T>(s: seq<T>, rank: T -> real, v: real)
    requires s != []
    ensures Ties(s, rank, v) == Ties(s[..|s| - 1], rank, v) + (if rank(s[|s| - 1]) == v then [s[|s| - 1]] else [])
  {
  }

  /** Same elements of each rank, both sorted: the last elements, each of
      the highest rank present, have the same rank... */
  lemma SameTiesLastRank<T>(r1: seq<T>, r2: seq<T>, rank: T -> real)
    requires r1 != [] && r2 != []
    requires SortedBy(r1, rank) && SortedBy(r2, rank)
    requires forall v :: Ties(r1, rank, v) == Ties(r2, rank, v)
    ensures rank(r1[|r1| - 1]) == rank(r2[|r2| - 1])
  {
    var a, b := r1[|r1| - 1], r2[|r2| - 1];
    TiesMember(r2, rank, b);
    assert b in Ties(r1, rank, rank(b));
    TiesMember(r1, rank, a);
    assert a in Ties(r2, rank, rank(a));
  }

  /** ... and are the same element, the last of that rank. */
  lemma SameTiesSameLast<T>(r1: seq<T>, r2: seq<T>, rank: T -> real)
    requires r1 != [] && r2 != []
    requires SortedBy(r1, rank) && SortedBy(r2, rank)
    requires forall v :: Ties(r1, rank, v) == Ties(r2, rank, v)
    ensures r1[|r1| - 1] == r2[|r2| - 1]
  {
    SameTiesLastRank(r1, r2, rank);
    var v := rank(r1[|r1| - 1]);
    TiesLast(r1, rank, v);
    TiesLast(r2, rank, v);
    var t := Ties(r1, rank, v);
    assert t[|t| - 1] == r1[|r1| - 1];
    assert t == Ties(r2, rank, v);
  }

  /** Dropping the same last element keeps the ranks' elements equal. */
  lemma SameTiesInit<T>(r1: seq<T>, r2: seq<T>, rank: T -> real, init1: seq<T>, init2: seq<T>)
    requires r1 != [] && r2 != []
    requires init1 == r1[..|r1| - 1] && init2 == r2[..|r2| - 1]
    requires forall v :: Ties(r1, rank, v) == Ties(r2, rank, v)
    requires r1[|r1| - 1] == r2[|r2| - 1]
    requires SortedBy(r1, rank) && SortedBy(r2, rank)
    ensures forall w :: Ties(init1, rank, w) == Ties(init2, rank, w)
    ensures SortedBy(init1, rank) && SortedBy(init2, rank)
  {
    forall w ensures Ties(init1, rank, w) == Ties(init2, rank, w) {
      TiesLast(r1, rank, w);
      TiesLast(r2, rank, w);
      var t1, t2 := Ties(init1, rank, w), Ties(init2, rank, w);
      var tail := if rank(r1[|r1| - 1]) == w then [r1[|r1| - 1]] else [];
      assert t1 + tail == t2 + tail;
      assert (t1 + tail)[..|t1|] == t1;
      assert (t2 + tail)[..|t2|] == t2;
    }
  }

  lemma SameTiesBothEmpty<T>(r1: seq<T>, r2: seq<T>, rank: T -> real)
    requires r1 == [] || r2 == []
    requires forall v :: Ties(r1, rank, v) == Ties(r2, rank, v)
    ensures r1 == r2
  {
    if r1 != [] {
      TiesMember(r1, rank, r1[0]);
    } else if r2 != [] {
      TiesMember(r2, rank, r2[0]);
    }
  }

  /** Two sequences sorted by rank, with the same elements of each rank
      in the same order, are equal. */
  lemma {:induction false} SameTiesSortedEqual<T>(r1: seq<T>, r2: seq<T>, rank: T -> real)
    requires SortedBy(r1, rank) && SortedBy(r2, rank)
    requires forall v :: Ties(r1, rank, v) == Ties(r2, rank, v)
    ensures r1 == r2
    decreases |r1|
  {
    if r1 == [] || r2 == [] {
      SameTiesBothEmpty(r1, r2, rank);
    } else {
      var init1, init2 := r1[..|r1| - 1], r2[..|r2| - 1];
      SameTiesSameLast(r1, r2, rank);
      SameTiesInit(r1, r2, rank, init1, init2);
      SameTiesSortedEqual(init1, init2, rank);
      assert r1 == init1 + [r1[|r1| - 1]] && r2 == init2 + [r2[|r2| - 1]];
    }
  }

  /** A sorted rearrangement that keeps every rank's elements in their input
      order is SortBy's result: every stable sort by the same rank agrees
      with it. */
  lemma SortedStableIsUnique<T>(s: seq<T>, r: seq<T>, rank: T -> real)
    requires SortedBy(r, rank)
    requires forall v :: Ties(r, rank, v) == Ties(s, rank, v)
    ensures r == SortBy(s, rank)
  {
    SortBySorted(s, rank);
    forall v ensures Ties(r, rank, v) == Ties(SortBy(s, rank), rank, v) {
      SortByStable(s, rank, v);
    }
    SameTiesSortedEqual(r, SortBy(s, rank), rank);
  }

  /** `Insert` puts `x` right after the last element of rank at most its
      own: every element from position `j` on ranks above `x`, and the one
      before `j` (if any) does not. */
  lemma {:induction false} InsertAt<T>(s: seq<T>, j: nat, x: T, rank: T -> real)
    requires j <= |s| && (j == 0 || rank(s[j - 1]) <= rank(x))
    requires forall k :: j <= k < |s| ==> rank(s[k]) > rank(x)
    ensures Insert(s, x, rank) == s[..j] + [x] + s[j..]
    decreases |s|
  {
    if j == |s| {
      assert s[..j] == s && s[j..] == [];
    } else {
      var init := s[..|s| - 1];
      assert rank(s[|s| - 1]) > rank(x);
      InsertAt(init, j, x, rank);
      assert init[..j] == s[..j];
      assert init[j..] + [s[|s| - 1]] == s[j..];
    }
  }

  /** The inner loop of an insertion pass: moves the elements of the sorted
      prefix `a[..i]` that rank above `x` one place right, and returns the
      gap `j` where `x` belongs. */
  method ShiftLarger<T>(a: array<T>, i: nat, x: T, rank: T -> real, ghost sorted: seq<T>)
      returns (j: nat)
    requires i < a.Length && a[..i] == sorted
    modifies a
    ensures j <= i
    ensures forall k :: 0 <= k < j ==> a[k] == sorted[k]
    ensures forall k :: j < k <= i ==> a[k] == sorted[k - 1]
    ensures forall k :: i < k < a.Length ==> a[k] == old(a[k])
    ensures Insert(sorted, x, rank) == sorted[..j] + [x] + sorted[j..]
  {
    j := i;
    while j > 0 && rank(a[j - 1]) > rank(x)
      invariant 0 <= j <= i
      invariant forall k :: 0 <= k < j ==> a[k] == sorted[k]
      invariant forall k :: j < k <= i ==> a[k] == sorted[k - 1]
      invariant forall k :: i < k < a.Length ==> a[k] == old(a[k])
      invariant forall k :: j <= k < i ==> rank(sorted[k]) > rank(x)
    {
      a[j] := a[j - 1];
      j := j - 1;
    }
    InsertAt(sorted, j, x, rank);
  }

  /** One pass of insertion sort: shifts the elements of the sorted prefix
      `a[..i]` that rank above `a[i]` one place right and drops `a[i]` into
      the gap. */
  method InsertInPlace<T>(a: array<T>, i: nat, rank: T -> real)
    requires i < a.Length
    modifies a
    ensures a[..i + 1] == Insert(old(a[..i]), old(a[i]), rank)
    ensures forall k :: i < k < a.Length ==> a[k] == old(a[k])
  {
    ghost var sorted := a[..i];
    var x := a[i];
    var j := ShiftLarger(a, i, x, rank, sorted);
    a[j] := x;
    Gap(a[..i + 1], sorted, j, x);
  }

  /** A sequence that holds `s` with `x` dropped in at position `j`. */
  lemma Gap<T>(r: seq<T>, s: seq<T>, j: nat, x: T)
    requires j <= |s| && |r| == |s| + 1 && r[j] == x
    requires forall k :: 0 <= k < j ==> r[k] == s[k]
    requires forall k :: j < k < |r| ==> r[k] == s[k - 1]
    ensures r == s[..j] + [x] + s[j..]
  {
    var want := s[..j] + [x] + s[j..];
    forall k | 0 <= k < |r| ensures r[k] == want[k] {
      if k < j {
        assert want[k] == s[k];
      } else if j < k {
        assert want[k] == s[k - 1];
      }
    }
  }

  /** In-place insertion sort; a stable sort, so its result is the one every
      stable sort produces (see SortedStableIsUnique). */
  method SortInPlace<T>(a: array<T>, rank: T -> real)
    modifies a
    ensures a[..] == SortBy(old(a[..]), rank)
  {
    ghost var s := a[..];
    for i := 0 to a.Length
      invariant a[..i] == SortBy(s[..i], rank)
      invariant forall k :: i <= k < a.Length ==> a[k] == s[k]
    {
      InsertInPlace(a, i, rank);
      assert s[..i + 1][..i] == s[..i];
    }
    assert s[..a.Length] == s;
  }
}
