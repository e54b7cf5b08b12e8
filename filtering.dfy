/** `Array.prototype.filter`: keep, in order, the elements that pass a test. */
module Filtering {

  /** The kept elements, read left to right (the last element is decided last). */
  function Filter<T>(s: seq<T>, keep: T -> bool): (r: seq<T>)
    ensures |r| <= |s|
    ensures forall x :: x in r ==> x in s && keep(x)
  {
    if s == [] then []
    else Filter(s[..|s| - 1], keep) + (if keep(s[|s| - 1]) then [s[|s| - 1]] else [])
  }

  /** The positions of `s` whose element passes the test, in increasing order. */
  ghost function KeptPositions<T>(s: seq<T>, keep: T -> bool): seq<nat>
  {
    if s == [] then []
    else KeptPositions(s[..|s| - 1], keep) + (if keep(s[|s| - 1]) then [|s| - 1] else [])
  }

  /** The kept positions are valid and strictly increasing. */
  lemma {:induction false} KeptPositionsIncrease<T>(s: seq<T>, keep: T -> bool)
    ensures forall i :: 0 <= i < |KeptPositions(s, keep)| ==> KeptPositions(s, keep)[i] < |s|
    ensures forall i, j :: 0 <= i < j < |KeptPositions(s, keep)| ==> KeptPositions(s, keep)[i] < KeptPositions(s, keep)[j]
  {
    if s != [] {
      var t := s[..|s| - 1];
      KeptPositionsIncrease(t, keep);
      var it := KeptPositions(t, keep);
      var ix := KeptPositions(s, keep);
      if keep(s[|s| - 1]) {
        assert ix == it + [|t|];
        assert forall i :: 0 <= i < |it| ==> ix[i] == it[i];
        assert ix[|it|] == |t|;
      } else {
        assert ix == it;
      }
    }
  }

  /** A position is kept exactly when its element passes the test. */
  lemma {:induction false} KeptPositionsExact<T>(s: seq<T>, keep: T -> bool)
    ensures forall p :: 0 <= p < |s| ==> (keep(s[p]) <==> p in KeptPositions(s, keep))
  {
    if s != [] {
      var t := s[..|s| - 1];
      KeptPositionsExact(t, keep);
      KeptPositionsIncrease(t, keep);
      var it := KeptPositions(t, keep);
      assert KeptPositions(s, keep) == it + (if keep(s[|s| - 1]) then [|t|] else []);
      assert forall q :: q in it ==> q < |t|;
      forall p | 0 <= p < |s| ensures keep(s[p]) <==> p in KeptPositions(s, keep) {
        if p < |t| {
          assert s[p] == t[p];
        }
      }
    }
  }

  /** The result lists the elements at the kept positions. */
  lemma {:induction false} FilterAtKept<T>(s: seq<T>, keep: T -> bool)
    ensures |KeptPositions(s, keep)| == |Filter(s, keep)|
    ensures forall i :: 0 <= i < |KeptPositions(s, keep)| ==>
      KeptPositions(s, keep)[i] < |s| && Filter(s, keep)[i] == s[KeptPositions(s, keep)[i]]
  {
    if s != [] {
      var t := s[..|s| - 1];
      FilterAtKept(t, keep);
      var rt, it := Filter(t, keep), KeptPositions(t, keep);
      var r, ix := Filter(s, keep), KeptPositions(s, keep);
      assert ix == it + (if keep(s[|s| - 1]) then [|t|] else []);
      assert r == rt + (if keep(s[|s| - 1]) then [s[|s| - 1]] else []);
      forall i | 0 <= i < |ix| ensures ix[i] < |s| && r[i] == s[ix[i]] {
        if i < |it| {
          assert ix[i] == it[i] && r[i] == rt[i] && t[it[i]] == s[it[i]];
        }
      }
    }
  }

  /** Filter picks exactly the positions that pass the test, each once and in
      their original order: the result is an order-preserving subsequence that
      loses no element that passes. */
  lemma FilterSelectsInOrder<T>(s: seq<T>, keep: T -> bool)
    ensures var r, ix := Filter(s, keep), KeptPositions(s, keep);
      && |ix| == |r|
      && (forall i, j :: 0 <= i < j < |ix| ==> ix[i] < ix[j])
      && (forall i :: 0 <= i < |ix| ==> ix[i] < |s| && r[i] == s[ix[i]])
      && (forall p :: 0 <= p < |s| ==> (keep(s[p]) <==> p in ix))
  {
    KeptPositionsIncrease(s, keep);
    KeptPositionsExact(s, keep);
    FilterAtKept(s, keep);
  }

  /** Where a passing element lands in the result. */
  lemma KeptIndex<T>(s: seq<T>, keep: T -> bool, p: nat) returns (i: nat)
    requires p < |s| && keep(s[p])
    ensures i < |KeptPositions(s, keep)| && KeptPositions(s, keep)[i] == p
    ensures i < |Filter(s, keep)| && Filter(s, keep)[i] == s[p]
  {
    KeptPositionsExact(s, keep);
    FilterAtKept(s, keep);
    var ix := KeptPositions(s, keep);
    i :| 0 <= i < |ix| && ix[i] == p;
  }

  /** An element that passes the test survives the filter. */
  lemma FilterKeeps<T>(s: seq<T>, keep: T -> bool, x: T)
    requires x in s && keep(x)
    ensures x in Filter(s, keep)
  {
    var p :| 0 <= p < |s| && s[p] == x;
    var i := KeptIndex(s, keep, p);
  }

  /** Two kept elements keep their relative order in the result. */
  lemma FilterPreservesOrder<T>(s: seq<T>, keep: T -> bool, a: nat, b: nat)
    requires a < b < |s| && keep(s[a]) && keep(s[b])
    ensures exists a', b' :: 0 <= a' < b' < |Filter(s, keep)| && Filter(s, keep)[a'] == s[a] && Filter(s, keep)[b'] == s[b]
  {
    var a' := KeptIndex(s, keep, a);
    var b' := KeptIndex(s, keep, b);
    KeptPositionsIncrease(s, keep);
    assert a' < b';
  }

  /** Two elements of the result stand in the same order in the input. */
  lemma FilterReflectsOrder<T>(s: seq<T>, keep: T -> bool, a': nat, b': nat)
    requires a' < b' < |Filter(s, keep)|
    ensures exists a, b :: 0 <= a < b < |s| && s[a] == Filter(s, keep)[a'] && s[b] == Filter(s, keep)[b']
  {
    KeptPositionsIncrease(s, keep);
    FilterAtKept(s, keep);
    var ix := KeptPositions(s, keep);
    assert s[ix[a']] == Filter(s, keep)[a'] && s[ix[b']] == Filter(s, keep)[b'];
  }
}
