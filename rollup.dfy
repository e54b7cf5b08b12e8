/** `d3.rollup(data, v => v.length, key)` followed by `Array.from`: group the
    rows by key and count each group. d3 keeps the groups in an `InternMap`,
    which iterates its keys in the order they were first inserted, so the
    buckets come out in first-encounter order. */
module Rollup {

  /** One `[key, count]` entry of the rolled-up map. */
  datatype Bucket<K> = Bucket(key: K, count: nat)

  /** The sum of the bucket counts. */
  function Total<K>(bs: seq<Bucket<K>>): nat
  {
    if bs == [] then 0 else bs[0].count + Total(bs[1..])
  }

  ghost predicate DistinctKeys<K>(bs: seq<Bucket<K>>)
  {
    forall i, j :: 0 <= i < j < |bs| ==> bs[i].key != bs[j].key
  }

  /** Counting one more row under key `k`: the bucket of `k` goes up by one,
      or a new bucket with count 1 is appended when `k` is new. */
  function Bump<K(==)>(bs: seq<Bucket<K>>, k: K): seq<Bucket<K>>
  {
    if bs == [] then [Bucket(k, 1)]
    else if bs[0].key == k then [Bucket(k, bs[0].count + 1)] + bs[1..]
    else [bs[0]] + Bump(bs[1..], k)
  }

  /** The rolled-up counts of a sequence of keys, one row at a time. */
  function Tally<K(==)>(keys: seq<K>): seq<Bucket<K>>
  {
    if keys == [] then [] else Bump(Tally(keys[..|keys| - 1]), keys[|keys| - 1])
  }

  lemma {:induction false} BumpHit<K>(bs: seq<Bucket<K>>, k: K, p: nat)
    requires p < |bs| && bs[p].key == k
    requires forall q :: 0 <= q < p ==> bs[q].key != k
    ensures Bump(bs, k) == bs[p := Bucket(k, bs[p].count + 1)]
  {
    if p > 0 {
      BumpHit(bs[1..], k, p - 1);
    }
  }

  lemma {:induction false} BumpMiss<K>(bs: seq<Bucket<K>>, k: K)
    requires forall q :: 0 <= q < |bs| ==> bs[q].key != k
    ensures Bump(bs, k) == bs + [Bucket(k, 1)]
  {
    if bs != [] {
      BumpMiss(bs[1..], k);
    }
  }

  lemma {:induction false} TotalBump<K>(bs: seq<Bucket<K>>, k: K)
    ensures Total(Bump(bs, k)) == Total(bs) + 1
  {
    if bs != [] && bs[0].key != k {
      TotalBump(bs[1..], k);
      assert ([bs[0]] + Bump(bs[1..], k))[1..] == Bump(bs[1..], k);
    } else if bs != [] {
      assert ([Bucket(k, bs[0].count + 1)] + bs[1..])[1..] == bs[1..];
    }
  }

  lemma {:induction false} TallyDistinct<K>(keys: seq<K>)
    ensures DistinctKeys(Tally(keys))
  {
    if keys != [] {
      var prefix, k := keys[..|keys| - 1], keys[|keys| - 1];
      TallyDistinct(prefix);
      var t := Tally(prefix);
      assert Tally(keys) == Bump(t, k);
      if p :| 0 <= p < |t| && t[p].key == k {
        BumpHit(t, k, p);
      } else {
        BumpMiss(t, k);
      }
    }
  }

  lemma {:induction false} TallyKeysOccur<K>(keys: seq<K>)
    ensures forall i :: 0 <= i < |Tally(keys)| ==> Tally(keys)[i].key in keys
  {
    if keys != [] {
      var prefix, k := keys[..|keys| - 1], keys[|keys| - 1];
      assert keys == prefix + [k];
      TallyKeysOccur(prefix);
      TallyDistinct(prefix);
      var t := Tally(prefix);
      assert Tally(keys) == Bump(t, k);
      if p :| 0 <= p < |t| && t[p].key == k {
        BumpHit(t, k, p);
      } else {
        BumpMiss(t, k);
      }
      forall i | 0 <= i < |Tally(keys)| ensures Tally(keys)[i].key in keys {
        if i < |t| && Tally(keys)[i].key != k {
          assert Tally(keys)[i].key == t[i].key && t[i].key in prefix;
        }
      }
    }
  }

  /** Every key of `keys` has a bucket in `bs`. */
  ghost predicate Covers<K>(bs: seq<Bucket<K>>, keys: seq<K>)
  {
    forall k :: k in keys ==> exists i :: 0 <= i < |bs| && bs[i].key == k
  }

  lemma {:induction false} TallyKeysCover<K>(keys: seq<K>)
    ensures Covers(Tally(keys), keys)
    decreases |keys|, 1
  {
    forall k | k in keys ensures exists i :: 0 <= i < |Tally(keys)| && Tally(keys)[i].key == k {
      TallyCoverStep(keys, k);
    }
  }

  /** The inductive step of TallyKeysCover: a key that occurs has a bucket,
      either from the rows before the last one or from the last one. */
  lemma TallyCoverStep<K>(keys: seq<K>, k: K)
    requires k in keys
    ensures exists i :: 0 <= i < |Tally(keys)| && Tally(keys)[i].key == k
    decreases |keys|, 0
  {
    var prefix, last := keys[..|keys| - 1], keys[|keys| - 1];
    assert keys == prefix + [last];
    TallyDistinct(prefix);
    var t := Tally(prefix);
    var r := Tally(keys);
    assert r == Bump(t, last);
    if k != last {
      assert k in prefix;
      TallyKeysCover(prefix);
    }
    if p :| 0 <= p < |t| && t[p].key == last {
      BumpHit(t, last, p);
      if k != last {
        var i :| 0 <= i < |t| && t[i].key == k;
        assert r[i].key == k;
      } else {
        assert r[p].key == k;
      }
    } else {
      BumpMiss(t, last);
      if k != last {
        var i :| 0 <= i < |t| && t[i].key == k;
        assert r[i].key == k;
      } else {
        assert r[|t|].key == k;
      }
    }
  }

  /** Grouping creates one bucket per distinct key: the keys of the buckets
      are pairwise distinct and are exactly the keys that occur. No key is
      dropped, whatever its value. */
  lemma TallyKeys<K>(keys: seq<K>)
    ensures DistinctKeys(Tally(keys))
    ensures forall i :: 0 <= i < |Tally(keys)| ==> Tally(keys)[i].key in keys
    ensures Covers(Tally(keys), keys)
  {
    TallyDistinct(keys);
    TallyKeysOccur(keys);
    TallyKeysCover(keys);
  }

  /** Each bucket counts exactly the rows carrying its key, so every count
      is at least one. */
  lemma {:induction false} TallyCounts<K>(keys: seq<K>)
    ensures forall i :: 0 <= i < |Tally(keys)| ==>
      Tally(keys)[i].count == multiset(keys)[Tally(keys)[i].key] >= 1
  {
    if keys != [] {
      var prefix, k := keys[..|keys| - 1], keys[|keys| - 1];
      assert keys == prefix + [k];
      TallyCounts(prefix);
      TallyKeys(prefix);
      var t := Tally(prefix);
      if p :| 0 <= p < |t| && t[p].key == k {
        BumpHit(t, k, p);
      } else {
        BumpMiss(t, k);
        assert k !in prefix;
      }
    }
  }

  /** The counts add up to the number of rows. */
  lemma {:induction false} TallyTotal<K>(keys: seq<K>)
    ensures Total(Tally(keys)) == |keys|
  {
    if keys != [] {
      TallyTotal(keys[..|keys| - 1]);
      TotalBump(Tally(keys[..|keys| - 1]), keys[|keys| - 1]);
    }
  }

  /** Buckets appear in first-encounter order: when bucket `i` precedes
      bucket `j`, the key of `i` occurs before every occurrence of the key of `j`. */
  lemma {:induction false} TallyOrder<K>(keys: seq<K>)
    ensures forall i, j, m :: 0 <= i < j < |Tally(keys)| && 0 <= m < |keys| && keys[m] == Tally(keys)[j].key ==>
      Tally(keys)[i].key in keys[..m]
  {
    if keys != [] {
      var prefix, k := keys[..|keys| - 1], keys[|keys| - 1];
      assert keys == prefix + [k];
      TallyOrder(prefix);
      TallyKeys(prefix);
      var t := Tally(prefix);
      forall i, j, m | 0 <= i < j < |Tally(keys)| && 0 <= m < |keys| && keys[m] == Tally(keys)[j].key
        ensures Tally(keys)[i].key in keys[..m]
      {
        assert prefix[..m] <= keys[..m] by {
          if m < |prefix| { assert prefix[..m] == keys[..m]; }
        }
        if p :| 0 <= p < |t| && t[p].key == k {
          BumpHit(t, k, p);
          if m < |prefix| {
            assert prefix[m] == t[j].key;
          } else {
            var m0 :| 0 <= m0 < |prefix| && prefix[m0] == k;
            assert t[i].key in prefix[..m0];
          }
        } else {
          BumpMiss(t, k);
          if j < |t| {
            assert m < |prefix|;
            assert prefix[m] == t[j].key;
          } else {
            assert k !in prefix;
            assert m == |prefix|;
            assert keys[..m] == prefix;
          }
        }
      }
    }
  }

  lemma {:induction false} TotalAppend<K>(a: seq<Bucket<K>>, b: seq<Bucket<K>>)
    ensures Total(a + b) == Total(a) + Total(b)
  {
    if a != [] {
      TotalAppend(a[1..], b);
      assert (a + b)[1..] == a[1..] + b;
    } else {
      assert a + b == b;
    }
  }

  lemma TotalRemove<K>(b: seq<Bucket<K>>, p: nat)
    requires p < |b|
    ensures Total(b) == b[p].count + Total(b[..p] + b[p + 1..])
  {
    assert b == b[..p] + b[p..];
    TotalAppend(b[..p], b[p..]);
    TotalAppend(b[..p], b[p + 1..]);
    assert b[p..][1..] == b[p + 1..];
  }

  lemma MultisetRemove<T>(b: seq<T>, p: nat)
    requires p < |b|
    ensures multiset(b[..p] + b[p + 1..]) == multiset(b) - multiset{b[p]}
  {
    assert b == b[..p] + [b[p]] + b[p + 1..];
  }

  /** Taking the first element of `a` and a matching element of `b` out of
      two permutations leaves two permutations. */
  lemma PermutationRemove<T>(a: seq<T>, b: seq<T>, p: nat)
    requires multiset(a) == multiset(b) && a != [] && p < |b| && b[p] == a[0]
    ensures multiset(a[1..]) == multiset(b[..p] + b[p + 1..])
  {
    var rest := b[..p] + b[p + 1..];
    MultisetRemove(b, p);
    assert a == [a[0]] + a[1..];
    assert multiset(a) == multiset{a[0]} + multiset(a[1..]);
    forall x ensures multiset(a[1..])[x] == multiset(rest)[x] {
      assert multiset(rest)[x] == (multiset(a) - multiset{a[0]})[x];
    }
  }

  /** Reordering buckets does not change the total. */
  lemma {:induction false} TotalPermutation<K>(a: seq<Bucket<K>>, b: seq<Bucket<K>>)
    requires multiset(a) == multiset(b)
    ensures Total(a) == Total(b)
    decreases |a|
  {
    if a != [] {
      assert a[0] in multiset(b);
      var p :| 0 <= p < |b| && b[p] == a[0];
      TotalRemove(b, p);
      PermutationRemove(a, b, p);
      TotalPermutation(a[1..], b[..p] + b[p + 1..]);
    } else {
      assert |b| == |multiset(b)| == 0;
    }
  }

  /** `Array.from(counts, ([key, count]) => ({ key: f(key), count }))`:
      the buckets with each key converted. */
  function Rekey<K, U>(bs: seq<Bucket<K>>, f: K -> U): (r: seq<Bucket<U>>)
    ensures |r| == |bs|
  {
    seq(|bs|, i requires 0 <= i < |bs| => Bucket(f(bs[i].key), bs[i].count))
  }

  /** Each element mapped through `key`: the key of every row, as rollup's
      key accessor gives it, or every key converted after grouping. */
  function KeysOf<R, K>(rows: seq<R>, key: R -> K): (r: seq<K>)
    ensures |r| == |rows|
    ensures forall i :: 0 <= i < |rows| ==> r[i] == key(rows[i])
  {
    seq(|rows|, i requires 0 <= i < |rows| => key(rows[i]))
  }

  lemma {:induction false} RekeyBump<K, U>(bs: seq<Bucket<K>>, k: K, f: K -> U)
    requires forall i :: 0 <= i < |bs| && f(bs[i].key) == f(k) ==> bs[i].key == k
    ensures Rekey(Bump(bs, k), f) == Bump(Rekey(bs, f), f(k))
  {
    if bs != [] && bs[0].key != k {
      RekeyBump(bs[1..], k, f);
      assert Rekey(bs, f)[1..] == Rekey(bs[1..], f);
      assert Rekey(Bump(bs, k), f) == [Rekey(bs, f)[0]] + Rekey(Bump(bs[1..], k), f);
    } else if bs != [] {
      assert Rekey(bs, f)[1..] == Rekey(bs[1..], f);
    }
  }

  /** Converting the keys after grouping is grouping the converted keys,
      when the conversion does not merge two keys that occur. */
  lemma {:induction false} TallyRekey<K, U>(keys: seq<K>, f: K -> U)
    requires forall a, b :: a in keys && b in keys && f(a) == f(b) ==> a == b
    ensures Rekey(Tally(keys), f) == Tally(KeysOf(keys, f))
  {
    if keys != [] {
      var prefix, k := keys[..|keys| - 1], keys[|keys| - 1];
      TallyRekey(prefix, f);
      TallyKeys(prefix);
      RekeyBump(Tally(prefix), k, f);
      assert KeysOf(keys, f)[..|keys| - 1] == KeysOf(prefix, f);
    }
  }

  /** With distinct keys, no bucket occurs twice. */
  lemma {:induction false} DistinctOnce<K>(a: seq<Bucket<K>>, x: Bucket<K>)
    requires DistinctKeys(a)
    ensures multiset(a)[x] <= 1
  {
    if a != [] {
      var rest := a[1..];
      assert a == [a[0]] + rest;
      assert DistinctKeys(rest) by {
        forall i, j | 0 <= i < j < |rest| ensures rest[i].key != rest[j].key {
          assert rest[i] == a[i + 1] && rest[j] == a[j + 1];
        }
      }
      DistinctOnce(rest, x);
      if a[0] == x {
        forall i | 0 <= i < |rest| ensures rest[i] != x {
          assert rest[i] == a[i + 1];
        }
        assert x !in rest;
      }
    }
  }

  /** An element at two positions occurs at least twice. */
  lemma OccursTwice<T>(b: seq<T>, i: nat, j: nat)
    requires i < j < |b| && b[i] == b[j]
    ensures multiset(b)[b[i]] >= 2
  {
    assert b == b[..j] + [b[j]] + b[j + 1..];
    assert b[i] in b[..j];
  }

  /** Distinct keys survive any reordering of the buckets. */
  lemma DistinctKeysPermutation<K>(a: seq<Bucket<K>>, b: seq<Bucket<K>>)
    requires DistinctKeys(a) && multiset(a) == multiset(b)
    ensures DistinctKeys(b)
  {
    forall i, j | 0 <= i < j < |b| ensures b[i].key != b[j].key {
      if b[i] == b[j] {
        OccursTwice(b, i, j);
        DistinctOnce(a, b[i]);
      } else {
        assert b[i] in multiset(a) && b[j] in multiset(a);
        var p :| 0 <= p < |a| && a[p] == b[i];
        var q :| 0 <= q < |a| && a[q] == b[j];
        assert p != q && a[p].key != a[q].key;
      }
    }
  }

  /** The loop state of the rollup, an insertion-ordered map (`order`
      lists the keys as first inserted, `counts` maps each to its count),
      holds exactly the buckets `t`. */
  ghost predicate Mirrors<K>(t: seq<Bucket<K>>, order: seq<K>, counts: map<K, nat>)
  {
    && |order| == |t|
    && (forall j :: 0 <= j < |order| ==> order[j] in counts && t[j] == Bucket(order[j], counts[order[j]]))
    && (forall k :: k in counts ==> k in order)
  }

  lemma MirrorsBump<K>(t: seq<Bucket<K>>, order: seq<K>, counts: map<K, nat>, k: K)
    requires Mirrors(t, order, counts) && DistinctKeys(t)
    ensures k in counts ==> Mirrors(Bump(t, k), order, counts[k := counts[k] + 1])
    ensures k !in counts ==> Mirrors(Bump(t, k), order + [k], counts[k := 1])
  {
    if k in counts {
      var p :| 0 <= p < |order| && order[p] == k;
      BumpHit(t, k, p);
    } else {
      BumpMiss(t, k);
    }
  }

  /** The rollup loop: an insertion-ordered map from key to count, updated
      once per row, then read out in insertion order. */
  method RollupCount<K(==)>(keys: seq<K>) returns (buckets: seq<Bucket<K>>)
    ensures buckets == Tally(keys)
  {
    var order: seq<K> := [];
    var counts: map<K, nat> := map[];
    for i := 0 to |keys|
      invariant Mirrors(Tally(keys[..i]), order, counts)
    {
      var k := keys[i];
      assert keys[..i + 1][..i] == keys[..i];
      TallyKeys(keys[..i]);
      MirrorsBump(Tally(keys[..i]), order, counts, k);
      if k in counts {
        counts := counts[k := counts[k] + 1];
      } else {
        order := order + [k];
        counts := counts[k := 1];
      }
    }
    assert keys[..|keys|] == keys;
    buckets := [];
    for j := 0 to |order|
      invariant buckets == Tally(keys)[..j]
    {
      buckets := buckets + [Bucket(order[j], counts[order[j]])];
    }
  }
}
