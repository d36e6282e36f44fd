/** `distinctBy(mapper)`: the first element for each key, in encounter order,
    accumulated in an insertion-ordered map (`LinkedHashMap`). */
module Distinct {
  import opened Wrappers
  import opened Seqs
  import opened Collectors

  /** An insertion-ordered map: its entries in insertion order, keys distinct. */
  type Entries<K, T> = seq<(K, T)>

  function Keys<K(==), T>(m: Entries<K, T>): set<K>
  {
    set i | 0 <= i < |m| :: m[i].0
  }

  /** `Map.putIfAbsent`: a new key is added at the end, an existing one left alone. */
  function PutIfAbsent<K(==), T>(m: Entries<K, T>, k: K, v: T): (r: Entries<K, T>)
    ensures Keys(r) == Keys(m) + {k}
  {
    if k in Keys(m) then m
    else
      assert forall i :: 0 <= i < |m| ==> (m + [(k, v)])[i] == m[i];
      assert (m + [(k, v)])[|m|].0 == k;
      m + [(k, v)]
  }

  /** The merge loop: `putIfAbsent` of every entry of `m2`, in its order. */
  function PutAllAbsent<K(==), T>(m1: Entries<K, T>, m2: Entries<K, T>): Entries<K, T>
    decreases |m2|
  {
    if |m2| == 0 then m1 else PutAllAbsent(PutIfAbsent(m1, m2[0].0, m2[0].1), m2[1..])
  }

  lemma {:induction false} PutAllAbsentSnoc<K, T>(m1: Entries<K, T>, m2: Entries<K, T>, e: (K, T))
    ensures PutAllAbsent(m1, m2 + [e]) == PutIfAbsent(PutAllAbsent(m1, m2), e.0, e.1)
    decreases |m2|
  {
    if |m2| > 0 {
      assert (m2 + [e])[1..] == m2[1..] + [e];
      PutAllAbsentSnoc(PutIfAbsent(m1, m2[0].0, m2[0].1), m2[1..], e);
    }
  }

  lemma {:induction false} PutAllAbsentKeys<K, T>(m1: Entries<K, T>, m2: Entries<K, T>)
    ensures Keys(PutAllAbsent(m1, m2)) == Keys(m1) + Keys(m2)
    decreases |m2|
  {
    if |m2| > 0 {
      PutAllAbsentKeys(PutIfAbsent(m1, m2[0].0, m2[0].1), m2[1..]);
      assert Keys(m2) == {m2[0].0} + Keys(m2[1..]) by {
        forall k | k in Keys(m2) ensures k in {m2[0].0} + Keys(m2[1..]) {
          var i :| 0 <= i < |m2| && m2[i].0 == k;
          if i > 0 {
            assert m2[1..][i - 1] == m2[i];
          }
        }
        forall k | k in Keys(m2[1..]) ensures k in Keys(m2) {
          var i :| 0 <= i < |m2[1..]| && m2[1..][i].0 == k;
          assert m2[i + 1] == m2[1..][i];
        }
      }
    }
  }

  /** `distinctBy(mapper)`: no characteristics, finish copies the values. */
  function DistinctBy<T(!new), K(!new, ==)>(key: T -> K): (c: Collector<T, Entries<K, T>, seq<T>>)
    ensures c.chars == {} && c.finished.None?
  {
    Collector([],
      (m: Entries<K, T>, t: T) => PutIfAbsent(m, key(t), t),
      (m1: Entries<K, T>, m2: Entries<K, T>) => PutAllAbsent(m1, m2),
      (m: Entries<K, T>) => Map((e: (K, T)) => e.1, m),
      None, {})
  }

  /** Folding more elements into any map is the same as `putIfAbsent` of the
      entries those elements give on their own. */
  lemma {:induction false} FoldIsPutAll<T(!new), K(!new)>(key: T -> K, m: Entries<K, T>, ys: seq<T>)
    ensures FoldFrom(DistinctBy(key), m, ys) == PutAllAbsent(m, FoldAll(DistinctBy(key), ys))
    decreases |ys|
  {
    if |ys| > 0 {
      var c := DistinctBy(key);
      var ys', y := ys[..|ys| - 1], ys[|ys| - 1];
      FoldIsPutAll(key, m, ys');
      var d := FoldAll(c, ys');
      PutAllAbsentKeys(m, d);
      if key(y) !in Keys(d) {
        PutAllAbsentSnoc(m, d, (key(y), y));
      }
    }
  }

  /** Merging two partitions' maps gives the map of their concatenation. */
  lemma DistinctByMergeSound<T(!new), K(!new)>(key: T -> K)
    ensures MergeSound(DistinctBy(key))
  {
    var c := DistinctBy(key);
    forall xs: seq<T>, ys: seq<T> ensures c.merge(FoldAll(c, xs), FoldAll(c, ys)) == FoldAll(c, xs + ys) {
      FoldFromAppend(c, c.create, xs, ys);
      FoldIsPutAll(key, FoldAll(c, xs), ys);
    }
  }

  // ---------------------------------------------------------------- reference: first element per key

  /** No earlier element of `xs` has the key of `xs[k]`. */
  predicate FirstOfKey<T, K(==)>(key: T -> K, xs: seq<T>, k: int)
    requires 0 <= k < |xs|
  {
    forall i :: 0 <= i < k ==> key(xs[i]) != key(xs[k])
  }

  /** The positions of `xs` that are first for their key, in increasing order. */
  function FirstPositions<T, K(==)>(key: T -> K, xs: seq<T>): (idx: seq<int>)
    decreases |xs|
  {
    if |xs| == 0 then []
    else
      var xs' := xs[..|xs| - 1];
      FirstPositions(key, xs') + (if FirstOfKey(key, xs, |xs'|) then [|xs'|] else [])
  }

  /** The state of `distinctBy` after `xs`: one entry per first-of-key position,
      in order, holding that element and its key; its keys are all keys seen. */
  ghost predicate DistinctInv<T, K>(key: T -> K, xs: seq<T>, idx: seq<int>, m: Entries<K, T>)
  {
    && |m| == |idx|
    && (forall j :: 0 <= j < |idx| ==> 0 <= idx[j] < |xs| && m[j] == (key(xs[idx[j]]), xs[idx[j]]))
    && (forall i, j :: 0 <= i < j < |idx| ==> idx[i] < idx[j])
    && (forall k :: 0 <= k < |xs| ==> (FirstOfKey(key, xs, k) <==> k in idx))
    && Keys(m) == KeysSeen(key, xs)
  }

  /** The keys of the elements of `xs`. */
  ghost function KeysSeen<T, K>(key: T -> K, xs: seq<T>): set<K>
  {
    set i | 0 <= i < |xs| :: key(xs[i])
  }

  lemma KeysSeenLast<T, K>(key: T -> K, xs: seq<T>)
    requires |xs| > 0
    ensures KeysSeen(key, xs) == KeysSeen(key, xs[..|xs| - 1]) + {key(xs[|xs| - 1])}
    ensures key(xs[|xs| - 1]) in KeysSeen(key, xs[..|xs| - 1]) <==> !FirstOfKey(key, xs, |xs| - 1)
  {
    var xs' := xs[..|xs| - 1];
    assert forall i :: 0 <= i < |xs'| ==> xs'[i] == xs[i];
    if key(xs[|xs| - 1]) in KeysSeen(key, xs') {
      var i :| 0 <= i < |xs'| && key(xs'[i]) == key(xs[|xs| - 1]);
      assert key(xs[i]) == key(xs[|xs| - 1]);
    }
  }

  lemma DistinctInvStep<T, K>(key: T -> K, xs: seq<T>, idx: seq<int>, m: Entries<K, T>)
    requires |xs| > 0 && DistinctInv(key, xs[..|xs| - 1], idx, m)
    ensures var n, t := |xs| - 1, xs[|xs| - 1];
      DistinctInv(key, xs, idx + (if FirstOfKey(key, xs, n) then [n] else []), PutIfAbsent(m, key(t), t))
  {
    var xs', n, t := xs[..|xs| - 1], |xs| - 1, xs[|xs| - 1];
    var first := FirstOfKey(key, xs, n);
    var idx1 := idx + (if first then [n] else []);
    var m1 := PutIfAbsent(m, key(t), t);
    KeysSeenLast(key, xs);
    assert m1 == if first then m + [(key(t), t)] else m;
    forall j | 0 <= j < |idx1|
      ensures 0 <= idx1[j] < |xs| && m1[j] == (key(xs[idx1[j]]), xs[idx1[j]])
    {
      if j < |idx| {
        assert idx1[j] == idx[j] && m1[j] == m[j] && xs[idx[j]] == xs'[idx[j]];
      }
    }
    forall k | 0 <= k < |xs| ensures FirstOfKey(key, xs, k) <==> k in idx1 {
      if k < n {
        assert forall i :: 0 <= i < k ==> xs[i] == xs'[i];
        assert FirstOfKey(key, xs, k) <==> FirstOfKey(key, xs', k);
      } else {
        assert k !in idx;
      }
    }
  }

  lemma {:induction false} DistinctFoldAll<T(!new), K(!new)>(key: T -> K, xs: seq<T>)
    ensures DistinctInv(key, xs, FirstPositions(key, xs), FoldAll(DistinctBy(key), xs))
    decreases |xs|
  {
    if |xs| > 0 {
      var xs' := xs[..|xs| - 1];
      DistinctFoldAll(key, xs');
      DistinctInvStep(key, xs, FirstPositions(key, xs'), FoldAll(DistinctBy(key), xs'));
    }
  }

  /** `distinctBy` keeps, in encounter order, exactly the elements that are first
      for their key: the result holds no two elements with the same key. */
  lemma DistinctByCollect<T(!new), K(!new)>(key: T -> K, xs: seq<T>)
    ensures var r, idx := Collect(DistinctBy(key), xs), FirstPositions(key, xs);
      && SubseqAt(r, xs, idx)
      && (forall k :: 0 <= k < |xs| ==> (k in idx <==> FirstOfKey(key, xs, k)))
      && (forall i, j :: 0 <= i < j < |r| ==> key(r[i]) != key(r[j]))
  {
    DistinctFoldAll(key, xs);
    var r, idx := Collect(DistinctBy(key), xs), FirstPositions(key, xs);
    forall i, j | 0 <= i < j < |r| ensures key(r[i]) != key(r[j]) {
      assert idx[i] < idx[j] && FirstOfKey(key, xs, idx[j]);
    }
  }
}
