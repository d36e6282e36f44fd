/** The map collectors: `toMap`/`toConcurrentMap` with their helpers `addToMap`,
    `mapMerger` and `throwingMerger`, and `groupingBy(domain, ...)`. */
module Grouping {
  import opened Wrappers
  import opened Seqs
  import opened Collectors
  import AllMatch
  import SetCollectors

  // ---------------------------------------------------------------- merge functions

  /** The exception `throwingMerger()` raises. */
  const DuplicateKey: Error := IllegalState("Duplicate key")

  /** The merge function of `toMap`: a `BinaryOperator<V>`, or `throwingMerger()`. */
  datatype MergePolicy<!V> = Combining(f: (V, V) -> V) | Throwing

  /** Applying the merge function to two values of one key: `throwingMerger()`
      always raises, any other operator always succeeds. */
  function ApplyMerge<V>(p: MergePolicy<V>, u: V, v: V): (r: Result<V>)
    ensures r.Failure? <==> p.Throwing?
    ensures r.Failure? ==> r.error == DuplicateKey
  {
    match p
    case Combining(f) => Success(f(u, v))
    case Throwing => Failure(DuplicateKey)
  }

  /** `addToMap(map, key, val, mergeFunction)`. */
  function AddToMap<K(==), V>(p: MergePolicy<V>, m: map<K, V>, k: K, v: V): (r: Result<map<K, V>>)
    ensures r.Failure? <==> p.Throwing? && k in m
    ensures r.Failure? ==> r.error == DuplicateKey
    ensures r.Success? ==> r.value.Keys == m.Keys + {k} && (forall j :: j in m && j != k ==> r.value[j] == m[j])
  {
    if k in m then
      var w := ApplyMerge(p, m[k], v);
      if w.Failure? then Failure(w.error) else Success(m[k := w.value])
    else Success(m[k := v])
  }

  /** `mapMerger(mergeFunction)`: every key of `m2` is put into `m1`, merged with
      `m1`'s value when present. Each entry touches only its own key, so the
      result does not depend on the iteration order of `m2`; see `MapMergerIsLoop`. */
  function MapMerger<K(==), V>(p: MergePolicy<V>, m1: map<K, V>, m2: map<K, V>): Result<map<K, V>>
  {
    if p.Throwing? && m1.Keys * m2.Keys != {} then Failure(DuplicateKey)
    else
      Success(map k | k in m1.Keys + m2.Keys ::
        if k in m1 && k in m2 then
          assert k in m1.Keys * m2.Keys;
          p.f(m1[k], m2[k])
        else if k in m1 then m1[k] else m2[k])
  }

  /** The loop of `mapMerger` over the entries of `m2` listed in the order `ks`. */
  function MergeLoop<K(==), V>(p: MergePolicy<V>, r: Result<map<K, V>>, m2: map<K, V>, ks: seq<K>): Result<map<K, V>>
    requires forall i :: 0 <= i < |ks| ==> ks[i] in m2
    decreases |ks|
  {
    if |ks| == 0 || r.Failure? then r else MergeLoop(p, AddToMap(p, r.value, ks[0], m2[ks[0]]), m2, ks[1..])
  }

  ghost predicate Distinct<X>(s: seq<X>)
  {
    forall i, j :: 0 <= i < j < |s| ==> s[i] != s[j]
  }

  /** The entries of `m2` whose keys are listed in `ks`. */
  function Restrict<K(==), V>(m2: map<K, V>, ks: seq<K>): map<K, V>
  {
    map k | k in m2 && k in ks :: m2[k]
  }

  lemma {:induction false} MergeLoopRestrict<K(!new), V(!new)>(p: MergePolicy<V>, m1: map<K, V>, m2: map<K, V>, ks: seq<K>)
    requires forall i :: 0 <= i < |ks| ==> ks[i] in m2
    requires Distinct(ks)
    ensures MergeLoop(p, Success(m1), m2, ks) == MapMerger(p, m1, Restrict(m2, ks))
    decreases |ks|
  {
    if |ks| == 0 {
      MergerEmpty(p, m1, Restrict(m2, ks));
    } else {
      var k0, rest := ks[0], ks[1..];
      RestrictCons(m2, ks);
      var a := AddToMap(p, m1, k0, m2[k0]);
      var small := Restrict(m2, rest);
      if a.Failure? {
        assert k0 in m1.Keys * Restrict(m2, ks).Keys;
      } else {
        MergeLoopRestrict(p, a.value, m2, rest);
        MergerStep(p, m1, k0, m2[k0], small);
      }
    }
  }

  lemma MergerEmpty<K(!new), V(!new)>(p: MergePolicy<V>, m1: map<K, V>, m2: map<K, V>)
    requires m2 == map[]
    ensures MapMerger(p, m1, m2) == Success(m1)
  {
    var r := MapMerger(p, m1, m2);
    assert r.value.Keys == m1.Keys;
    assert r.value == m1;
  }

  /** The entries listed by `ks` are those listed by its tail plus its head. */
  lemma RestrictCons<K, V>(m2: map<K, V>, ks: seq<K>)
    requires |ks| > 0 && (forall i :: 0 <= i < |ks| ==> ks[i] in m2) && Distinct(ks)
    ensures var rest := ks[1..];
      && (forall i :: 0 <= i < |rest| ==> rest[i] in m2)
      && Distinct(rest)
      && ks[0] !in Restrict(m2, rest)
      && Restrict(m2, ks) == Restrict(m2, rest)[ks[0] := m2[ks[0]]]
  {
    var k0, rest := ks[0], ks[1..];
    assert forall i :: 0 <= i < |rest| ==> rest[i] == ks[i + 1];
    assert k0 !in rest;
    assert forall k :: k in ks <==> k == k0 || k in rest;
    var big, small := Restrict(m2, ks), Restrict(m2, rest);
    assert big.Keys == small.Keys + {k0};
    assert big == small[k0 := m2[k0]];
  }

  /** Putting one more key into the left map first is the same as merging it
      from the right. */
  lemma MergerStep<K(!new), V(!new)>(p: MergePolicy<V>, m1: map<K, V>, k0: K, v0: V, small: map<K, V>)
    requires k0 !in small && AddToMap(p, m1, k0, v0).Success?
    ensures MapMerger(p, AddToMap(p, m1, k0, v0).value, small) == MapMerger(p, m1, small[k0 := v0])
  {
    if p.Throwing? {
      MergerStepThrowing(m1, k0, v0, small);
    } else {
      MergerStepCombining(p.f, m1, k0, v0, small);
    }
  }

  lemma MergerStepThrowing<K(!new), V(!new)>(m1: map<K, V>, k0: K, v0: V, small: map<K, V>)
    requires k0 !in small && k0 !in m1
    ensures MapMerger(Throwing, m1[k0 := v0], small) == MapMerger(Throwing, m1, small[k0 := v0])
  {
    var m1', big := m1[k0 := v0], small[k0 := v0];
    assert m1.Keys * big.Keys == m1'.Keys * small.Keys;
    var l, r := MapMerger(Throwing, m1', small), MapMerger(Throwing, m1, big);
    if l.Success? {
      assert l.value.Keys == r.value.Keys;
      forall k | k in l.value ensures l.value[k] == r.value[k] {
      }
      assert l.value == r.value;
    }
  }

  lemma MergerStepCombining<K(!new), V(!new)>(f: (V, V) -> V, m1: map<K, V>, k0: K, v0: V, small: map<K, V>)
    requires k0 !in small
    ensures var m1' := if k0 in m1 then m1[k0 := f(m1[k0], v0)] else m1[k0 := v0];
      MapMerger(Combining(f), m1', small) == MapMerger(Combining(f), m1, small[k0 := v0])
  {
    var m1' := if k0 in m1 then m1[k0 := f(m1[k0], v0)] else m1[k0 := v0];
    var big := small[k0 := v0];
    var l, r := MapMerger(Combining(f), m1', small).value, MapMerger(Combining(f), m1, big).value;
    assert l.Keys == r.Keys;
    forall k | k in l ensures l[k] == r[k] {
    }
    assert l == r;
  }

  /** The loop of `mapMerger`, in any order that lists every key of `m2` once,
      computes `MapMerger`: with a throwing merge function it fails exactly when
      the maps share a key; otherwise every key of either map is kept, with the
      merged value where both have it. */
  lemma MapMergerIsLoop<K(!new), V(!new)>(p: MergePolicy<V>, m1: map<K, V>, m2: map<K, V>, ks: seq<K>)
    requires Distinct(ks) && (forall i :: 0 <= i < |ks| ==> ks[i] in m2) && (forall k :: k in m2 ==> k in ks)
    ensures var r := MergeLoop(p, Success(m1), m2, ks);
      && (r.Failure? <==> p.Throwing? && exists k :: k in m1 && k in m2)
      && (r.Failure? ==> r.error == DuplicateKey)
      && (r.Success? ==> r.value.Keys == m1.Keys + m2.Keys)
      && (r.Success? ==> forall k :: k in m1 && k !in m2 ==> r.value[k] == m1[k])
      && (r.Success? ==> forall k :: k in m2 && k !in m1 ==> r.value[k] == m2[k])
      && (r.Success? ==> forall k :: k in m1 && k in m2 ==> p.Combining? && r.value[k] == p.f(m1[k], m2[k]))
  {
    MergeLoopRestrict(p, m1, m2, ks);
    assert Restrict(m2, ks) == m2;
    if p.Throwing? && exists k :: k in m1 && k in m2 {
      var k :| k in m1 && k in m2;
      assert k in m1.Keys * m2.Keys;
    }
  }

  // ---------------------------------------------------------------- toMap

  /** The collector behind `toMap(keyMapper, valueMapper, mergeFunction, mapSupplier)`
      and `toConcurrentMap(...)`, which differ only in their characteristics. An
      exception ends the reduction: the failure is kept and finish passes it on. */
  function MapCollector<T(!new), K(!new, ==), V(!new)>(key: T -> K, val: T -> V, p: MergePolicy<V>, chars: set<Characteristic>)
    : (c: Collector<T, Result<map<K, V>>, Result<map<K, V>>>)
    ensures c.chars == chars && c.finished.None?
  {
    Collector(Success(map[]),
      (r: Result<map<K, V>>, t: T) => if r.Failure? then r else AddToMap(p, r.value, key(t), val(t)),
      (r1: Result<map<K, V>>, r2: Result<map<K, V>>) =>
        if r1.Failure? then r1 else if r2.Failure? then r2 else MapMerger(p, r1.value, r2.value),
      (r: Result<map<K, V>>) => r,
      None, chars)
  }

  /** `toMap(...)`: `CH_ID`. */
  function ToMap<T(!new), K(!new, ==), V(!new)>(key: T -> K, val: T -> V, p: MergePolicy<V>)
    : (c: Collector<T, Result<map<K, V>>, Result<map<K, V>>>)
    ensures c.chars == {IdentityFinish} && c.finished.None?
  {
    MapCollector(key, val, p, {IdentityFinish})
  }

  /** `toConcurrentMap(...)`: `CH_CONCURRENT_ID`; concurrency is only this flag. */
  function ToConcurrentMap<T(!new), K(!new, ==), V(!new)>(key: T -> K, val: T -> V, p: MergePolicy<V>)
    : (c: Collector<T, Result<map<K, V>>, Result<map<K, V>>>)
    ensures c.chars == {Concurrent, Unordered, IdentityFinish} && c.finished.None?
  {
    MapCollector(key, val, p, {Concurrent, Unordered, IdentityFinish})
  }

  // ---------------------------------------------------------------- reference: values per key

  function KeyIs<T, K(==)>(key: T -> K, k: K): T -> bool
  {
    (x: T) => key(x) == k
  }

  /** The values of the elements with key `k`, in encounter order. */
  function ValuesOf<T, K(==), V>(key: T -> K, val: T -> V, k: K, xs: seq<T>): seq<V>
  {
    Map(val, Filter(KeyIs(key, k), xs))
  }

  function KeysOf<T, K>(key: T -> K, xs: seq<T>): set<K>
  {
    set i | 0 <= i < |xs| :: key(xs[i])
  }

  /** The left-to-right reduction of a non-empty sequence of values. */
  function Reduce<V>(f: (V, V) -> V, vs: seq<V>): V
    requires |vs| > 0
    decreases |vs|
  {
    if |vs| == 1 then vs[0] else f(Reduce(f, vs[..|vs| - 1]), vs[|vs| - 1])
  }

  /** The value a key ends with: the reduction of its values, or with a throwing
      merge function (where a key has one value) that value. */
  function Reduced<V>(p: MergePolicy<V>, vs: seq<V>): V
    requires |vs| > 0
  {
    if p.Combining? then Reduce(p.f, vs) else vs[|vs| - 1]
  }

  ghost predicate DistinctKeys<T, K>(key: T -> K, xs: seq<T>)
  {
    forall i, j :: 0 <= i < j < |xs| ==> key(xs[i]) != key(xs[j])
  }

  /** What `toMap` promises of `xs`: a throwing merge function fails exactly on a
      repeated key, and otherwise the map holds every key with its values reduced
      in encounter order. */
  ghost predicate IsToMapResult<T, K, V>(key: T -> K, val: T -> V, p: MergePolicy<V>, xs: seq<T>, r: Result<map<K, V>>)
  {
    && (r.Success? <==> (p.Throwing? ==> DistinctKeys(key, xs)))
    && (r.Failure? ==> r.error == DuplicateKey)
    && (r.Success? ==> r.value.Keys == KeysOf(key, xs))
    && (r.Success? ==> forall k :: k in r.value ==>
          |ValuesOf(key, val, k, xs)| > 0 && r.value[k] == Reduced(p, ValuesOf(key, val, k, xs)))
  }

  lemma IsToMapResultUnique<T, K, V>(key: T -> K, val: T -> V, p: MergePolicy<V>, xs: seq<T>, r1: Result<map<K, V>>, r2: Result<map<K, V>>)
    requires IsToMapResult(key, val, p, xs, r1) && IsToMapResult(key, val, p, xs, r2)
    ensures r1 == r2
  {
    if r1.Success? {
      assert r1.value == r2.value;
    }
  }

  lemma ValuesOfAppend<T, K, V>(key: T -> K, val: T -> V, k: K, xs: seq<T>, ys: seq<T>)
    ensures ValuesOf(key, val, k, xs + ys) == ValuesOf(key, val, k, xs) + ValuesOf(key, val, k, ys)
  {
    FilterAppend(KeyIs(key, k), xs, ys);
    MapAppend(val, Filter(KeyIs(key, k), xs), Filter(KeyIs(key, k), ys));
  }

  lemma ValuesOfSnoc<T, K, V>(key: T -> K, val: T -> V, k: K, xs: seq<T>, t: T)
    ensures ValuesOf(key, val, k, xs + [t]) == ValuesOf(key, val, k, xs) + (if key(t) == k then [val(t)] else [])
  {
    ValuesOfAppend(key, val, k, xs, [t]);
    FilterSingle(KeyIs(key, k), t);
  }

  lemma ValuesOfAbsent<T, K, V>(key: T -> K, val: T -> V, k: K, xs: seq<T>)
    requires k !in KeysOf(key, xs)
    ensures ValuesOf(key, val, k, xs) == []
  {
    assert forall i :: 0 <= i < |xs| ==> !KeyIs(key, k)(xs[i]) by {
      forall i | 0 <= i < |xs| ensures !KeyIs(key, k)(xs[i]) {
        assert key(xs[i]) in KeysOf(key, xs);
      }
    }
    FilterAllOrNone(KeyIs(key, k), xs);
  }

  lemma KeysOfSnoc<T, K>(key: T -> K, xs: seq<T>, t: T)
    ensures KeysOf(key, xs + [t]) == KeysOf(key, xs) + {key(t)}
    ensures DistinctKeys(key, xs + [t]) <==> DistinctKeys(key, xs) && key(t) !in KeysOf(key, xs)
  {
    var xs1 := xs + [t];
    assert forall i :: 0 <= i < |xs| ==> xs1[i] == xs[i];
    assert key(xs1[|xs|]) == key(t);
    if key(t) in KeysOf(key, xs) {
      var i :| 0 <= i < |xs| && key(xs[i]) == key(t);
      assert key(xs1[i]) == key(xs1[|xs|]);
    }
  }

  lemma KeysOfAppend<T, K>(key: T -> K, xs: seq<T>, ys: seq<T>)
    ensures KeysOf(key, xs + ys) == KeysOf(key, xs) + KeysOf(key, ys)
    ensures DistinctKeys(key, xs + ys) <==>
      DistinctKeys(key, xs) && DistinctKeys(key, ys) && KeysOf(key, xs) * KeysOf(key, ys) == {}
  {
    var zs := xs + ys;
    assert forall i :: 0 <= i < |xs| ==> zs[i] == xs[i];
    assert forall i :: 0 <= i < |ys| ==> zs[|xs| + i] == ys[i];
    forall k | k in KeysOf(key, zs) ensures k in KeysOf(key, xs) + KeysOf(key, ys) {
      var i :| 0 <= i < |zs| && key(zs[i]) == k;
      if i >= |xs| {
        assert key(ys[i - |xs|]) == k;
      }
    }
    forall k | k in KeysOf(key, ys) ensures k in KeysOf(key, zs) {
      var i :| 0 <= i < |ys| && key(ys[i]) == k;
      assert key(zs[|xs| + i]) == k;
    }
    if DistinctKeys(key, zs) {
      forall i, j | 0 <= i < |xs| && 0 <= j < |ys| ensures key(xs[i]) != key(ys[j]) {
        assert key(zs[i]) != key(zs[|xs| + j]);
      }
      forall k | k in KeysOf(key, xs) ensures k !in KeysOf(key, ys) {
        var i :| 0 <= i < |xs| && key(xs[i]) == k;
        assert forall j :: 0 <= j < |ys| ==> key(ys[j]) != k;
      }
    }
    if DistinctKeys(key, xs) && DistinctKeys(key, ys) && KeysOf(key, xs) * KeysOf(key, ys) == {} {
      forall i, j | 0 <= i < j < |zs| ensures key(zs[i]) != key(zs[j]) {
        if j < |xs| {
          assert zs[i] == xs[i] && zs[j] == xs[j];
          assert key(xs[i]) != key(xs[j]);
        } else if i < |xs| {
          var a, b := key(xs[i]), key(ys[j - |xs|]);
          assert a in KeysOf(key, xs);
          assert b in KeysOf(key, ys);
          assert a !in KeysOf(key, xs) * KeysOf(key, ys);
          assert zs[i] == xs[i] && zs[j] == ys[j - |xs|];
        } else {
          assert zs[i] == ys[i - |xs|] && zs[j] == ys[j - |xs|];
          assert key(ys[i - |xs|]) != key(ys[j - |xs|]);
        }
      }
    }
  }

  /** One more element keeps the promise. */
  lemma MapCollectorStep<T(!new), K(!new), V(!new)>(
    key: T -> K, val: T -> V, p: MergePolicy<V>, xs: seq<T>, t: T, r: Result<map<K, V>>)
    requires IsToMapResult(key, val, p, xs, r)
    ensures IsToMapResult(key, val, p, xs + [t],
      if r.Failure? then r else AddToMap(p, r.value, key(t), val(t)))
  {
    KeysOfSnoc(key, xs, t);
    if r.Success? {
      var m := r.value;
      var r' := AddToMap(p, m, key(t), val(t));
      if r'.Success? {
        forall k | k in r'.value
          ensures |ValuesOf(key, val, k, xs + [t])| > 0 && r'.value[k] == Reduced(p, ValuesOf(key, val, k, xs + [t]))
        {
          StepValue(key, val, p, xs, t, m, k);
        }
      }
    }
  }

  lemma StepValue<T, K(!new), V>(key: T -> K, val: T -> V, p: MergePolicy<V>, xs: seq<T>, t: T, m: map<K, V>, k: K)
    requires m.Keys == KeysOf(key, xs)
    requires k in m ==> |ValuesOf(key, val, k, xs)| > 0 && m[k] == Reduced(p, ValuesOf(key, val, k, xs))
    requires AddToMap(p, m, key(t), val(t)).Success? && k in AddToMap(p, m, key(t), val(t)).value
    ensures |ValuesOf(key, val, k, xs + [t])| > 0
    ensures AddToMap(p, m, key(t), val(t)).value[k] == Reduced(p, ValuesOf(key, val, k, xs + [t]))
  {
    ValuesOfSnoc(key, val, k, xs, t);
    if k == key(t) && k !in m {
      ValuesOfAbsent(key, val, k, xs);
      assert ValuesOf(key, val, k, xs + [t]) == [val(t)];
    } else if k == key(t) {
      var vs := ValuesOf(key, val, k, xs);
      assert p.Combining? && AddToMap(p, m, k, val(t)).value[k] == p.f(m[k], val(t));
      assert (vs + [val(t)])[..|vs|] == vs;
      assert Reduce(p.f, vs + [val(t)]) == p.f(Reduce(p.f, vs), val(t));
      assert m[k] == Reduce(p.f, vs);
      assert ValuesOf(key, val, k, xs + [t]) == vs + [val(t)];
      assert Reduced(p, vs + [val(t)]) == Reduce(p.f, vs + [val(t)]);
    } else {
      var vs := ValuesOf(key, val, k, xs);
      assert vs + [] == vs;
      assert k in m;
      assert AddToMap(p, m, key(t), val(t)).value[k] == m[k];
    }
  }

  lemma {:induction false} MapCollectorFoldAll<T(!new), K(!new), V(!new)>(
    key: T -> K, val: T -> V, p: MergePolicy<V>, chars: set<Characteristic>, xs: seq<T>)
    ensures IsToMapResult(key, val, p, xs, FoldAll(MapCollector(key, val, p, chars), xs))
    decreases |xs|
  {
    if |xs| == 0 {
      assert KeysOf(key, xs) == {};
    } else {
      var xs', t := xs[..|xs| - 1], xs[|xs| - 1];
      MapCollectorFoldAll(key, val, p, chars, xs');
      SplitLast(xs);
      MapCollectorStep(key, val, p, xs', t, FoldAll(MapCollector(key, val, p, chars), xs'));
    }
  }

  /** `toMap` (and `toConcurrentMap`) collect every key with its values reduced
      by the merge function in encounter order; with `throwingMerger()` a repeated
      key raises `IllegalStateException`. */
  lemma ToMapCollect<T(!new), K(!new), V(!new)>(key: T -> K, val: T -> V, p: MergePolicy<V>, xs: seq<T>)
    ensures IsToMapResult(key, val, p, xs, Collect(ToMap(key, val, p), xs))
    ensures IsToMapResult(key, val, p, xs, Collect(ToConcurrentMap(key, val, p), xs))
  {
    MapCollectorFoldAll(key, val, p, {IdentityFinish}, xs);
    MapCollectorFoldAll(key, val, p, {Concurrent, Unordered, IdentityFinish}, xs);
  }

  ghost predicate Associative<V(!new)>(f: (V, V) -> V)
  {
    forall a: V, b: V, c: V :: f(f(a, b), c) == f(a, f(b, c))
  }

  lemma {:induction false} ReduceAppend<V(!new)>(f: (V, V) -> V, vs: seq<V>, ws: seq<V>)
    requires Associative(f) && |vs| > 0 && |ws| > 0
    ensures Reduce(f, vs + ws) == f(Reduce(f, vs), Reduce(f, ws))
    decreases |ws|
  {
    var zs := vs + ws;
    if |ws| == 1 {
      assert zs[..|zs| - 1] == vs;
    } else {
      var ws' := ws[..|ws| - 1];
      assert zs[..|zs| - 1] == vs + ws';
      ReduceAppend(f, vs, ws');
    }
  }

  lemma MergeValue<T, K(!new), V(!new)>(key: T -> K, val: T -> V, p: MergePolicy<V>, xs: seq<T>, ys: seq<T>, m1: map<K, V>, m2: map<K, V>, k: K)
    requires p.Combining? ==> Associative(p.f)
    requires m1.Keys == KeysOf(key, xs) && m2.Keys == KeysOf(key, ys)
    requires k in m1 ==> |ValuesOf(key, val, k, xs)| > 0 && m1[k] == Reduced(p, ValuesOf(key, val, k, xs))
    requires k in m2 ==> |ValuesOf(key, val, k, ys)| > 0 && m2[k] == Reduced(p, ValuesOf(key, val, k, ys))
    requires MapMerger(p, m1, m2).Success? && k in MapMerger(p, m1, m2).value
    ensures |ValuesOf(key, val, k, xs + ys)| > 0
    ensures MapMerger(p, m1, m2).value[k] == Reduced(p, ValuesOf(key, val, k, xs + ys))
  {
    ValuesOfAppend(key, val, k, xs, ys);
    if k !in m1 {
      ValuesOfAbsent(key, val, k, xs);
      assert ValuesOf(key, val, k, xs + ys) == ValuesOf(key, val, k, ys);
    } else if k !in m2 {
      ValuesOfAbsent(key, val, k, ys);
      assert ValuesOf(key, val, k, xs + ys) == ValuesOf(key, val, k, xs);
    } else {
      assert k in m1.Keys * m2.Keys;
      ReduceAppend(p.f, ValuesOf(key, val, k, xs), ValuesOf(key, val, k, ys));
    }
  }

  /** Merging the results of two partitions gives the result of their concatenation. */
  lemma MapMergeStep<T(!new), K(!new), V(!new)>(
    key: T -> K, val: T -> V, p: MergePolicy<V>, xs: seq<T>, ys: seq<T>, r1: Result<map<K, V>>, r2: Result<map<K, V>>)
    requires p.Combining? ==> Associative(p.f)
    requires IsToMapResult(key, val, p, xs, r1) && IsToMapResult(key, val, p, ys, r2)
    ensures IsToMapResult(key, val, p, xs + ys,
      if r1.Failure? then r1 else if r2.Failure? then r2 else MapMerger(p, r1.value, r2.value))
  {
    KeysOfAppend(key, xs, ys);
    if r1.Success? && r2.Success? {
      var m1, m2 := r1.value, r2.value;
      var r := MapMerger(p, m1, m2);
      if r.Success? {
        assert r.value.Keys == m1.Keys + m2.Keys;
        MergeValues(key, val, p, xs, ys, m1, m2);
      }
    }
  }

  lemma MergeValues<T, K(!new), V(!new)>(key: T -> K, val: T -> V, p: MergePolicy<V>, xs: seq<T>, ys: seq<T>, m1: map<K, V>, m2: map<K, V>)
    requires p.Combining? ==> Associative(p.f)
    requires m1.Keys == KeysOf(key, xs) && m2.Keys == KeysOf(key, ys)
    requires forall k :: k in m1 ==> |ValuesOf(key, val, k, xs)| > 0 && m1[k] == Reduced(p, ValuesOf(key, val, k, xs))
    requires forall k :: k in m2 ==> |ValuesOf(key, val, k, ys)| > 0 && m2[k] == Reduced(p, ValuesOf(key, val, k, ys))
    requires MapMerger(p, m1, m2).Success?
    ensures forall k :: k in MapMerger(p, m1, m2).value ==>
      |ValuesOf(key, val, k, xs + ys)| > 0 && MapMerger(p, m1, m2).value[k] == Reduced(p, ValuesOf(key, val, k, xs + ys))
  {
    forall k | k in MapMerger(p, m1, m2).value
      ensures |ValuesOf(key, val, k, xs + ys)| > 0 && MapMerger(p, m1, m2).value[k] == Reduced(p, ValuesOf(key, val, k, xs + ys))
    {
      MergeValue(key, val, p, xs, ys, m1, m2, k);
    }
  }

  /** For an associative merge function (or `throwingMerger()`), merging two
      partitions' maps gives the map of their concatenation. */
  lemma MapCollectorMergeSound<T(!new), K(!new), V(!new)>(key: T -> K, val: T -> V, p: MergePolicy<V>, chars: set<Characteristic>)
    requires p.Combining? ==> Associative(p.f)
    ensures MergeSound(MapCollector(key, val, p, chars))
  {
    var c := MapCollector(key, val, p, chars);
    forall xs: seq<T>, ys: seq<T> ensures c.merge(FoldAll(c, xs), FoldAll(c, ys)) == FoldAll(c, xs + ys) {
      MapCollectorFoldAll(key, val, p, chars, xs);
      MapCollectorFoldAll(key, val, p, chars, ys);
      MapCollectorFoldAll(key, val, p, chars, xs + ys);
      MapMergeStep(key, val, p, xs, ys, FoldAll(c, xs), FoldAll(c, ys));
      IsToMapResultUnique(key, val, p, xs + ys, c.merge(FoldAll(c, xs), FoldAll(c, ys)), FoldAll(c, xs + ys));
    }
  }

  /** `toMap` and `toConcurrentMap` merge soundly. */
  lemma ToMapMergeSound<T(!new), K(!new), V(!new)>(key: T -> K, val: T -> V, p: MergePolicy<V>)
    requires p.Combining? ==> Associative(p.f)
    ensures MergeSound(ToMap(key, val, p)) && MergeSound(ToConcurrentMap(key, val, p))
  {
    MapCollectorMergeSound(key, val, p, {IdentityFinish});
    MapCollectorMergeSound(key, val, p, {Concurrent, Unordered, IdentityFinish});
  }

  // ---------------------------------------------------------------- groupingBy(domain, ...)

  /** The exception for a key outside the domain. */
  const OutOfDomain: Error := IllegalState("Classifier returned value which is out of domain")

  /** The exception `Objects.requireNonNull` raises for a null key. */
  const NullKey: Error := NullPointer("")

  /** The classifier gives `t` a key of the domain (`None` stands for `null`). */
  function Classified<T, K>(domain: set<K>, classifier: T -> Option<K>): T -> bool
  {
    (t: T) => classifier(t).Some? && classifier(t).value in domain
  }

  function ClassIs<T, K(==)>(classifier: T -> Option<K>, k: K): T -> bool
  {
    (t: T) => classifier(t) == Some(k)
  }

  /** The accumulator: `requireNonNull` of the key, then `computeIfAbsent`, whose
      supplier rejects a key outside the domain, then the downstream fold. */
  function GroupFold<T(!new), K(==), A(!new), R(!new)>(
    domain: set<K>, classifier: T -> Option<K>, d: Collector<T, A, R>, r: Result<map<K, A>>, t: T): Result<map<K, A>>
  {
    if r.Failure? then r
    else match classifier(t)
      case None => Failure(NullKey)
      case Some(k) =>
        if k in r.value then Success(r.value[k := d.fold(r.value[k], t)])
        else if k !in domain then Failure(OutOfDomain)
        else Success(r.value[k := d.fold(d.create, t)])
  }

  /** Key-wise downstream merge of two partitions' maps. */
  function GroupMerge<T(!new), K(==), A(!new), R(!new)>(d: Collector<T, A, R>, r1: Result<map<K, A>>, r2: Result<map<K, A>>): Result<map<K, A>>
  {
    if r1.Failure? then r1
    else if r2.Failure? then r2
    else
      var m1, m2 := r1.value, r2.value;
      Success(map k | k in m1.Keys + m2.Keys ::
        if k in m1 && k in m2 then d.merge(m1[k], m2[k]) else if k in m1 then m1[k] else m2[k])
  }

  /** The downstream finisher on every container, then every domain key the
      input never produced mapped to the finisher of a fresh container. */
  function GroupFinish<T(!new), K(==), A(!new), R(!new)>(domain: set<K>, d: Collector<T, A, R>, r: Result<map<K, A>>): Result<map<K, R>>
  {
    if r.Failure? then Failure(r.error)
    else Success(map k | k in r.value.Keys + domain :: if k in r.value then d.finish(r.value[k]) else d.finish(d.create))
  }

  /** Finished once the map holds at least `domain.size()` keys and every
      container is finished. A failed state is finished too: the exception ends
      the reduction. */
  function GroupFinished<K, A>(domain: set<K>, df: A -> bool): Result<map<K, A>> -> bool
  {
    (r: Result<map<K, A>>) => r.Failure? || (|r.value| >= |domain| && forall k :: k in r.value ==> df(r.value[k]))
  }

  /** `groupingBy(domain, classifier, downstream, mapFactory)`: cancellable
      exactly when the downstream is. */
  function GroupingBy<T(!new), K(!new, ==), A(!new), R(!new)>(domain: set<K>, classifier: T -> Option<K>, d: Collector<T, A, R>)
    : (c: Collector<T, Result<map<K, A>>, Result<map<K, R>>>)
    ensures c.chars == {}
    ensures c.finished.Some? <==> d.finished.Some?
    ensures forall m :: IsFinished(c, Success(m)) <==>
      d.finished.Some? && |m| >= |domain| && forall k :: k in m ==> IsFinished(d, m[k])
  {
    Collector(Success(map[]),
      (r: Result<map<K, A>>, t: T) => GroupFold(domain, classifier, d, r, t),
      (r1: Result<map<K, A>>, r2: Result<map<K, A>>) => GroupMerge(d, r1, r2),
      (r: Result<map<K, A>>) => GroupFinish(domain, d, r),
      if d.finished.None? then None else Some(GroupFinished(domain, d.finished.value)),
      {})
  }

  /** The keys the classifier produced for `xs`. */
  function ClassesOf<T, K>(classifier: T -> Option<K>, xs: seq<T>): set<K>
  {
    set i | 0 <= i < |xs| && classifier(xs[i]).Some? :: classifier(xs[i]).value
  }

  /** The state of `groupingBy` after `xs`: it fails at the first element without
      a key of the domain, with the exception that element raises; otherwise each
      key produced holds the downstream state of its own elements. */
  ghost predicate IsGroupState<T(!new), K, A(!new), R(!new)>(
    domain: set<K>, classifier: T -> Option<K>, d: Collector<T, A, R>, xs: seq<T>, r: Result<map<K, A>>)
  {
    var i := AllMatch.FirstMiss(Classified(domain, classifier), xs, 0);
    && (r.Success? <==> i == |xs|)
    && (r.Failure? ==> i < |xs| && r.error == if classifier(xs[i]).None? then NullKey else OutOfDomain)
    && (r.Success? ==> r.value.Keys == ClassesOf(classifier, xs) && r.value.Keys <= domain)
    && (r.Success? ==> forall k :: k in r.value ==> r.value[k] == FoldAll(d, Filter(ClassIs(classifier, k), xs)))
  }

  lemma IsGroupStateUnique<T(!new), K, A(!new), R(!new)>(
    domain: set<K>, classifier: T -> Option<K>, d: Collector<T, A, R>, xs: seq<T>, r1: Result<map<K, A>>, r2: Result<map<K, A>>)
    requires IsGroupState(domain, classifier, d, xs, r1) && IsGroupState(domain, classifier, d, xs, r2)
    ensures r1 == r2
  {
    if r1.Success? {
      assert r1.value == r2.value;
    }
  }

  lemma ClassAbsent<T, K>(classifier: T -> Option<K>, k: K, xs: seq<T>)
    requires k !in ClassesOf(classifier, xs)
    ensures Filter(ClassIs(classifier, k), xs) == []
  {
    assert forall i :: 0 <= i < |xs| ==> !ClassIs(classifier, k)(xs[i]) by {
      forall i | 0 <= i < |xs| ensures !ClassIs(classifier, k)(xs[i]) {
        if classifier(xs[i]).Some? {
          assert classifier(xs[i]).value in ClassesOf(classifier, xs);
        }
      }
    }
    FilterAllOrNone(ClassIs(classifier, k), xs);
  }

  lemma ClassesOfAppend<T, K>(classifier: T -> Option<K>, xs: seq<T>, ys: seq<T>)
    ensures ClassesOf(classifier, xs + ys) == ClassesOf(classifier, xs) + ClassesOf(classifier, ys)
  {
    var zs := xs + ys;
    assert forall i :: 0 <= i < |xs| ==> zs[i] == xs[i];
    assert forall i :: 0 <= i < |ys| ==> zs[|xs| + i] == ys[i];
    forall k | k in ClassesOf(classifier, zs) ensures k in ClassesOf(classifier, xs) + ClassesOf(classifier, ys) {
      var i :| 0 <= i < |zs| && classifier(zs[i]).Some? && classifier(zs[i]).value == k;
      if i >= |xs| {
        assert zs[i] == ys[i - |xs|];
      }
    }
    forall k | k in ClassesOf(classifier, ys) ensures k in ClassesOf(classifier, zs) {
      var i :| 0 <= i < |ys| && classifier(ys[i]).Some? && classifier(ys[i]).value == k;
      assert zs[|xs| + i] == ys[i];
    }
  }

  lemma ClassesOfSingle<T, K>(classifier: T -> Option<K>, t: T)
    ensures ClassesOf(classifier, [t]) == if classifier(t).Some? then {classifier(t).value} else {}
  {
    assert [t][0] == t;
    if classifier(t).Some? {
      assert classifier([t][0]).value in ClassesOf(classifier, [t]);
    }
  }

  /** For a map whose keys lie in the domain, holding at least `domain.size()`
      keys means holding every key of the domain. */
  lemma SizeMeansAll<K, A>(m: map<K, A>, domain: set<K>)
    requires m.Keys <= domain
    ensures |m| >= |domain| <==> m.Keys == domain
  {
    assert |m.Keys| == |m|;
    assert |domain| == |m.Keys| + |domain - m.Keys| by {
      assert domain == m.Keys + (domain - m.Keys);
    }
    if |m| >= |domain| {
      SetCollectors.SubsetOfEqualSize(m.Keys, domain);
    }
  }

  lemma FirstMissAppend<T>(p: T -> bool, xs: seq<T>, ys: seq<T>)
    ensures AllMatch.FirstMiss(p, xs + ys, 0) ==
      var i := AllMatch.FirstMiss(p, xs, 0);
      if i < |xs| then i else |xs| + AllMatch.FirstMiss(p, ys, 0)
  {
    var zs := xs + ys;
    var i, j := AllMatch.FirstMiss(p, xs, 0), AllMatch.FirstMiss(p, ys, 0);
    assert forall n :: 0 <= n < |xs| ==> zs[n] == xs[n];
    assert forall n :: 0 <= n < |ys| ==> zs[|xs| + n] == ys[n];
    if i < |xs| {
      AllMatch.FirstMissUnique(p, zs, 0, i);
    } else {
      forall n | 0 <= n < |xs| + j ensures p(zs[n]) {
        if n >= |xs| {
          assert zs[n] == ys[n - |xs|];
        }
      }
      AllMatch.FirstMissUnique(p, zs, 0, |xs| + j);
    }
  }

  lemma GroupStepValue<T(!new), K, A(!new), R(!new)>(
    domain: set<K>, classifier: T -> Option<K>, d: Collector<T, A, R>, xs: seq<T>, t: T, m: map<K, A>, k: K)
    requires m.Keys == ClassesOf(classifier, xs)
    requires k in m ==> m[k] == FoldAll(d, Filter(ClassIs(classifier, k), xs))
    requires GroupFold(domain, classifier, d, Success(m), t).Success?
    requires k in GroupFold(domain, classifier, d, Success(m), t).value
    ensures GroupFold(domain, classifier, d, Success(m), t).value[k] == FoldAll(d, Filter(ClassIs(classifier, k), xs + [t]))
  {
    var f := Filter(ClassIs(classifier, k), xs);
    FilterAppend(ClassIs(classifier, k), xs, [t]);
    FilterSingle(ClassIs(classifier, k), t);
    if classifier(t) == Some(k) {
      if k !in m {
        ClassAbsent(classifier, k, xs);
        assert f + [t] == [t];
      }
      FoldFromSnoc(d, d.create, f, t);
    } else {
      assert f + [] == f;
    }
  }

  lemma GroupStep<T(!new), K, A(!new), R(!new)>(
    domain: set<K>, classifier: T -> Option<K>, d: Collector<T, A, R>, xs: seq<T>, t: T, r: Result<map<K, A>>)
    requires IsGroupState(domain, classifier, d, xs, r)
    ensures IsGroupState(domain, classifier, d, xs + [t], GroupFold(domain, classifier, d, r, t))
  {
    var p := Classified(domain, classifier);
    AllMatch.FirstMissSnoc(p, xs, t);
    var xs1 := xs + [t];
    assert forall n :: 0 <= n < |xs| ==> xs1[n] == xs[n];
    ClassesOfAppend(classifier, xs, [t]);
    ClassesOfSingle(classifier, t);
    var r' := GroupFold(domain, classifier, d, r, t);
    if r'.Success? {
      forall k | k in r'.value ensures r'.value[k] == FoldAll(d, Filter(ClassIs(classifier, k), xs1)) {
        GroupStepValue(domain, classifier, d, xs, t, r.value, k);
      }
    }
  }

  lemma {:induction false} GroupingFoldAll<T(!new), K(!new), A(!new), R(!new)>(
    domain: set<K>, classifier: T -> Option<K>, d: Collector<T, A, R>, xs: seq<T>)
    ensures IsGroupState(domain, classifier, d, xs, FoldAll(GroupingBy(domain, classifier, d), xs))
    decreases |xs|
  {
    if |xs| == 0 {
      assert ClassesOf(classifier, xs) == {};
    } else {
      var xs', t := xs[..|xs| - 1], xs[|xs| - 1];
      GroupingFoldAll(domain, classifier, d, xs');
      SplitLast(xs);
      GroupStep(domain, classifier, d, xs', t, FoldAll(GroupingBy(domain, classifier, d), xs'));
    }
  }

  /** `groupingBy(domain, ...)` fails at the first element whose key is null
      (`NullPointerException`) or outside the domain (`IllegalStateException`);
      otherwise the map holds exactly the domain's keys, each mapped to the
      downstream result of the elements with that key, which is the result of
      an empty input for a key no element has. */
  lemma GroupingCollect<T(!new), K(!new), A(!new), R(!new)>(
    domain: set<K>, classifier: T -> Option<K>, d: Collector<T, A, R>, xs: seq<T>)
    ensures var r, i := Collect(GroupingBy(domain, classifier, d), xs), AllMatch.FirstMiss(Classified(domain, classifier), xs, 0);
      && (r.Success? <==> forall j :: 0 <= j < |xs| ==> classifier(xs[j]).Some? && classifier(xs[j]).value in domain)
      && (r.Failure? ==> i < |xs| && r.error == if classifier(xs[i]).None? then NullKey else OutOfDomain)
      && (r.Success? ==> r.value.Keys == domain)
      && (r.Success? ==> forall k :: k in domain ==> r.value[k] == Collect(d, Filter(ClassIs(classifier, k), xs)))
  {
    GroupingFoldAll(domain, classifier, d, xs);
    var a := FoldAll(GroupingBy(domain, classifier, d), xs);
    assert Collect(GroupingBy(domain, classifier, d), xs) == GroupFinish(domain, d, a);
    GroupStateOutcome(domain, classifier, d, xs, a);
    if a.Success? {
      GroupStateFinish(domain, classifier, d, xs, a.value);
    }
  }

  lemma GroupStateOutcome<T(!new), K, A(!new), R(!new)>(
    domain: set<K>, classifier: T -> Option<K>, d: Collector<T, A, R>, xs: seq<T>, a: Result<map<K, A>>)
    requires IsGroupState(domain, classifier, d, xs, a)
    ensures a.Success? <==> forall j :: 0 <= j < |xs| ==> classifier(xs[j]).Some? && classifier(xs[j]).value in domain
  {
    var i := AllMatch.FirstMiss(Classified(domain, classifier), xs, 0);
    if i < |xs| {
      assert !Classified(domain, classifier)(xs[i]);
    }
  }

  lemma GroupStateFinish<T(!new), K, A(!new), R(!new)>(
    domain: set<K>, classifier: T -> Option<K>, d: Collector<T, A, R>, xs: seq<T>, m: map<K, A>)
    requires IsGroupState(domain, classifier, d, xs, Success(m))
    ensures var r := GroupFinish(domain, d, Success(m));
      && r.Success? && r.value.Keys == domain
      && forall k :: k in domain ==> r.value[k] == Collect(d, Filter(ClassIs(classifier, k), xs))
  {
    forall k | k in domain && k !in m ensures Filter(ClassIs(classifier, k), xs) == [] {
      ClassAbsent(classifier, k, xs);
    }
  }

  lemma GroupMergeValue<T(!new), K, A(!new), R(!new)>(
    d: Collector<T, A, R>, classifier: T -> Option<K>, xs: seq<T>, ys: seq<T>, m1: map<K, A>, m2: map<K, A>, k: K)
    requires MergeSound(d)
    requires m1.Keys == ClassesOf(classifier, xs) && m2.Keys == ClassesOf(classifier, ys)
    requires k in m1 ==> m1[k] == FoldAll(d, Filter(ClassIs(classifier, k), xs))
    requires k in m2 ==> m2[k] == FoldAll(d, Filter(ClassIs(classifier, k), ys))
    requires k in GroupMerge(d, Success(m1), Success(m2)).value
    ensures GroupMerge(d, Success(m1), Success(m2)).value[k] == FoldAll(d, Filter(ClassIs(classifier, k), xs + ys))
  {
    var fx, fy := Filter(ClassIs(classifier, k), xs), Filter(ClassIs(classifier, k), ys);
    FilterAppend(ClassIs(classifier, k), xs, ys);
    if k !in m1 {
      ClassAbsent(classifier, k, xs);
      assert fx + fy == fy;
    } else if k !in m2 {
      ClassAbsent(classifier, k, ys);
      assert fx + fy == fx;
    } else {
      assert d.merge(FoldAll(d, fx), FoldAll(d, fy)) == FoldAll(d, fx + fy);
    }
  }

  lemma GroupMergeStep<T(!new), K, A(!new), R(!new)>(
    domain: set<K>, classifier: T -> Option<K>, d: Collector<T, A, R>, xs: seq<T>, ys: seq<T>, r1: Result<map<K, A>>, r2: Result<map<K, A>>)
    requires MergeSound(d)
    requires IsGroupState(domain, classifier, d, xs, r1) && IsGroupState(domain, classifier, d, ys, r2)
    ensures IsGroupState(domain, classifier, d, xs + ys, GroupMerge(d, r1, r2))
  {
    var p := Classified(domain, classifier);
    FirstMissAppend(p, xs, ys);
    ClassesOfAppend(classifier, xs, ys);
    var zs := xs + ys;
    assert forall n :: 0 <= n < |xs| ==> zs[n] == xs[n];
    assert forall n :: 0 <= n < |ys| ==> zs[|xs| + n] == ys[n];
    var r := GroupMerge(d, r1, r2);
    if r1.Success? && r2.Success? {
      forall k | k in r.value ensures r.value[k] == FoldAll(d, Filter(ClassIs(classifier, k), zs)) {
        GroupMergeValue(d, classifier, xs, ys, r1.value, r2.value, k);
      }
    }
  }

  /** With a downstream whose merge is sound, merging two partitions' states
      gives the state of their concatenation, failures included. */
  lemma GroupingMergeSound<T(!new), K(!new), A(!new), R(!new)>(domain: set<K>, classifier: T -> Option<K>, d: Collector<T, A, R>)
    requires MergeSound(d)
    ensures MergeSound(GroupingBy(domain, classifier, d))
  {
    var c := GroupingBy(domain, classifier, d);
    forall xs: seq<T>, ys: seq<T> ensures c.merge(FoldAll(c, xs), FoldAll(c, ys)) == FoldAll(c, xs + ys) {
      GroupingFoldAll(domain, classifier, d, xs);
      GroupingFoldAll(domain, classifier, d, ys);
      GroupingFoldAll(domain, classifier, d, xs + ys);
      GroupMergeStep(domain, classifier, d, xs, ys, FoldAll(c, xs), FoldAll(c, ys));
      IsGroupStateUnique(domain, classifier, d, xs + ys, c.merge(FoldAll(c, xs), FoldAll(c, ys)), FoldAll(c, xs + ys));
    }
  }

  /** On a state reached from input, whose keys lie in the domain, "at least
      `domain.size()` keys" means every domain key is present: the collector is
      finished exactly when every key of the domain has a finished container. */
  lemma GroupingFinished<T(!new), K(!new), A(!new), R(!new)>(
    domain: set<K>, classifier: T -> Option<K>, d: Collector<T, A, R>, xs: seq<T>)
    requires d.finished.Some?
    ensures var r := FoldAll(GroupingBy(domain, classifier, d), xs);
      r.Success? ==>
        (IsFinished(GroupingBy(domain, classifier, d), r) <==>
          r.value.Keys == domain && forall k :: k in domain ==> IsFinished(d, r.value[k]))
  {
    GroupingFoldAll(domain, classifier, d, xs);
    var r := FoldAll(GroupingBy(domain, classifier, d), xs);
    if r.Success? {
      SizeMeansAll(r.value, domain);
    }
  }

  /** A finished state with keys in the domain stays finished, given a
      downstream whose finished states stay finished. */
  lemma GroupingKeepsFinished<T(!new), K(!new), A(!new), R(!new)>(
    domain: set<K>, classifier: T -> Option<K>, d: Collector<T, A, R>, m: map<K, A>, t: T)
    requires FoldKeepsFinished(d) && m.Keys <= domain
    requires IsFinished(GroupingBy(domain, classifier, d), Success(m))
    ensures IsFinished(GroupingBy(domain, classifier, d), GroupFold(domain, classifier, d, Success(m), t))
  {
    SizeMeansAll(m, domain);
    var r := GroupFold(domain, classifier, d, Success(m), t);
    if r.Success? {
      var k := classifier(t).value;
      assert r.value == m[k := d.fold(m[k], t)];
      assert |r.value| == |m|;
    }
  }
}
