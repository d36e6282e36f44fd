/** Collectors built out of other collectors: pairing, post-processing,
    filtering, (flat-)mapping, partitioning and the `combine` overloads. */
module Combinators {
  import opened Wrappers
  import opened Seqs
  import opened Collectors

  // ---------------------------------------------------------------- pairing

  /** `pairing(c1, c2, finisher)`: one state per component, every element fed
      to both, the two results combined by `f`. */
  function Pairing<T(!new), A1(!new), A2(!new), R1(!new), R2(!new), R(!new)>(c1: Collector<T, A1, R1>, c2: Collector<T, A2, R2>, f: (R1, R2) -> R)
    : (r: Collector<T, (A1, A2), R>)
    ensures r.chars == c1.chars * c2.chars - {IdentityFinish}
    ensures r.finished.Some? <==> c1.finished.Some? && c2.finished.Some?
    ensures r.finished.Some? ==> forall a :: IsFinished(r, a) <==> IsFinished(c1, a.0) && IsFinished(c2, a.1)
  {
    var finished :=
      if c1.finished.Some? && c2.finished.Some? then
        var p1, p2 := c1.finished.value, c2.finished.value;
        Some((a: (A1, A2)) => p1(a.0) && p2(a.1))
      else None;
    Collector(
      (c1.create, c2.create),
      (a: (A1, A2), t: T) => (c1.fold(a.0, t), c2.fold(a.1, t)),
      (a: (A1, A2), b: (A1, A2)) => (c1.merge(a.0, b.0), c2.merge(a.1, b.1)),
      (a: (A1, A2)) => f(c1.finish(a.0), c2.finish(a.1)),
      finished,
      c1.chars * c2.chars - {IdentityFinish})
  }

  /** Each fold feeds the same element to both components. */
  lemma {:induction false} PairingFoldAll<T(!new), A1(!new), A2(!new), R1(!new), R2(!new), R(!new)>(
    c1: Collector<T, A1, R1>, c2: Collector<T, A2, R2>, f: (R1, R2) -> R, xs: seq<T>)
    ensures FoldAll(Pairing(c1, c2, f), xs) == (FoldAll(c1, xs), FoldAll(c2, xs))
    decreases |xs|
  {
    if |xs| > 0 {
      PairingFoldAll(c1, c2, f, xs[..|xs| - 1]);
    }
  }

  /** The paired result is `f` of the two component results. */
  lemma PairingCollect<T(!new), A1(!new), A2(!new), R1(!new), R2(!new), R(!new)>(
    c1: Collector<T, A1, R1>, c2: Collector<T, A2, R2>, f: (R1, R2) -> R, xs: seq<T>)
    ensures Collect(Pairing(c1, c2, f), xs) == f(Collect(c1, xs), Collect(c2, xs))
  {
    PairingFoldAll(c1, c2, f, xs);
  }

  /** Pairing preserves the merge contract of its components. */
  lemma PairingMergeSound<T(!new), A1(!new), A2(!new), R1(!new), R2(!new), R(!new)>(
    c1: Collector<T, A1, R1>, c2: Collector<T, A2, R2>, f: (R1, R2) -> R)
    requires MergeSound(c1) && MergeSound(c2)
    ensures MergeSound(Pairing(c1, c2, f))
  {
    var p := Pairing(c1, c2, f);
    forall xs: seq<T>, ys: seq<T> ensures p.merge(FoldAll(p, xs), FoldAll(p, ys)) == FoldAll(p, xs + ys) {
      PairingFoldAll(c1, c2, f, xs);
      PairingFoldAll(c1, c2, f, ys);
      PairingFoldAll(c1, c2, f, xs + ys);
    }
  }

  /** The conjunction of two monotone predicates is monotone. */
  lemma PairingKeepsFinished<T(!new), A1(!new), A2(!new), R1(!new), R2(!new), R(!new)>(
    c1: Collector<T, A1, R1>, c2: Collector<T, A2, R2>, f: (R1, R2) -> R)
    requires FoldKeepsFinished(c1) && FoldKeepsFinished(c2)
    requires MergeKeepsFinished(c1) && MergeKeepsFinished(c2)
    ensures FoldKeepsFinished(Pairing(c1, c2, f))
    ensures MergeKeepsFinished(Pairing(c1, c2, f))
  {
  }

  // ------------------------------------------------------ collectingAndThen

  /** `collectingAndThen(downstream, f)`: the downstream reduction followed by
      `f`. A cancellable downstream keeps its predicate and only its UNORDERED
      flag; otherwise the JDK version drops IDENTITY_FINISH. */
  function CollectingAndThen<T(!new), A(!new), R(!new), RR(!new)>(c: Collector<T, A, R>, f: R -> RR): (r: Collector<T, A, RR>)
    ensures r.finished.Some? <==> c.finished.Some?
    ensures forall a :: IsFinished(r, a) <==> IsFinished(c, a)
    ensures c.finished.Some? ==> r.chars == if Unordered in c.chars then {Unordered} else {}
    ensures c.finished.None? ==> r.chars == c.chars - {IdentityFinish}
  {
    Collector(
      c.create, c.fold, c.merge,
      (a: A) => f(c.finish(a)),
      c.finished,
      if c.finished.Some? then (if Unordered in c.chars then {Unordered} else {})
      else c.chars - {IdentityFinish})
  }

  /** Post-processing changes neither the accumulation nor the merge. */
  lemma {:induction false} CollectingAndThenFoldAll<T(!new), A(!new), R(!new), RR(!new)>(c: Collector<T, A, R>, f: R -> RR, xs: seq<T>)
    ensures FoldAll(CollectingAndThen(c, f), xs) == FoldAll(c, xs)
    ensures Collect(CollectingAndThen(c, f), xs) == f(Collect(c, xs))
    decreases |xs|
  {
    if |xs| > 0 {
      CollectingAndThenFoldAll(c, f, xs[..|xs| - 1]);
    }
  }

  lemma CollectingAndThenMergeSound<T(!new), A(!new), R(!new), RR(!new)>(c: Collector<T, A, R>, f: R -> RR)
    requires MergeSound(c)
    ensures MergeSound(CollectingAndThen(c, f))
  {
    var r := CollectingAndThen(c, f);
    forall xs: seq<T>, ys: seq<T> ensures r.merge(FoldAll(r, xs), FoldAll(r, ys)) == FoldAll(r, xs + ys) {
      CollectingAndThenFoldAll(c, f, xs);
      CollectingAndThenFoldAll(c, f, ys);
      CollectingAndThenFoldAll(c, f, xs + ys);
    }
  }

  // -------------------------------------------------------------- filtering

  /** `filtering(p, downstream)`: elements failing `p` are not folded. */
  function Filtering<T(!new), A(!new), R(!new)>(p: T -> bool, c: Collector<T, A, R>): (r: Collector<T, A, R>)
    ensures r.chars == c.chars
    ensures forall a :: IsFinished(r, a) <==> IsFinished(c, a)
  {
    Collector(c.create, (a: A, t: T) => if p(t) then c.fold(a, t) else a, c.merge, c.finish, c.finished, c.chars)
  }

  /** Filtering folds exactly the elements that satisfy the predicate. */
  lemma {:induction false} FilteringFoldFrom<T(!new), A(!new), R(!new)>(p: T -> bool, c: Collector<T, A, R>, a: A, xs: seq<T>)
    ensures FoldFrom(Filtering(p, c), a, xs) == FoldFrom(c, a, Filter(p, xs))
    decreases |xs|
  {
    if |xs| > 0 {
      var xs' := xs[..|xs| - 1];
      var t := xs[|xs| - 1];
      FilteringFoldFrom(p, c, a, xs');
      assert Filter(p, xs) == Filter(p, xs') + (if p(t) then [t] else []);
      if p(t) {
        FoldFromSnoc(c, a, Filter(p, xs'), t);
      } else {
        assert Filter(p, xs) == Filter(p, xs');
      }
    }
  }

  lemma FilteringMergeSound<T(!new), A(!new), R(!new)>(p: T -> bool, c: Collector<T, A, R>)
    requires MergeSound(c)
    ensures MergeSound(Filtering(p, c))
  {
    var r := Filtering(p, c);
    forall xs: seq<T>, ys: seq<T> ensures r.merge(FoldAll(r, xs), FoldAll(r, ys)) == FoldAll(r, xs + ys) {
      FilteringFoldFrom(p, c, c.create, xs);
      FilteringFoldFrom(p, c, c.create, ys);
      FilteringFoldFrom(p, c, c.create, xs + ys);
      FilterAppend(p, xs, ys);
    }
  }

  // ---------------------------------------------------------------- mapping

  /** `mapping(f, downstream)`: each element is transformed before folding; a
      cancellable downstream that is already finished is not fed, and `f` is
      not applied. */
  function Mapping<T(!new), U(!new), A(!new), R(!new)>(f: T -> U, c: Collector<U, A, R>): (r: Collector<T, A, R>)
    ensures r.chars == c.chars
    ensures forall a :: IsFinished(r, a) <==> IsFinished(c, a)
  {
    match c.finished
    case Some(fin) =>
      Collector(c.create, (a: A, t: T) => if !fin(a) then c.fold(a, f(t)) else a, c.merge, c.finish, c.finished, c.chars)
    case None =>
      Collector(c.create, (a: A, t: T) => c.fold(a, f(t)), c.merge, c.finish, None, c.chars)
  }

  /** Mapping feeds the mapped elements and stops as soon as the downstream
      reports finished. */
  lemma {:induction false} MappingFoldFrom<T(!new), U(!new), A(!new), R(!new)>(f: T -> U, c: Collector<U, A, R>, a: A, xs: seq<T>)
    ensures FoldFrom(Mapping(f, c), a, xs) == CancelFold(c, a, Map(f, xs))
    decreases |xs|
  {
    if |xs| > 0 {
      var xs' := xs[..|xs| - 1];
      var t := xs[|xs| - 1];
      MappingFoldFrom(f, c, a, xs');
      assert Map(f, xs) == Map(f, xs') + [f(t)];
      CancelFoldSnoc(c, a, Map(f, xs'), f(t));
    }
  }

  /** Under the short-circuit contract, mapping gives the downstream result of
      the mapped input. */
  lemma MappingCollect<T(!new), U(!new), A(!new), R(!new)>(f: T -> U, c: Collector<U, A, R>, xs: seq<T>)
    requires FoldKeepsFinished(c) && FinishedIsFinal(c)
    ensures Collect(Mapping(f, c), xs) == Collect(c, Map(f, xs))
  {
    MappingFoldFrom(f, c, c.create, xs);
    CancelFoldAgrees(c, c.create, Map(f, xs));
  }

  // ----------------------------------------------------------- flatMapping

  /** A `null` stream returned by the mapper is an empty expansion. */
  function Expansion<U(!new)>(s: Option<seq<U>>): seq<U>
  {
    match s
    case None => []
    case Some(us) => us
  }

  /** The expansions of all of `xs`, concatenated in order. */
  function Expanded<T(!new), U(!new)>(g: T -> Option<seq<U>>, xs: seq<T>): seq<U>
    decreases |xs|
  {
    if |xs| == 0 then [] else Expanded(g, xs[..|xs| - 1]) + Expansion(g(xs[|xs| - 1]))
  }

  /** Folds one element's expansion, abandoning it once the state is finished. */
  function Expand<U(!new), A(!new), R(!new)>(c: Collector<U, A, R>, a: A, us: seq<U>): A
    decreases |us|
  {
    if |us| == 0 then a
    else
      var a' := c.fold(a, us[0]);
      if IsFinished(c, a') then a' else Expand(c, a', us[1..])
  }

  /** `flatMapping(g, downstream)`: each element's expansion is folded in turn;
      with a cancellable downstream, folding stops as soon as it is finished,
      even part-way through one expansion. */
  function FlatMapping<T(!new), U(!new), A(!new), R(!new)>(g: T -> Option<seq<U>>, c: Collector<U, A, R>): (r: Collector<T, A, R>)
    ensures r.chars == c.chars
    ensures forall a :: IsFinished(r, a) <==> IsFinished(c, a)
  {
    match c.finished
    case Some(fin) =>
      Collector(c.create, (a: A, t: T) => if fin(a) then a else Expand(c, a, Expansion(g(t))),
                c.merge, c.finish, c.finished, c.chars)
    case None =>
      Collector(c.create, (a: A, t: T) => FoldFrom(c, a, Expansion(g(t))), c.merge, c.finish, None, c.chars)
  }

  /** Abandoning an expansion is stopping early from an unfinished state. */
  lemma {:induction false} ExpandIsCancelFold<U(!new), A(!new), R(!new)>(c: Collector<U, A, R>, a: A, us: seq<U>)
    requires !IsFinished(c, a)
    ensures Expand(c, a, us) == CancelFold(c, a, us)
    decreases |us|
  {
    if |us| > 0 {
      var a' := c.fold(a, us[0]);
      if !IsFinished(c, a') {
        ExpandIsCancelFold(c, a', us[1..]);
      }
    }
  }

  /** Flat-mapping folds the concatenated expansions and stops as soon as the
      downstream reports finished. */
  lemma {:induction false} FlatMappingFoldFrom<T(!new), U(!new), A(!new), R(!new)>(g: T -> Option<seq<U>>, c: Collector<U, A, R>, a: A, xs: seq<T>)
    ensures FoldFrom(FlatMapping(g, c), a, xs) == CancelFold(c, a, Expanded(g, xs))
    decreases |xs|
  {
    if |xs| > 0 {
      var xs' := xs[..|xs| - 1];
      var t := xs[|xs| - 1];
      var e := Expansion(g(t));
      FlatMappingFoldFrom(g, c, a, xs');
      var s := CancelFold(c, a, Expanded(g, xs'));
      CancelFoldAppend(c, a, Expanded(g, xs'), e);
      if c.finished.None? {
        CancelFoldPlain(c, s, e);
      } else if !IsFinished(c, s) {
        ExpandIsCancelFold(c, s, e);
      }
    }
  }

  /** Under the short-circuit contract, flat-mapping gives the downstream
      result of the concatenated expansions. */
  lemma FlatMappingCollect<T(!new), U(!new), A(!new), R(!new)>(g: T -> Option<seq<U>>, c: Collector<U, A, R>, xs: seq<T>)
    requires FoldKeepsFinished(c) && FinishedIsFinal(c)
    ensures Collect(FlatMapping(g, c), xs) == Collect(c, Expanded(g, xs))
  {
    FlatMappingFoldFrom(g, c, c.create, xs);
    CancelFoldAgrees(c, c.create, Expanded(g, xs));
  }

  // --------------------------------------------------------- partitioningBy

  /** `partitioningBy(p, downstream)`: one downstream state for the elements
      satisfying `p` and one for the others. Without a finished predicate the
      JDK's `Collectors.partitioningBy` takes over, which reports identity
      finish exactly when the downstream does. */
  function PartitioningBy<T(!new), A(!new), R(!new)>(p: T -> bool, c: Collector<T, A, R>): (r: Collector<T, (A, A), map<bool, R>>)
    ensures r.finished.Some? <==> c.finished.Some?
    ensures forall a :: IsFinished(r, a) <==> c.finished.Some? && IsFinished(c, a.0) && IsFinished(c, a.1)
    ensures c.finished.None? ==> r.chars == if IdentityFinish in c.chars then {IdentityFinish} else {}
    ensures c.finished.Some? ==> r.chars == {}
  {
    var finished :=
      match c.finished
      case Some(fin) => Some((a: (A, A)) => fin(a.0) && fin(a.1))
      case None => None;
    Collector(
      (c.create, c.create),
      (a: (A, A), t: T) => if p(t) then (c.fold(a.0, t), a.1) else (a.0, c.fold(a.1, t)),
      (a: (A, A), b: (A, A)) => (c.merge(a.0, b.0), c.merge(a.1, b.1)),
      (a: (A, A)) => map[true := c.finish(a.0), false := c.finish(a.1)],
      finished,
      if c.finished.None? && IdentityFinish in c.chars then {IdentityFinish} else {})
  }

  function Not<T(!new)>(p: T -> bool): T -> bool
  {
    (t: T) => !p(t)
  }

  /** Partitioning is two filtered views of the same input. */
  lemma {:induction false} PartitioningFoldAll<T(!new), A(!new), R(!new)>(p: T -> bool, c: Collector<T, A, R>, xs: seq<T>)
    ensures FoldAll(PartitioningBy(p, c), xs) == (FoldAll(Filtering(p, c), xs), FoldAll(Filtering(Not(p), c), xs))
    decreases |xs|
  {
    if |xs| > 0 {
      PartitioningFoldAll(p, c, xs[..|xs| - 1]);
    }
  }

  /** The result maps `true` to the downstream result of the matching elements
      and `false` to that of the others. */
  lemma PartitioningCollect<T(!new), A(!new), R(!new)>(p: T -> bool, c: Collector<T, A, R>, xs: seq<T>)
    ensures Collect(PartitioningBy(p, c), xs).Keys == {true, false}
    ensures Collect(PartitioningBy(p, c), xs)[true] == Collect(c, Filter(p, xs))
    ensures Collect(PartitioningBy(p, c), xs)[false] == Collect(c, Filter(Not(p), xs))
  {
    PartitioningFoldAll(p, c, xs);
    FilteringFoldFrom(p, c, c.create, xs);
    FilteringFoldFrom(Not(p), c, c.create, xs);
  }

  lemma PartitioningMergeSound<T(!new), A(!new), R(!new)>(p: T -> bool, c: Collector<T, A, R>)
    requires MergeSound(c)
    ensures MergeSound(PartitioningBy(p, c))
  {
    var r := PartitioningBy(p, c);
    FilteringMergeSound(p, c);
    FilteringMergeSound(Not(p), c);
    forall xs: seq<T>, ys: seq<T> ensures r.merge(FoldAll(r, xs), FoldAll(r, ys)) == FoldAll(r, xs + ys) {
      PartitioningFoldAll(p, c, xs);
      PartitioningFoldAll(p, c, ys);
      PartitioningFoldAll(p, c, xs + ys);
    }
  }

  // ---------------------------------------------------------------- combine

  /** The private `intersection` helper: empty when either side is empty. */
  function Intersection<X(!new)>(a: set<X>, b: set<X>): (r: set<X>)
    ensures r == a * b
  {
    if |a| == 0 || |b| == 0 then {} else a * b
  }

  /** `combine(c1, c2)`: both results as a pair; never short-circuiting. */
  function Combine2<T(!new), A1(!new), A2(!new), R1(!new), R2(!new)>(c1: Collector<T, A1, R1>, c2: Collector<T, A2, R2>)
    : (r: Collector<T, (A1, A2), (R1, R2)>)
    ensures r.finished.None?
    ensures forall ch :: ch in r.chars <==> ch in c1.chars && ch in c2.chars
  {
    Collector(
      (c1.create, c2.create),
      (a: (A1, A2), t: T) => (c1.fold(a.0, t), c2.fold(a.1, t)),
      (a: (A1, A2), b: (A1, A2)) => (c1.merge(a.0, b.0), c2.merge(a.1, b.1)),
      (a: (A1, A2)) => (c1.finish(a.0), c2.finish(a.1)),
      None,
      Intersection(c1.chars, c2.chars))
  }

  lemma {:induction false} Combine2FoldAll<T(!new), A1(!new), A2(!new), R1(!new), R2(!new)>(c1: Collector<T, A1, R1>, c2: Collector<T, A2, R2>, xs: seq<T>)
    ensures FoldAll(Combine2(c1, c2), xs) == (FoldAll(c1, xs), FoldAll(c2, xs))
    ensures Collect(Combine2(c1, c2), xs) == (Collect(c1, xs), Collect(c2, xs))
    decreases |xs|
  {
    if |xs| > 0 {
      Combine2FoldAll(c1, c2, xs[..|xs| - 1]);
    }
  }

  lemma Combine2MergeSound<T(!new), A1(!new), A2(!new), R1(!new), R2(!new)>(c1: Collector<T, A1, R1>, c2: Collector<T, A2, R2>)
    requires MergeSound(c1) && MergeSound(c2)
    ensures MergeSound(Combine2(c1, c2))
  {
    var r := Combine2(c1, c2);
    forall xs: seq<T>, ys: seq<T> ensures r.merge(FoldAll(r, xs), FoldAll(r, ys)) == FoldAll(r, xs + ys) {
      Combine2FoldAll(c1, c2, xs);
      Combine2FoldAll(c1, c2, ys);
      Combine2FoldAll(c1, c2, xs + ys);
    }
  }

  /** `combine(c1, c2, c3)`: all three results as a triple. */
  function Combine3<T(!new), A1(!new), A2(!new), A3(!new), R1(!new), R2(!new), R3(!new)>(
    c1: Collector<T, A1, R1>, c2: Collector<T, A2, R2>, c3: Collector<T, A3, R3>)
    : (r: Collector<T, (A1, A2, A3), (R1, R2, R3)>)
    ensures r.finished.None?
    ensures forall ch :: ch in r.chars <==> ch in c1.chars && ch in c2.chars && ch in c3.chars
  {
    Collector(
      (c1.create, c2.create, c3.create),
      (a: (A1, A2, A3), t: T) => (c1.fold(a.0, t), c2.fold(a.1, t), c3.fold(a.2, t)),
      (a: (A1, A2, A3), b: (A1, A2, A3)) => (c1.merge(a.0, b.0), c2.merge(a.1, b.1), c3.merge(a.2, b.2)),
      (a: (A1, A2, A3)) => (c1.finish(a.0), c2.finish(a.1), c3.finish(a.2)),
      None,
      Intersection(Intersection(c1.chars, c2.chars), c3.chars))
  }

  lemma {:induction false} Combine3FoldAll<T(!new), A1(!new), A2(!new), A3(!new), R1(!new), R2(!new), R3(!new)>(
    c1: Collector<T, A1, R1>, c2: Collector<T, A2, R2>, c3: Collector<T, A3, R3>, xs: seq<T>)
    ensures FoldAll(Combine3(c1, c2, c3), xs) == (FoldAll(c1, xs), FoldAll(c2, xs), FoldAll(c3, xs))
    ensures Collect(Combine3(c1, c2, c3), xs) == (Collect(c1, xs), Collect(c2, xs), Collect(c3, xs))
    decreases |xs|
  {
    if |xs| > 0 {
      Combine3FoldAll(c1, c2, c3, xs[..|xs| - 1]);
    }
  }

  /** The state of component `i`; a state list of the wrong length (which no
      reduction produces) reads as that component's empty state. */
  function Slot<T(!new), A(!new), R(!new)>(cs: seq<Collector<T, A, R>>, acc: seq<A>, i: int): A
    requires 0 <= i < |cs|
  {
    if i < |acc| then acc[i] else cs[i].create
  }

  /** The characteristics loop of `combine(collection)`: intersect from
      position `i` on, stopping once nothing is left. */
  function CommonFrom<T(!new), A(!new), R(!new)>(common: set<Characteristic>, cs: seq<Collector<T, A, R>>, i: nat)
    : (r: set<Characteristic>)
    ensures forall ch :: ch in r <==> ch in common && forall j :: i <= j < |cs| ==> ch in cs[j].chars
    decreases |cs| - i
  {
    if i >= |cs| then common
    else
      var next := Intersection(common, cs[i].chars);
      if |next| == 0 then next else CommonFrom(next, cs, i + 1)
  }

  /** The list-based combiner, for a non-empty list of collectors. */
  function ListCombine<T(!new), A(!new), R(!new)>(cs: seq<Collector<T, A, R>>): (r: Collector<T, seq<A>, seq<R>>)
    requires |cs| > 0
    ensures r.finished.None?
    ensures forall ch :: ch in r.chars <==> forall j :: 0 <= j < |cs| ==> ch in cs[j].chars
  {
    Collector(
      seq(|cs|, i requires 0 <= i < |cs| => cs[i].create),
      (acc: seq<A>, t: T) => seq(|cs|, i requires 0 <= i < |cs| => cs[i].fold(Slot(cs, acc, i), t)),
      (x: seq<A>, y: seq<A>) => seq(|cs|, i requires 0 <= i < |cs| => cs[i].merge(Slot(cs, x, i), Slot(cs, y, i))),
      (acc: seq<A>) => seq(|cs|, i requires 0 <= i < |cs| => cs[i].finish(Slot(cs, acc, i))),
      None,
      CommonFrom(cs[0].chars, cs, 1))
  }

  /** `combine(collection)`: an empty collection is rejected. */
  function CombineList<T(!new), A(!new), R(!new)>(cs: seq<Collector<T, A, R>>): (r: Result<Collector<T, seq<A>, seq<R>>>)
    ensures r.Failure? <==> |cs| == 0
    ensures r.Failure? ==> r.error.IllegalArgument?
  {
    if |cs| == 0 then Failure(IllegalArgument("The specified 'collectors' can't be null or empty"))
    else Success(ListCombine(cs))
  }

  /** Component `i` of the combined state is the state of collector `i`. */
  lemma {:induction false} ListCombineFoldAll<T(!new), A(!new), R(!new)>(cs: seq<Collector<T, A, R>>, xs: seq<T>)
    requires |cs| > 0
    ensures |FoldAll(ListCombine(cs), xs)| == |cs|
    ensures forall i :: 0 <= i < |cs| ==> FoldAll(ListCombine(cs), xs)[i] == FoldAll(cs[i], xs)
    decreases |xs|
  {
    if |xs| > 0 {
      var xs' := xs[..|xs| - 1];
      var t := xs[|xs| - 1];
      ListCombineFoldAll(cs, xs');
      var prev := FoldAll(ListCombine(cs), xs');
      assert FoldAll(ListCombine(cs), xs) == ListCombine(cs).fold(prev, t);
      forall i | 0 <= i < |cs| ensures FoldAll(ListCombine(cs), xs)[i] == FoldAll(cs[i], xs) {
        assert Slot(cs, prev, i) == FoldAll(cs[i], xs');
      }
    }
  }

  /** The combined result lists the component results in order. */
  lemma ListCombineCollect<T(!new), A(!new), R(!new)>(cs: seq<Collector<T, A, R>>, xs: seq<T>)
    requires |cs| > 0
    ensures |Collect(ListCombine(cs), xs)| == |cs|
    ensures forall i :: 0 <= i < |cs| ==> Collect(ListCombine(cs), xs)[i] == Collect(cs[i], xs)
  {
    ListCombineFoldAll(cs, xs);
    var st := FoldAll(ListCombine(cs), xs);
    forall i | 0 <= i < |cs| ensures Collect(ListCombine(cs), xs)[i] == Collect(cs[i], xs) {
      assert Slot(cs, st, i) == FoldAll(cs[i], xs);
    }
  }

  lemma ListCombineMergeSound<T(!new), A(!new), R(!new)>(cs: seq<Collector<T, A, R>>)
    requires |cs| > 0
    requires forall i :: 0 <= i < |cs| ==> MergeSound(cs[i])
    ensures MergeSound(ListCombine(cs))
  {
    var r := ListCombine(cs);
    forall xs: seq<T>, ys: seq<T> ensures r.merge(FoldAll(r, xs), FoldAll(r, ys)) == FoldAll(r, xs + ys) {
      ListCombineFoldAll(cs, xs);
      ListCombineFoldAll(cs, ys);
      ListCombineFoldAll(cs, xs + ys);
      var sx, sy := FoldAll(r, xs), FoldAll(r, ys);
      forall i | 0 <= i < |cs| ensures r.merge(sx, sy)[i] == FoldAll(r, xs + ys)[i] {
        assert Slot(cs, sx, i) == FoldAll(cs[i], xs);
        assert Slot(cs, sy, i) == FoldAll(cs[i], ys);
        assert MergeSound(cs[i]);
      }
    }
  }

  /** `combine(c1, c2, c3, c4)`. The library sends the four collectors through
      the list combiner and reads the finished list back as a tuple; that
      relies on type erasure, so here the state and the result are tuples of
      the components' own types. The characteristics are what
      `collectingAndThen` leaves of the list combiner's: those all four
      share, minus IDENTITY_FINISH. */
  function Combine4<T(!new), A1(!new), A2(!new), A3(!new), A4(!new), R1(!new), R2(!new), R3(!new), R4(!new)>(
    c1: Collector<T, A1, R1>, c2: Collector<T, A2, R2>, c3: Collector<T, A3, R3>, c4: Collector<T, A4, R4>)
    : (r: Collector<T, (A1, A2, A3, A4), (R1, R2, R3, R4)>)
    ensures r.finished.None?
    ensures forall ch :: ch in r.chars <==>
      ch != IdentityFinish && ch in c1.chars && ch in c2.chars && ch in c3.chars && ch in c4.chars
  {
    Collector(
      (c1.create, c2.create, c3.create, c4.create),
      (a: (A1, A2, A3, A4), t: T) => (c1.fold(a.0, t), c2.fold(a.1, t), c3.fold(a.2, t), c4.fold(a.3, t)),
      (a: (A1, A2, A3, A4), b: (A1, A2, A3, A4)) =>
        (c1.merge(a.0, b.0), c2.merge(a.1, b.1), c3.merge(a.2, b.2), c4.merge(a.3, b.3)),
      (a: (A1, A2, A3, A4)) => (c1.finish(a.0), c2.finish(a.1), c3.finish(a.2), c4.finish(a.3)),
      None,
      Intersection(Intersection(Intersection(c1.chars, c2.chars), c3.chars), c4.chars) - {IdentityFinish})
  }

  /** `combine(c1, …, c5)`: the five-component counterpart of `Combine4`. */
  function Combine5<T(!new), A1(!new), A2(!new), A3(!new), A4(!new), A5(!new), R1(!new), R2(!new), R3(!new), R4(!new), R5(!new)>(
    c1: Collector<T, A1, R1>, c2: Collector<T, A2, R2>, c3: Collector<T, A3, R3>, c4: Collector<T, A4, R4>,
    c5: Collector<T, A5, R5>)
    : (r: Collector<T, (A1, A2, A3, A4, A5), (R1, R2, R3, R4, R5)>)
    ensures r.finished.None?
    ensures forall ch :: ch in r.chars <==>
      ch != IdentityFinish && ch in c1.chars && ch in c2.chars && ch in c3.chars && ch in c4.chars && ch in c5.chars
  {
    Collector(
      (c1.create, c2.create, c3.create, c4.create, c5.create),
      (a: (A1, A2, A3, A4, A5), t: T) =>
        (c1.fold(a.0, t), c2.fold(a.1, t), c3.fold(a.2, t), c4.fold(a.3, t), c5.fold(a.4, t)),
      (a: (A1, A2, A3, A4, A5), b: (A1, A2, A3, A4, A5)) =>
        (c1.merge(a.0, b.0), c2.merge(a.1, b.1), c3.merge(a.2, b.2), c4.merge(a.3, b.3), c5.merge(a.4, b.4)),
      (a: (A1, A2, A3, A4, A5)) =>
        (c1.finish(a.0), c2.finish(a.1), c3.finish(a.2), c4.finish(a.3), c5.finish(a.4)),
      None,
      Intersection(Intersection(Intersection(Intersection(c1.chars, c2.chars), c3.chars), c4.chars), c5.chars)
        - {IdentityFinish})
  }

  lemma {:induction false} Combine4FoldAll<T(!new), A1(!new), A2(!new), A3(!new), A4(!new), R1(!new), R2(!new), R3(!new), R4(!new)>(
    c1: Collector<T, A1, R1>, c2: Collector<T, A2, R2>, c3: Collector<T, A3, R3>, c4: Collector<T, A4, R4>, xs: seq<T>)
    ensures FoldAll(Combine4(c1, c2, c3, c4), xs) == (FoldAll(c1, xs), FoldAll(c2, xs), FoldAll(c3, xs), FoldAll(c4, xs))
    decreases |xs|
  {
    if |xs| > 0 {
      Combine4FoldAll(c1, c2, c3, c4, xs[..|xs| - 1]);
    }
  }

  lemma {:induction false} Combine5FoldAll<T(!new), A1(!new), A2(!new), A3(!new), A4(!new), A5(!new), R1(!new), R2(!new), R3(!new), R4(!new), R5(!new)>(
    c1: Collector<T, A1, R1>, c2: Collector<T, A2, R2>, c3: Collector<T, A3, R3>, c4: Collector<T, A4, R4>,
    c5: Collector<T, A5, R5>, xs: seq<T>)
    ensures FoldAll(Combine5(c1, c2, c3, c4, c5), xs) ==
      (FoldAll(c1, xs), FoldAll(c2, xs), FoldAll(c3, xs), FoldAll(c4, xs), FoldAll(c5, xs))
    decreases |xs|
  {
    if |xs| > 0 {
      Combine5FoldAll(c1, c2, c3, c4, c5, xs[..|xs| - 1]);
    }
  }

  /** The four-way combination always yields the four component results. */
  lemma Combine4Collect<T(!new), A1(!new), A2(!new), A3(!new), A4(!new), R1(!new), R2(!new), R3(!new), R4(!new)>(
    c1: Collector<T, A1, R1>, c2: Collector<T, A2, R2>, c3: Collector<T, A3, R3>, c4: Collector<T, A4, R4>, xs: seq<T>)
    ensures Collect(Combine4(c1, c2, c3, c4), xs) == (Collect(c1, xs), Collect(c2, xs), Collect(c3, xs), Collect(c4, xs))
  {
    Combine4FoldAll(c1, c2, c3, c4, xs);
  }

  /** The five-way combination always yields the five component results. */
  lemma Combine5Collect<T(!new), A1(!new), A2(!new), A3(!new), A4(!new), A5(!new), R1(!new), R2(!new), R3(!new), R4(!new), R5(!new)>(
    c1: Collector<T, A1, R1>, c2: Collector<T, A2, R2>, c3: Collector<T, A3, R3>, c4: Collector<T, A4, R4>,
    c5: Collector<T, A5, R5>, xs: seq<T>)
    ensures Collect(Combine5(c1, c2, c3, c4, c5), xs) ==
      (Collect(c1, xs), Collect(c2, xs), Collect(c3, xs), Collect(c4, xs), Collect(c5, xs))
  {
    Combine5FoldAll(c1, c2, c3, c4, c5, xs);
  }

  lemma Combine4MergeSound<T(!new), A1(!new), A2(!new), A3(!new), A4(!new), R1(!new), R2(!new), R3(!new), R4(!new)>(
    c1: Collector<T, A1, R1>, c2: Collector<T, A2, R2>, c3: Collector<T, A3, R3>, c4: Collector<T, A4, R4>)
    requires MergeSound(c1) && MergeSound(c2) && MergeSound(c3) && MergeSound(c4)
    ensures MergeSound(Combine4(c1, c2, c3, c4))
  {
    var r := Combine4(c1, c2, c3, c4);
    forall xs: seq<T>, ys: seq<T> ensures r.merge(FoldAll(r, xs), FoldAll(r, ys)) == FoldAll(r, xs + ys) {
      Combine4FoldAll(c1, c2, c3, c4, xs);
      Combine4FoldAll(c1, c2, c3, c4, ys);
      Combine4FoldAll(c1, c2, c3, c4, xs + ys);
    }
  }

  lemma Combine5MergeSound<T(!new), A1(!new), A2(!new), A3(!new), A4(!new), A5(!new), R1(!new), R2(!new), R3(!new), R4(!new), R5(!new)>(
    c1: Collector<T, A1, R1>, c2: Collector<T, A2, R2>, c3: Collector<T, A3, R3>, c4: Collector<T, A4, R4>,
    c5: Collector<T, A5, R5>)
    requires MergeSound(c1) && MergeSound(c2) && MergeSound(c3) && MergeSound(c4) && MergeSound(c5)
    ensures MergeSound(Combine5(c1, c2, c3, c4, c5))
  {
    var r := Combine5(c1, c2, c3, c4, c5);
    forall xs: seq<T>, ys: seq<T> ensures r.merge(FoldAll(r, xs), FoldAll(r, ys)) == FoldAll(r, xs + ys) {
      Combine5FoldAll(c1, c2, c3, c4, c5, xs);
      Combine5FoldAll(c1, c2, c3, c4, c5, ys);
      Combine5FoldAll(c1, c2, c3, c4, c5, xs + ys);
    }
  }

  /** `Tuple4.from(list)`: absent unless the list has exactly four elements. */
  function Tuple4From<R(!new)>(l: seq<R>): Option<(R, R, R, R)>
  {
    if |l| == 4 then Some((l[0], l[1], l[2], l[3])) else None
  }

  /** `Tuple5.from(list)`. */
  function Tuple5From<R(!new)>(l: seq<R>): Option<(R, R, R, R, R)>
  {
    if |l| == 5 then Some((l[0], l[1], l[2], l[3], l[4])) else None
  }

  /** Where the four collectors share their types, the library's own route
      (the list combiner, `collectingAndThen` and `Tuple4.from`) has the
      characteristics of `Combine4` and always delivers its result. */
  lemma Combine4IsListRoute<T(!new), A(!new), R(!new)>(
    c1: Collector<T, A, R>, c2: Collector<T, A, R>, c3: Collector<T, A, R>, c4: Collector<T, A, R>, xs: seq<T>)
    ensures CollectingAndThen(ListCombine([c1, c2, c3, c4]), Tuple4From).chars == Combine4(c1, c2, c3, c4).chars
    ensures Collect(CollectingAndThen(ListCombine([c1, c2, c3, c4]), Tuple4From), xs) == Some(Collect(Combine4(c1, c2, c3, c4), xs))
  {
    var cs := [c1, c2, c3, c4];
    var viaList := CollectingAndThen(ListCombine(cs), Tuple4From);
    forall ch ensures ch in viaList.chars <==> ch in Combine4(c1, c2, c3, c4).chars {
      assert (forall j :: 0 <= j < |cs| ==> ch in cs[j].chars) <==>
        ch in c1.chars && ch in c2.chars && ch in c3.chars && ch in c4.chars by {
        assert cs[0] == c1 && cs[1] == c2 && cs[2] == c3 && cs[3] == c4;
      }
    }
    CollectingAndThenFoldAll(ListCombine(cs), Tuple4From, xs);
    ListCombineCollect(cs, xs);
    Combine4Collect(c1, c2, c3, c4, xs);
  }

  /** The five-collector counterpart of `Combine4IsListRoute`. */
  lemma Combine5IsListRoute<T(!new), A(!new), R(!new)>(
    c1: Collector<T, A, R>, c2: Collector<T, A, R>, c3: Collector<T, A, R>, c4: Collector<T, A, R>, c5: Collector<T, A, R>,
    xs: seq<T>)
    ensures CollectingAndThen(ListCombine([c1, c2, c3, c4, c5]), Tuple5From).chars == Combine5(c1, c2, c3, c4, c5).chars
    ensures Collect(CollectingAndThen(ListCombine([c1, c2, c3, c4, c5]), Tuple5From), xs) ==
      Some(Collect(Combine5(c1, c2, c3, c4, c5), xs))
  {
    var cs := [c1, c2, c3, c4, c5];
    var viaList := CollectingAndThen(ListCombine(cs), Tuple5From);
    forall ch ensures ch in viaList.chars <==> ch in Combine5(c1, c2, c3, c4, c5).chars {
      assert (forall j :: 0 <= j < |cs| ==> ch in cs[j].chars) <==>
        ch in c1.chars && ch in c2.chars && ch in c3.chars && ch in c4.chars && ch in c5.chars by {
        assert cs[0] == c1 && cs[1] == c2 && cs[2] == c3 && cs[3] == c4 && cs[4] == c5;
      }
    }
    CollectingAndThenFoldAll(ListCombine(cs), Tuple5From, xs);
    ListCombineCollect(cs, xs);
    Combine5Collect(c1, c2, c3, c4, c5, xs);
  }
}
