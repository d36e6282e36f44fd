/** The reduction protocol: a collector is an immutable value with four pure
    operations (create an empty state, fold one element, merge two states of
    adjacent partitions, finish), an optional short-circuit predicate and a
    set of characteristics. */
module Collectors {
  import opened Wrappers

  /** `Collector.Characteristics`. */
  datatype Characteristic = Unordered | Concurrent | IdentityFinish

  /** A collector over input `T` with accumulator `A` and result `R`.
      `finished` is `Some(p)` for a cancellable (short-circuiting) collector. */
  datatype Collector<!T, !A, R> = Collector(
    create: A,
    fold: (A, T) -> A,
    merge: (A, A) -> A,
    finish: A -> R,
    finished: Option<A -> bool>,
    chars: set<Characteristic>)

  /** The short-circuit predicate; a collector without one never reports finished. */
  predicate IsFinished<T(!new), A(!new), R(!new)>(c: Collector<T, A, R>, a: A)
  {
    c.finished.Some? && c.finished.value(a)
  }

  /** Folds the elements of `xs` into `a`, left to right. */
  function FoldFrom<T(!new), A(!new), R(!new)>(c: Collector<T, A, R>, a: A, xs: seq<T>): A
    decreases |xs|
  {
    if |xs| == 0 then a else c.fold(FoldFrom(c, a, xs[..|xs| - 1]), xs[|xs| - 1])
  }

  /** The state after folding all of `xs` into a fresh state. */
  function FoldAll<T(!new), A(!new), R(!new)>(c: Collector<T, A, R>, xs: seq<T>): A
  {
    FoldFrom(c, c.create, xs)
  }

  /** The result of a sequential reduction of `xs`. */
  function Collect<T(!new), A(!new), R(!new)>(c: Collector<T, A, R>, xs: seq<T>): R
  {
    c.finish(FoldAll(c, xs))
  }

  /** Folds `ys` into `a` but stops as soon as the state reports finished:
      what an engine that honours the short-circuit predicate computes. */
  function CancelFold<T(!new), A(!new), R(!new)>(c: Collector<T, A, R>, a: A, ys: seq<T>): A
    decreases |ys|
  {
    if |ys| == 0 || IsFinished(c, a) then a else CancelFold(c, c.fold(a, ys[0]), ys[1..])
  }

  /** Merging the states of two adjacent partitions gives the state of their
      concatenation: the contract every non-UNORDERED combiner must meet. */
  ghost predicate MergeSound<T(!new), A(!new), R(!new)>(c: Collector<T, A, R>)
  {
    forall xs: seq<T>, ys: seq<T> :: c.merge(FoldAll(c, xs), FoldAll(c, ys)) == FoldAll(c, xs + ys)
  }

  /** The weaker contract that only the finished results agree. */
  ghost predicate MergeSoundResult<T(!new), A(!new), R(!new)>(c: Collector<T, A, R>)
  {
    forall xs: seq<T>, ys: seq<T> :: c.finish(c.merge(FoldAll(c, xs), FoldAll(c, ys))) == Collect(c, xs + ys)
  }

  /** Once finished, a state stays finished under folding. */
  ghost predicate FoldKeepsFinished<T(!new), A(!new), R(!new)>(c: Collector<T, A, R>)
  {
    forall a: A, t: T :: IsFinished(c, a) ==> IsFinished(c, c.fold(a, t))
  }

  /** Once finished, a state stays finished when merged with any other state. */
  ghost predicate MergeKeepsFinished<T(!new), A(!new), R(!new)>(c: Collector<T, A, R>)
  {
    forall a: A, b: A :: IsFinished(c, a) || IsFinished(c, b) ==> IsFinished(c, c.merge(a, b))
  }

  /** Once finished, further folding does not change the result. */
  ghost predicate FinishedIsFinal<T(!new), A(!new), R(!new)>(c: Collector<T, A, R>)
  {
    forall a: A, t: T :: IsFinished(c, a) ==> c.finish(c.fold(a, t)) == c.finish(a)
  }

  lemma {:induction false} FoldFromAppend<T(!new), A(!new), R(!new)>(c: Collector<T, A, R>, a: A, xs: seq<T>, ys: seq<T>)
    ensures FoldFrom(c, a, xs + ys) == FoldFrom(c, FoldFrom(c, a, xs), ys)
    decreases |ys|
  {
    if |ys| == 0 {
      assert xs + ys == xs;
    } else {
      var ys' := ys[..|ys| - 1];
      assert (xs + ys)[..|xs + ys| - 1] == xs + ys';
      assert (xs + ys)[|xs + ys| - 1] == ys[|ys| - 1];
      FoldFromAppend(c, a, xs, ys');
    }
  }

  lemma FoldFromSnoc<T(!new), A(!new), R(!new)>(c: Collector<T, A, R>, a: A, xs: seq<T>, t: T)
    ensures FoldFrom(c, a, xs + [t]) == c.fold(FoldFrom(c, a, xs), t)
  {
    assert (xs + [t])[..|xs|] == xs;
  }

  /** Stopping early splits over concatenation. */
  lemma {:induction false} CancelFoldAppend<T(!new), A(!new), R(!new)>(c: Collector<T, A, R>, a: A, u: seq<T>, v: seq<T>)
    ensures CancelFold(c, a, u + v) == CancelFold(c, CancelFold(c, a, u), v)
    decreases |u|
  {
    if |u| == 0 {
      assert u + v == v;
    } else if IsFinished(c, a) {
      if |v| == 0 {
        assert u + v == u;
      }
    } else {
      assert (u + v)[0] == u[0];
      assert (u + v)[1..] == u[1..] + v;
      CancelFoldAppend(c, c.fold(a, u[0]), u[1..], v);
    }
  }

  /** A finished state is a fixed point of `CancelFold`. */
  lemma CancelFoldFinished<T(!new), A(!new), R(!new)>(c: Collector<T, A, R>, a: A, ys: seq<T>)
    requires IsFinished(c, a)
    ensures CancelFold(c, a, ys) == a
  {
  }

  /** Stopping early and folding on agree whenever the state is not finished
      before the last element. */
  lemma CancelFoldSnoc<T(!new), A(!new), R(!new)>(c: Collector<T, A, R>, a: A, ys: seq<T>, t: T)
    ensures CancelFold(c, a, ys + [t]) ==
      var s := CancelFold(c, a, ys); if IsFinished(c, s) then s else c.fold(s, t)
  {
    CancelFoldAppend(c, a, ys, [t]);
    assert [t][1..] == [];
  }

  /** A collector without a short-circuit predicate is never cut short. */
  lemma {:induction false} CancelFoldPlain<T(!new), A(!new), R(!new)>(c: Collector<T, A, R>, a: A, ys: seq<T>)
    requires c.finished.None?
    ensures CancelFold(c, a, ys) == FoldFrom(c, a, ys)
    decreases |ys|
  {
    if |ys| > 0 {
      var ys' := ys[..|ys| - 1];
      assert ys' + [ys[|ys| - 1]] == ys;
      CancelFoldSnoc(c, a, ys', ys[|ys| - 1]);
      CancelFoldPlain(c, a, ys');
    }
  }

  /** From a finished state, folding more input keeps the state finished and
      the result unchanged. */
  lemma {:induction false} FoldAfterFinished<T(!new), A(!new), R(!new)>(c: Collector<T, A, R>, a: A, ys: seq<T>)
    requires FoldKeepsFinished(c) && FinishedIsFinal(c)
    requires IsFinished(c, a)
    ensures IsFinished(c, FoldFrom(c, a, ys))
    ensures c.finish(FoldFrom(c, a, ys)) == c.finish(a)
    decreases |ys|
  {
    if |ys| > 0 {
      FoldAfterFinished(c, a, ys[..|ys| - 1]);
    }
  }

  /** The short-circuit contract justifies stopping early: when a finished state
      stays finished and final, the engine that stops as soon as the predicate
      fires computes the same result as the one that folds everything. */
  lemma {:induction false} CancelFoldAgrees<T(!new), A(!new), R(!new)>(c: Collector<T, A, R>, a: A, ys: seq<T>)
    requires FoldKeepsFinished(c) && FinishedIsFinal(c)
    ensures c.finish(CancelFold(c, a, ys)) == c.finish(FoldFrom(c, a, ys))
    decreases |ys|
  {
    if |ys| == 0 {
    } else if IsFinished(c, a) {
      FoldAfterFinished(c, a, ys);
    } else {
      var ys1 := ys[1..];
      assert ys == [ys[0]] + ys1;
      FoldFromAppend(c, a, [ys[0]], ys1);
      FoldFromSnoc(c, a, [], ys[0]);
      CancelFoldAgrees(c, c.fold(a, ys[0]), ys1);
    }
  }

  /** MergeSound is the stronger of the two merge contracts. */
  lemma MergeSoundGivesResult<T(!new), A(!new), R(!new)>(c: Collector<T, A, R>)
    requires MergeSound(c)
    ensures MergeSoundResult(c)
  {
  }

  /** Two collectors that accumulate and merge identically (they may finish differently). */
  ghost predicate SameAccumulation<T(!new), A(!new), R1(!new), R2(!new)>(c: Collector<T, A, R1>, d: Collector<T, A, R2>)
  {
    && c.create == d.create
    && (forall a: A, t: T :: c.fold(a, t) == d.fold(a, t))
    && (forall a: A, b: A :: c.merge(a, b) == d.merge(a, b))
  }

  lemma {:induction false} SameAccumulationFoldFrom<T(!new), A(!new), R1(!new), R2(!new)>(
    c: Collector<T, A, R1>, d: Collector<T, A, R2>, a: A, xs: seq<T>)
    requires SameAccumulation(c, d)
    ensures FoldFrom(c, a, xs) == FoldFrom(d, a, xs)
    decreases |xs|
  {
    if |xs| > 0 {
      SameAccumulationFoldFrom(c, d, a, xs[..|xs| - 1]);
    }
  }

  lemma SameAccumulationMergeSound<T(!new), A(!new), R1(!new), R2(!new)>(c: Collector<T, A, R1>, d: Collector<T, A, R2>)
    requires SameAccumulation(c, d) && MergeSound(d)
    ensures MergeSound(c)
  {
    forall xs: seq<T>, ys: seq<T> ensures c.merge(FoldAll(c, xs), FoldAll(c, ys)) == FoldAll(c, xs + ys) {
      SameAccumulationFoldFrom(c, d, c.create, xs);
      SameAccumulationFoldFrom(c, d, c.create, ys);
      SameAccumulationFoldFrom(c, d, c.create, xs + ys);
    }
  }

  /** `Collectors.toList()`: the elements in encounter order. */
  function ToList<T(!new)>(): Collector<T, seq<T>, seq<T>>
  {
    Collector([], (l: seq<T>, t: T) => l + [t], (l1: seq<T>, l2: seq<T>) => l1 + l2,
      (l: seq<T>) => l, None, {IdentityFinish})
  }

  lemma {:induction false} ToListFoldAll<T(!new)>(xs: seq<T>)
    ensures FoldAll(ToList(), xs) == xs
    ensures Collect(ToList(), xs) == xs
    decreases |xs|
  {
    if |xs| > 0 {
      ToListFoldAll(xs[..|xs| - 1]);
      assert xs[..|xs| - 1] + [xs[|xs| - 1]] == xs;
    }
  }

  lemma ToListMergeSound<T(!new)>()
    ensures MergeSound(ToList<T>())
  {
    forall xs: seq<T>, ys: seq<T> ensures ToList<T>().merge(FoldAll(ToList(), xs), FoldAll(ToList(), ys)) == FoldAll(ToList(), xs + ys) {
      ToListFoldAll(xs);
      ToListFoldAll(ys);
      ToListFoldAll(xs + ys);
    }
  }
}
