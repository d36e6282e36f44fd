/** The small one-pass collectors: `empty`, `first`, `onlyOne`, `head` and `tail`. */
module Folds {
  import opened Wrappers
  import opened Seqs
  import opened Collectors
  import Combinators

  /** The state of `empty()`, which holds nothing. */
  datatype Nothing = Nothing

  /** `empty()`: ignores its input, is finished from the start and produces an empty list. */
  function Empty<T(!new)>(): Collector<T, Nothing, seq<T>>
  {
    Collector(Nothing, (a: Nothing, t: T) => a, (a: Nothing, b: Nothing) => a, (a: Nothing) => [], Some((a: Nothing) => true),
      {Unordered, Concurrent})
  }

  /** Whatever the input, the result is empty; splitting is harmless and the
      collector may stop before the first element. */
  lemma EmptyCollect<T(!new)>(xs: seq<T>)
    ensures Empty<T>().chars == {Unordered, Concurrent}
    ensures IsFinished(Empty<T>(), Empty<T>().create)
    ensures Collect(Empty<T>(), xs) == []
    ensures MergeSound(Empty<T>())
    ensures FoldKeepsFinished(Empty<T>()) && MergeKeepsFinished(Empty<T>()) && FinishedIsFinal(Empty<T>())
  {
  }

  /** A list-producing collector that, for a non-positive size, is `empty()`
      instead: the two shapes `head` and `tail` return. */
  datatype ListCollector<!T, !A> =
    | Ignoring(empty: Collector<T, Nothing, seq<T>>)
    | Keeping(keep: Collector<T, A, seq<T>>)

  function RunList<T(!new), A(!new)>(lc: ListCollector<T, A>, xs: seq<T>): seq<T>
  {
    match lc
    case Ignoring(c) => Collect(c, xs)
    case Keeping(c) => Collect(c, xs)
  }

  // ---------------------------------------------------------------- first

  /** `first()`: the state holds the first element, if any; finished once it does. */
  function First<T(!new)>(): Collector<T, Option<T>, Option<T>>
  {
    Collector(None,
      (a: Option<T>, t: T) => if a.None? then Some(t) else a,
      (a1: Option<T>, a2: Option<T>) => if a1.None? then a2 else a1,
      (a: Option<T>) => a,
      Some((a: Option<T>) => a.Some?),
      {})
  }

  lemma {:induction false} FirstFoldAll<T(!new)>(xs: seq<T>)
    ensures FoldAll(First(), xs) == if |xs| == 0 then None else Some(xs[0])
    decreases |xs|
  {
    if |xs| > 0 {
      FirstFoldAll(xs[..|xs| - 1]);
    }
  }

  /** `first()` finds the first element; the left partition's wins a merge; the
      collector may stop as soon as it has one. */
  lemma FirstCollect<T(!new)>(xs: seq<T>)
    ensures First<T>().chars == {}
    ensures forall a :: IsFinished(First<T>(), a) <==> a.Some?
    ensures Collect(First(), xs) == if |xs| == 0 then None else Some(xs[0])
    ensures MergeSound(First<T>())
    ensures FoldKeepsFinished(First<T>()) && MergeKeepsFinished(First<T>()) && FinishedIsFinal(First<T>())
  {
    FirstFoldAll(xs);
    forall us: seq<T>, vs: seq<T> ensures First<T>().merge(FoldAll(First(), us), FoldAll(First(), vs)) == FoldAll(First(), us + vs) {
      FirstFoldAll(us);
      FirstFoldAll(vs);
      FirstFoldAll(us + vs);
    }
  }

  // ---------------------------------------------------------------- onlyOne

  /** `onlyOne()`: `None` before any element (`box.a == null`), `Some(Some(t))`
      after exactly one, `Some(None)` once a second one arrives. */
  function OnlyOne<T(!new)>(): Collector<T, Option<Option<T>>, Option<T>>
  {
    Collector(None,
      (a: Option<Option<T>>, t: T) => if a.None? then Some(Some(t)) else Some(None),
      (a1: Option<Option<T>>, a2: Option<Option<T>>) => if a1.None? then a2 else if a2.None? then a1 else Some(None),
      (a: Option<Option<T>>) => if a.None? then None else a.value,
      Some((a: Option<Option<T>>) => a.Some? && a.value.None?),
      {Unordered})
  }

  lemma {:induction false} OnlyOneFoldAll<T(!new)>(xs: seq<T>)
    ensures FoldAll(OnlyOne(), xs) ==
      if |xs| == 0 then None else if |xs| == 1 then Some(Some(xs[0])) else Some(None)
    decreases |xs|
  {
    if |xs| > 0 {
      OnlyOneFoldAll(xs[..|xs| - 1]);
    }
  }

  /** `onlyOne()` yields the element of a one-element input and nothing
      otherwise; merges agree with the sequential result; a second element is final. */
  lemma OnlyOneCollect<T(!new)>(xs: seq<T>)
    ensures OnlyOne<T>().chars == {Unordered}
    ensures forall a :: IsFinished(OnlyOne<T>(), a) <==> a == Some(None)
    ensures Collect(OnlyOne(), xs) == if |xs| == 1 then Some(xs[0]) else None
    ensures MergeSound(OnlyOne<T>())
    ensures FoldKeepsFinished(OnlyOne<T>()) && MergeKeepsFinished(OnlyOne<T>()) && FinishedIsFinal(OnlyOne<T>())
  {
    OnlyOneFoldAll(xs);
    forall us: seq<T>, vs: seq<T> ensures OnlyOne<T>().merge(FoldAll(OnlyOne(), us), FoldAll(OnlyOne(), vs)) == FoldAll(OnlyOne(), us + vs) {
      OnlyOneFoldAll(us);
      OnlyOneFoldAll(vs);
      OnlyOneFoldAll(us + vs);
    }
  }

  /** `onlyOne(predicate)`: `onlyOne()` behind `filtering`. */
  function OnlyOneMatching<T(!new)>(p: T -> bool): (c: Collector<T, Option<Option<T>>, Option<T>>)
    ensures c.chars == {Unordered}
  {
    Combinators.Filtering(p, OnlyOne())
  }

  /** It yields the matching element exactly when one element matches. */
  lemma OnlyOneMatchingCollect<T(!new)>(p: T -> bool, xs: seq<T>)
    ensures var m := Filter(p, xs);
      Collect(OnlyOneMatching(p), xs) == if |m| == 1 then Some(m[0]) else None
  {
    Combinators.FilteringFoldFrom(p, OnlyOne(), None, xs);
    OnlyOneCollect(Filter(p, xs));
  }

  // ---------------------------------------------------------------- head

  /** `head(n)`: `empty()` for `n <= 0`. */
  function Head<T(!new)>(n: int): ListCollector<T, seq<T>>
  {
    if n <= 0 then Ignoring(Empty()) else Keeping(HeadList(n))
  }

  /** The list accumulation of `head(n)`: append while short of `n`; a merge
      tops the left list up from the right one. */
  function HeadList<T(!new)>(n: int): Collector<T, seq<T>, seq<T>>
  {
    Collector([],
      (a: seq<T>, t: T) => if |a| < n then a + [t] else a,
      (a1: seq<T>, a2: seq<T>) => a1 + Take(a2, n - |a1|),
      (a: seq<T>) => a,
      Some((a: seq<T>) => |a| >= n),
      {IdentityFinish})
  }

  lemma {:induction false} HeadFoldAll<T(!new)>(n: int, xs: seq<T>)
    ensures FoldAll(HeadList(n), xs) == Take(xs, n)
    decreases |xs|
  {
    if |xs| > 0 {
      var xs', t := xs[..|xs| - 1], xs[|xs| - 1];
      HeadFoldAll(n, xs');
      SplitLast(xs);
      TakeAppend(xs', [t], n);
    }
  }

  lemma TakeTake<T>(s: seq<T>, j: int, k: int)
    ensures Take(Take(s, j), k) == Take(s, if j < k then j else k)
  {
  }

  lemma HeadMergeAt<T(!new)>(n: int, us: seq<T>, vs: seq<T>)
    ensures HeadList<T>(n).merge(FoldAll(HeadList(n), us), FoldAll(HeadList(n), vs)) == FoldAll(HeadList(n), us + vs)
  {
    HeadFoldAll(n, us);
    HeadFoldAll(n, vs);
    HeadFoldAll(n, us + vs);
    HeadTopUp(n, us, vs);
  }

  /** Topping the first `n` of `us` up from the first `n` of `vs`. */
  lemma HeadTopUp<T>(n: int, us: seq<T>, vs: seq<T>)
    ensures Take(us, n) + Take(Take(vs, n), n - |Take(us, n)|) == Take(us + vs, n)
  {
    TakeAppend(us, vs, n);
    if n <= 0 || |us| >= n {
      assert |Take(us, n)| == if n <= 0 then 0 else n;
      assert Take(Take(vs, n), n - |Take(us, n)|) == [] && Take(vs, n - |us|) == [];
    } else {
      assert |Take(us, n)| == |us|;
      TakeTake(vs, n, n - |us|);
    }
  }

  /** `head(n)` is `limit(n)`: the first `n` elements; merges agree with the
      sequential result; a full list is final. */
  lemma HeadCollect<T(!new)>(n: int, xs: seq<T>)
    ensures Head<T>(n).Ignoring? <==> n <= 0
    ensures Head<T>(n).Keeping? ==> Head<T>(n).keep == HeadList(n)
    ensures HeadList<T>(n).chars == {IdentityFinish}
    ensures forall a :: IsFinished(HeadList<T>(n), a) <==> |a| >= n
    ensures RunList(Head(n), xs) == Take(xs, n)
    ensures MergeSound(HeadList<T>(n))
    ensures FoldKeepsFinished(HeadList<T>(n)) && MergeKeepsFinished(HeadList<T>(n)) && FinishedIsFinal(HeadList<T>(n))
  {
    HeadFoldAll(n, xs);
    HeadMergeSound<T>(n);
  }

  lemma HeadMergeSound<T(!new)>(n: int)
    ensures MergeSound(HeadList<T>(n))
  {
    forall us: seq<T>, vs: seq<T> ensures HeadList<T>(n).merge(FoldAll(HeadList(n), us), FoldAll(HeadList(n), vs)) == FoldAll(HeadList(n), us + vs) {
      HeadMergeAt(n, us, vs);
    }
  }

  // ---------------------------------------------------------------- tail

  /** `tail(n)`: `empty()` for `n <= 0`. */
  function Tail<T(!new)>(n: int): ListCollector<T, seq<T>>
  {
    if n <= 0 then Ignoring(Empty()) else Keeping(TailList(n))
  }

  /** The merge loop of `tail(n)`: move the left deque's last element to the
      front of the right one while the right one is short of `n`. */
  function TailMergeLoop<T>(n: int, a1: seq<T>, a2: seq<T>): seq<T>
    decreases |a1|
  {
    if |a2| < n && |a1| > 0 then TailMergeLoop(n, a1[..|a1| - 1], [a1[|a1| - 1]] + a2) else a2
  }

  /** The loop prepends as many of the left deque's last elements as fit. */
  lemma {:induction false} TailMergeLoopIsTakeLast<T>(n: int, a1: seq<T>, a2: seq<T>)
    ensures TailMergeLoop(n, a1, a2) == TakeLast(a1, n - |a2|) + a2
    decreases |a1|
  {
    if |a2| < n && |a1| > 0 {
      var a1', x := a1[..|a1| - 1], a1[|a1| - 1];
      assert TailMergeLoop(n, a1, a2) == TailMergeLoop(n, a1', [x] + a2);
      TailMergeLoopIsTakeLast(n, a1', [x] + a2);
      TakeLastLast(a1, n - |a2|);
      var front := TakeLast(a1', n - |a2| - 1);
      assert front + ([x] + a2) == (front + [x]) + a2;
    } else {
      assert TailMergeLoop(n, a1, a2) == a2 && TakeLast(a1, n - |a2|) == [];
    }
  }

  /** The deque accumulation of `tail(n)`: drop the oldest element when full,
      then append; polling an empty deque does nothing. */
  function TailList<T(!new)>(n: int): Collector<T, seq<T>, seq<T>>
  {
    Collector([],
      (a: seq<T>, t: T) => (if |a| == n && |a| > 0 then a[1..] else a) + [t],
      (a1: seq<T>, a2: seq<T>) => TailMergeLoop(n, a1, a2),
      (a: seq<T>) => a,
      None,
      {})
  }

  lemma TakeLastAppend<T>(a: seq<T>, b: seq<T>, k: int)
    ensures TakeLast(a + b, k) == TakeLast(a, k - |b|) + TakeLast(b, k)
  {
    if k <= 0 {
      assert TakeLast(a + b, k) == [] && TakeLast(a, k - |b|) == [] && TakeLast(b, k) == [];
    } else if k <= |b| {
      TakeLastAppendShort(a, b, k);
    } else if k < |a| + |b| {
      TakeLastAppendLong(a, b, k);
    } else {
      assert TakeLast(a + b, k) == a + b && TakeLast(a, k - |b|) == a && TakeLast(b, k) == b;
    }
  }

  lemma TakeLastAppendShort<T>(a: seq<T>, b: seq<T>, k: int)
    requires 0 < k <= |b|
    ensures TakeLast(a + b, k) == TakeLast(a, k - |b|) + TakeLast(b, k)
  {
    SliceAppendRight(a, b, |a| + |b| - k);
    assert TakeLast(a, k - |b|) == [];
  }

  lemma TakeLastAppendLong<T>(a: seq<T>, b: seq<T>, k: int)
    requires |b| < k < |a| + |b|
    ensures TakeLast(a + b, k) == TakeLast(a, k - |b|) + TakeLast(b, k)
  {
    SliceAppendLeft(a, b, |a| + |b| - k);
    assert TakeLast(b, k) == b;
  }

  lemma SliceAppendLeft<T>(a: seq<T>, b: seq<T>, i: int)
    requires 0 <= i <= |a|
    ensures (a + b)[i..] == a[i..] + b
  {
  }

  lemma SliceAppendRight<T>(a: seq<T>, b: seq<T>, i: int)
    requires |a| <= i <= |a| + |b|
    ensures (a + b)[i..] == b[i - |a|..]
  {
  }

  /** The last `k` elements end with the last element. */
  lemma TakeLastLast<T>(s: seq<T>, k: int)
    requires |s| > 0 && k > 0
    ensures TakeLast(s, k) == TakeLast(s[..|s| - 1], k - 1) + [s[|s| - 1]]
  {
    var s' := s[..|s| - 1];
    if k - 1 < |s'| {
      assert s[|s| - k..] == s'[|s'| - (k - 1)..] + [s[|s| - 1]];
    } else {
      assert s == s' + [s[|s| - 1]];
    }
  }

  lemma TakeLastTakeLast<T>(s: seq<T>, j: int, k: int)
    requires k <= j
    ensures TakeLast(TakeLast(s, j), k) == TakeLast(s, k)
  {
  }

  lemma {:induction false} TailFoldAll<T(!new)>(n: int, xs: seq<T>)
    requires n > 0
    ensures FoldAll(TailList(n), xs) == TakeLast(xs, n)
    decreases |xs|
  {
    if |xs| > 0 {
      var xs', t := xs[..|xs| - 1], xs[|xs| - 1];
      TailFoldAll(n, xs');
      TakeLastLast(xs, n);
      var a := TakeLast(xs', n);
      assert FoldAll(TailList(n), xs) == TailList(n).fold(a, t);
      if |a| == n {
        assert a[1..] == TakeLast(xs', n - 1);
      } else {
        assert a == TakeLast(xs', n - 1);
      }
    }
  }

  lemma TailMergeAt<T(!new)>(n: int, us: seq<T>, vs: seq<T>)
    requires n > 0
    ensures TailList<T>(n).merge(FoldAll(TailList(n), us), FoldAll(TailList(n), vs)) == FoldAll(TailList(n), us + vs)
  {
    TailFoldAll(n, us);
    TailFoldAll(n, vs);
    TailFoldAll(n, us + vs);
    var a1, a2 := TakeLast(us, n), TakeLast(vs, n);
    TailMergeLoopIsTakeLast(n, a1, a2);
    TakeLastAppend(us, vs, n);
    if |vs| < n {
      TakeLastTakeLast(us, n, n - |vs|);
    }
    assert TakeLast(a1, n - |a2|) == TakeLast(us, n - |vs|);
  }

  /** `tail(n)`: the last `n` elements, and merges agree with the sequential result. */
  lemma TailCollect<T(!new)>(n: int, xs: seq<T>)
    ensures Tail<T>(n).Ignoring? <==> n <= 0
    ensures Tail<T>(n).Keeping? ==> Tail<T>(n).keep == TailList(n)
    ensures TailList<T>(n).chars == {} && TailList<T>(n).finished.None?
    ensures RunList(Tail(n), xs) == TakeLast(xs, n)
    ensures n > 0 ==> MergeSound(TailList<T>(n))
  {
    if n > 0 {
      TailFoldAll(n, xs);
      forall us: seq<T>, vs: seq<T> ensures TailList<T>(n).merge(FoldAll(TailList(n), us), FoldAll(TailList(n), vs)) == FoldAll(TailList(n), us + vs) {
        TailMergeAt(n, us, vs);
      }
    }
  }
}
