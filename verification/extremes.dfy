/** The collectors that select by a comparator: `minBy`/`maxBy` and `minMax`,
    `least`/`greatest`, and `minIndex`/`maxIndex`. */
module Extremes {
  import opened Wrappers
  import opened Seqs
  import opened Comparators
  import opened Collectors
  import opened Combinators
  import Folds

  // ---------------------------------------------------------------- minBy / maxBy

  /** `Collectors.minBy(comparator)`: a reduction keeping the left operand unless
      the right one is strictly smaller. */
  function MinBy<T(!new)>(cmp: Comparator<T>): (c: Collector<T, Option<T>, Option<T>>)
    ensures c.finished.None? && c.chars == {}
  {
    Collector(None,
      (o: Option<T>, t: T) => if o.Some? && cmp(o.value, t) <= 0 then o else Some(t),
      (x: Option<T>, y: Option<T>) =>
        if y.None? then x else if x.None? then y else if cmp(x.value, y.value) <= 0 then x else y,
      (o: Option<T>) => o, None, {})
  }

  /** `Collectors.maxBy(comparator)`: keeps the left operand unless the right one
      is strictly greater. */
  function MaxBy<T(!new)>(cmp: Comparator<T>): (c: Collector<T, Option<T>, Option<T>>)
    ensures c.finished.None? && c.chars == {}
  {
    Collector(None,
      (o: Option<T>, t: T) => if o.Some? && cmp(o.value, t) >= 0 then o else Some(t),
      (x: Option<T>, y: Option<T>) =>
        if y.None? then x else if x.None? then y else if cmp(x.value, y.value) >= 0 then x else y,
      (o: Option<T>) => o, None, {})
  }

  /** minBy finds the first least element, or nothing in an empty input. */
  lemma {:induction false} MinByFoldAll<T(!new)>(cmp: Comparator<T>, xs: seq<T>)
    requires IsComparator(cmp)
    ensures FoldAll(MinBy(cmp), xs) == if |xs| == 0 then None else Some(xs[FirstLeastIndex(cmp, xs)])
    decreases |xs|
  {
    if |xs| > 0 {
      var xs', t := xs[..|xs| - 1], xs[|xs| - 1];
      SplitLast(xs);
      MinByFoldAll(cmp, xs');
      FirstLeastSnoc(cmp, xs', t);
    }
  }

  lemma MinByMergeSound<T(!new)>(cmp: Comparator<T>)
    requires IsComparator(cmp)
    ensures MergeSound(MinBy(cmp))
  {
    var c := MinBy(cmp);
    forall xs: seq<T>, ys: seq<T> ensures c.merge(FoldAll(c, xs), FoldAll(c, ys)) == FoldAll(c, xs + ys) {
      MinByFoldAll(cmp, xs);
      MinByFoldAll(cmp, ys);
      MinByFoldAll(cmp, xs + ys);
      if |xs| == 0 {
        assert xs + ys == ys;
      } else if |ys| == 0 {
        assert xs + ys == xs;
      } else {
        FirstLeastAppend(cmp, xs, ys);
      }
    }
  }

  /** maxBy finds the first greatest element, or nothing in an empty input. */
  lemma {:induction false} MaxByFoldAll<T(!new)>(cmp: Comparator<T>, xs: seq<T>)
    requires IsComparator(cmp)
    ensures FoldAll(MaxBy(cmp), xs) == if |xs| == 0 then None else Some(xs[FirstGreatestIndex(cmp, xs)])
    decreases |xs|
  {
    if |xs| > 0 {
      var xs', t := xs[..|xs| - 1], xs[|xs| - 1];
      SplitLast(xs);
      MaxByFoldAll(cmp, xs');
      FirstGreatestSnoc(cmp, xs', t);
      if |xs'| > 0 {
        Anti(cmp, xs'[FirstGreatestIndex(cmp, xs')], t);
      }
    }
  }

  lemma MaxByMergeSound<T(!new)>(cmp: Comparator<T>)
    requires IsComparator(cmp)
    ensures MergeSound(MaxBy(cmp))
  {
    var c := MaxBy(cmp);
    forall xs: seq<T>, ys: seq<T> ensures c.merge(FoldAll(c, xs), FoldAll(c, ys)) == FoldAll(c, xs + ys) {
      MaxByFoldAll(cmp, xs);
      MaxByFoldAll(cmp, ys);
      MaxByFoldAll(cmp, xs + ys);
      if |xs| == 0 {
        assert xs + ys == ys;
      } else if |ys| == 0 {
        assert xs + ys == xs;
      } else {
        FirstGreatestAppend(cmp, xs, ys);
      }
    }
  }

  // ---------------------------------------------------------------- minMax

  /** `minMax(comparator, finisher)`: minBy and maxBy paired; the finisher sees
      both extremes, and an empty input gives an empty result. */
  function MinMax<T(!new), R(!new)>(cmp: Comparator<T>, f: (T, T) -> R): (c: Collector<T, (Option<T>, Option<T>), Option<R>>)
    ensures c.finished.None? && c.chars == {}
  {
    Pairing(MinBy(cmp), MaxBy(cmp),
      (mn: Option<T>, mx: Option<T>) => if mn.Some? && mx.Some? then Some(f(mn.value, mx.value)) else None)
  }

  lemma MinMaxCollect<T(!new), R(!new)>(cmp: Comparator<T>, f: (T, T) -> R, xs: seq<T>)
    requires IsComparator(cmp)
    ensures Collect(MinMax(cmp, f), xs) ==
      if |xs| == 0 then None else Some(f(xs[FirstLeastIndex(cmp, xs)], xs[FirstGreatestIndex(cmp, xs)]))
  {
    PairingCollect(MinBy(cmp), MaxBy(cmp),
      (mn: Option<T>, mx: Option<T>) => if mn.Some? && mx.Some? then Some(f(mn.value, mx.value)) else None, xs);
    MinByFoldAll(cmp, xs);
    MaxByFoldAll(cmp, xs);
  }

  lemma MinMaxMergeSound<T(!new), R(!new)>(cmp: Comparator<T>, f: (T, T) -> R)
    requires IsComparator(cmp)
    ensures MergeSound(MinMax(cmp, f))
  {
    MinByMergeSound(cmp);
    MaxByMergeSound(cmp);
    PairingMergeSound(MinBy(cmp), MaxBy(cmp),
      (mn: Option<T>, mx: Option<T>) => if mn.Some? && mx.Some? then Some(f(mn.value, mx.value)) else None);
  }

  /** The spread of [4, 2, 9, 1] under the natural order is 9 - 1. */
  lemma MinMaxExample()
    ensures Collect(MinMax(NaturalOrder(), (a: int, b: int) => b - a), [4, 2, 9, 1]) == Some(8)
  {
    var cmp, xs := NaturalOrder(), [4, 2, 9, 1];
    NaturalOrderIsComparator();
    MinMaxCollect(cmp, (a: int, b: int) => b - a, xs);
    SpreadOfExample();
  }

  lemma SpreadOfExample()
    ensures FirstLeastIndex(NaturalOrder(), [4, 2, 9, 1]) == 3
    ensures FirstGreatestIndex(NaturalOrder(), [4, 2, 9, 1]) == 2
  {
    var cmp, xs := NaturalOrder(), [4, 2, 9, 1];
    NaturalOrderIsComparator();
    assert IsFirstLeast(cmp, xs, 3);
    FirstLeastUnique(cmp, xs, 3, FirstLeastIndex(cmp, xs));
    assert IsFirstGreatest(cmp, xs, 2);
    FirstGreatestUnique(cmp, xs, 2, FirstGreatestIndex(cmp, xs));
  }

  // ---------------------------------------------------------------- least / greatest

  /** The `n == 1` branch of `least`: a single box replaced only by a strictly
      smaller element; merging prefers the left box on ties. */
  function LeastOne<T(!new)>(cmp: Comparator<T>): (c: Collector<T, Option<T>, seq<T>>)
    ensures c.finished.None? && c.chars == {}
  {
    Collector(None,
      (b: Option<T>, t: T) => if b.None? || cmp(t, b.value) < 0 then Some(t) else b,
      (b1: Option<T>, b2: Option<T>) => if b2.Some? && (b1.None? || cmp(b2.value, b1.value) < 0) then b2 else b1,
      (b: Option<T>) => if b.None? then [] else [b.value], None, {})
  }

  /** The single box holds exactly what minBy holds. */
  lemma LeastOneIsMinBy<T(!new)>(cmp: Comparator<T>)
    requires IsComparator(cmp)
    ensures SameAccumulation(LeastOne(cmp), MinBy(cmp))
  {
    forall a: Option<T>, t: T ensures LeastOne(cmp).fold(a, t) == MinBy(cmp).fold(a, t) {
      if a.Some? {
        Anti(cmp, t, a.value);
      }
    }
    forall a: Option<T>, b: Option<T> ensures LeastOne(cmp).merge(a, b) == MinBy(cmp).merge(a, b) {
      if a.Some? && b.Some? {
        Anti(cmp, b.value, a.value);
      }
    }
  }

  lemma LeastOneCollect<T(!new)>(cmp: Comparator<T>, xs: seq<T>)
    requires IsComparator(cmp)
    ensures Collect(LeastOne(cmp), xs) == if |xs| == 0 then [] else [xs[FirstLeastIndex(cmp, xs)]]
    ensures MergeSound(LeastOne(cmp))
  {
    LeastOneIsMinBy(cmp);
    SameAccumulationFoldFrom(LeastOne(cmp), MinBy(cmp), None, xs);
    MinByFoldAll(cmp, xs);
    MinByMergeSound(cmp);
    SameAccumulationMergeSound(LeastOne(cmp), MinBy(cmp));
  }

  /** The first position in the sorted `s` whose element is strictly greater
      than `t`: inserting there keeps equal elements in arrival order. */
  function InsertPos<T>(cmp: Comparator<T>, s: seq<T>, t: T): (p: nat)
    ensures p <= |s|
    decreases |s|
  {
    if |s| == 0 || cmp(s[0], t) > 0 then 0 else 1 + InsertPos(cmp, s[1..], t)
  }

  lemma {:induction false} InsertPosBounds<T>(cmp: Comparator<T>, s: seq<T>, t: T)
    ensures forall q :: 0 <= q < InsertPos(cmp, s, t) ==> cmp(s[q], t) <= 0
    ensures InsertPos(cmp, s, t) < |s| ==> cmp(s[InsertPos(cmp, s, t)], t) > 0
    decreases |s|
  {
    if |s| > 0 && cmp(s[0], t) <= 0 {
      InsertPosBounds(cmp, s[1..], t);
    }
  }

  function Insert<T>(cmp: Comparator<T>, s: seq<T>, t: T): (r: seq<T>)
    ensures |r| == |s| + 1
  {
    var p := InsertPos(cmp, s, t);
    s[..p] + [t] + s[p..]
  }

  /** A stable insertion sort: the reference for `List.sort`, which is stable. */
  function Sort<T>(cmp: Comparator<T>, xs: seq<T>): (r: seq<T>)
    ensures |r| == |xs|
    decreases |xs|
  {
    if |xs| == 0 then [] else Insert(cmp, Sort(cmp, xs[..|xs| - 1]), xs[|xs| - 1])
  }

  ghost predicate Sorted<T>(cmp: Comparator<T>, s: seq<T>)
  {
    forall i, j :: 0 <= i < j < |s| ==> cmp(s[i], s[j]) <= 0
  }

  lemma InsertSorted<T(!new)>(cmp: Comparator<T>, s: seq<T>, t: T)
    requires IsComparator(cmp) && Sorted(cmp, s)
    ensures Sorted(cmp, Insert(cmp, s, t))
  {
    var p, r := InsertPos(cmp, s, t), Insert(cmp, s, t);
    InsertPosBounds(cmp, s, t);
    assert forall q :: 0 <= q < p ==> r[q] == s[q];
    assert r[p] == t;
    assert forall q :: p < q < |r| ==> r[q] == s[q - 1];
    forall i, j | 0 <= i < j < |r| ensures cmp(r[i], r[j]) <= 0 {
      if j > p && i == p {
        Anti(cmp, s[p], t);
        if p < j - 1 {
          TransLtLe(cmp, t, s[p], s[j - 1]);
        }
      }
    }
  }

  lemma {:induction false} SortSorted<T(!new)>(cmp: Comparator<T>, xs: seq<T>)
    requires IsComparator(cmp)
    ensures Sorted(cmp, Sort(cmp, xs))
    decreases |xs|
  {
    if |xs| > 0 {
      SortSorted(cmp, xs[..|xs| - 1]);
      InsertSorted(cmp, Sort(cmp, xs[..|xs| - 1]), xs[|xs| - 1]);
    }
  }

  lemma {:induction false} SortPermutes<T>(cmp: Comparator<T>, xs: seq<T>)
    ensures multiset(Sort(cmp, xs)) == multiset(xs)
    decreases |xs|
  {
    if |xs| > 0 {
      var xs', t := xs[..|xs| - 1], xs[|xs| - 1];
      SplitLast(xs);
      SortPermutes(cmp, xs');
      var s := Sort(cmp, xs');
      var p := InsertPos(cmp, s, t);
      assert s == s[..p] + s[p..];
    }
  }

  /** Behind the insertion point of `t` nothing ties with `t`. */
  lemma NoTiesBehindInsertPos<T(!new)>(cmp: Comparator<T>, s: seq<T>, t: T, b: T)
    requires IsComparator(cmp) && Sorted(cmp, s) && cmp(t, b) == 0
    ensures Ties(cmp, s[InsertPos(cmp, s, t)..], b) == []
  {
    var p := InsertPos(cmp, s, t);
    var hi := s[p..];
    InsertPosBounds(cmp, s, t);
    forall q | 0 <= q < |hi| ensures cmp(hi[q], b) != 0 {
      Anti(cmp, s[p], t);
      if q > 0 {
        TransLtLe(cmp, t, s[p], s[p + q]);
      }
      Anti(cmp, t, s[p + q]);
      EquivSubst(cmp, t, b, s[p + q]);
    }
    FilterAllOrNone((x: T) => cmp(x, b) == 0, hi);
  }

  /** Inserting `t` adds it at the end of its ties and leaves other ties alone. */
  lemma InsertTies<T(!new)>(cmp: Comparator<T>, s: seq<T>, t: T, b: T)
    requires IsComparator(cmp) && Sorted(cmp, s)
    ensures Ties(cmp, Insert(cmp, s, t), b) == Ties(cmp, s, b) + if cmp(t, b) == 0 then [t] else []
  {
    var p := InsertPos(cmp, s, t);
    var lo, hi := s[..p], s[p..];
    assert s == lo + hi;
    TiesAround(cmp, lo, t, hi, b);
    if cmp(t, b) == 0 {
      NoTiesBehindInsertPos(cmp, s, t, b);
    }
  }

  lemma TiesAround<T>(cmp: Comparator<T>, lo: seq<T>, t: T, hi: seq<T>, b: T)
    ensures Ties(cmp, lo + [t] + hi, b) == Ties(cmp, lo, b) + Ties(cmp, [t], b) + Ties(cmp, hi, b)
    ensures Ties(cmp, lo + hi, b) == Ties(cmp, lo, b) + Ties(cmp, hi, b)
  {
    TiesAppend(cmp, lo + [t], hi, b);
    TiesAppend(cmp, lo, [t], b);
    TiesAppend(cmp, lo, hi, b);
  }

  /** The sort is stable: the elements equal to any `b` keep their input order. */
  lemma {:induction false} SortStable<T(!new)>(cmp: Comparator<T>, xs: seq<T>, b: T)
    requires IsComparator(cmp)
    ensures Ties(cmp, Sort(cmp, xs), b) == Ties(cmp, xs, b)
    decreases |xs|
  {
    if |xs| > 0 {
      var xs', t := xs[..|xs| - 1], xs[|xs| - 1];
      SortStable(cmp, xs', b);
      SortSorted(cmp, xs');
      InsertTies(cmp, Sort(cmp, xs'), t, b);
    }
  }

  /** The head of the sorted sequence is the first least element. */
  lemma {:induction false} SortHead<T(!new)>(cmp: Comparator<T>, xs: seq<T>)
    requires IsComparator(cmp) && |xs| > 0
    ensures Sort(cmp, xs)[0] == xs[FirstLeastIndex(cmp, xs)]
    decreases |xs|
  {
    var xs', t := xs[..|xs| - 1], xs[|xs| - 1];
    SplitLast(xs);
    FirstLeastSnoc(cmp, xs', t);
    if |xs'| > 0 {
      SortHead(cmp, xs');
    }
  }

  /** The `n >= Integer.MAX_VALUE / 2` branch of `least`: collect everything,
      sort stably and keep the first `n`. */
  function LeastSorted<T(!new)>(cmp: Comparator<T>, n: int): (c: Collector<T, seq<T>, seq<T>>)
    ensures c.finished.None? && c.chars == {}
  {
    CollectingAndThen(ToList(), (l: seq<T>) => Take(Sort(cmp, l), n))
  }

  /** `Integer.MAX_VALUE / 2`, above which `least` sorts the whole input. */
  const SortAllThreshold: int := 1073741823

  /** `least(comparator, n)` picks an accumulator by `n`; each modelled branch
      carries its collector. */
  datatype LeastCollector<!T> =
    | NoneWanted(empty: Collector<T, Folds.Nothing, seq<T>>)
    | OneWanted(one: Collector<T, Option<T>, seq<T>>)
    | SortedPrefix(sorted: Collector<T, seq<T>, seq<T>>)
    | BoundedHeap(n: int)

  /** `least(comparator, n)`: the `n` least elements in sorted order. */
  function Least<T(!new)>(cmp: Comparator<T>, n: int): (r: LeastCollector<T>)
    ensures r.NoneWanted? <==> n <= 0
    ensures r.BoundedHeap? <==> 1 < n < SortAllThreshold
  {
    if n <= 0 then NoneWanted(Folds.Empty())
    else if n == 1 then OneWanted(LeastOne(cmp))
    else if n >= SortAllThreshold then SortedPrefix(LeastSorted(cmp, n))
    else BoundedHeap(n)
  }

  /** The result of a sequential reduction by a modelled branch of `least`. */
  function RunLeast<T(!new)>(lc: LeastCollector<T>, xs: seq<T>): Option<seq<T>>
  {
    match lc
    case NoneWanted(c) => Some(Collect(c, xs))
    case OneWanted(c) => Some(Collect(c, xs))
    case SortedPrefix(c) => Some(Collect(c, xs))
    case BoundedHeap(_) => None
  }

  lemma LeastOneIsSortedHead<T(!new)>(cmp: Comparator<T>, xs: seq<T>)
    requires IsComparator(cmp)
    ensures Collect(LeastOne(cmp), xs) == Take(Sort(cmp, xs), 1)
  {
    LeastOneCollect(cmp, xs);
    if |xs| > 0 {
      SortHead(cmp, xs);
    }
  }

  lemma LeastSortedCollect<T(!new)>(cmp: Comparator<T>, n: int, xs: seq<T>)
    ensures Collect(LeastSorted(cmp, n), xs) == Take(Sort(cmp, xs), n)
  {
    CollectingAndThenFoldAll(ToList(), (l: seq<T>) => Take(Sort(cmp, l), n), xs);
    ToListFoldAll(xs);
  }

  /** Every modelled branch of `least(comparator, n)` computes the first `n`
      elements of the stably sorted input. */
  lemma LeastIsSortedPrefix<T(!new)>(cmp: Comparator<T>, n: int, xs: seq<T>)
    requires IsComparator(cmp)
    ensures !Least(cmp, n).BoundedHeap? ==> RunLeast(Least(cmp, n), xs) == Some(Take(Sort(cmp, xs), n))
  {
    if n == 1 {
      LeastOneIsSortedHead(cmp, xs);
    } else if n >= SortAllThreshold {
      LeastSortedCollect(cmp, n, xs);
    }
  }

  /** Every modelled branch of `least` may be evaluated in parallel. */
  lemma LeastMergeSound<T(!new)>(cmp: Comparator<T>, n: int)
    requires IsComparator(cmp)
    ensures match Least(cmp, n)
      case NoneWanted(c) => MergeSound(c) && IsFinished(c, c.create)
      case OneWanted(c) => MergeSound(c)
      case SortedPrefix(c) => MergeSound(c)
      case BoundedHeap(_) => true
  {
    if n == 1 {
      LeastOneCollect(cmp, []);
    } else if n >= SortAllThreshold {
      ToListMergeSound<T>();
      CollectingAndThenMergeSound(ToList(), (l: seq<T>) => Take(Sort(cmp, l), n));
    }
  }

  /** `greatest(comparator, n)`: `least` under the reversed comparator. */
  function Greatest<T(!new)>(cmp: Comparator<T>, n: int): (r: LeastCollector<T>)
    ensures r.NoneWanted? <==> n <= 0
    ensures r.BoundedHeap? <==> 1 < n < SortAllThreshold
  {
    Least(Reversed(cmp), n)
  }

  /** The modelled branches of `greatest` compute the first `n` elements of the
      input stably sorted in descending order; the first of them is the first
      greatest element. */
  lemma GreatestIsSortedPrefix<T(!new)>(cmp: Comparator<T>, n: int, xs: seq<T>)
    requires IsComparator(cmp)
    ensures !Greatest(cmp, n).BoundedHeap? ==>
      RunLeast(Greatest(cmp, n), xs) == Some(Take(Sort(Reversed(cmp), xs), n))
    ensures Sorted(Reversed(cmp), Sort(Reversed(cmp), xs))
    ensures |xs| > 0 ==> Sort(Reversed(cmp), xs)[0] == xs[FirstGreatestIndex(cmp, xs)]
  {
    ReversedIsComparator(cmp);
    LeastIsSortedPrefix(Reversed(cmp), n, xs);
    SortSorted(Reversed(cmp), xs);
    if |xs| > 0 {
      SortHead(Reversed(cmp), xs);
      FirstGreatestIsReversedLeast(cmp, xs);
    }
  }

  // ---------------------------------------------------------------- minIndex / maxIndex

  /** The container of `minIndex`: the best value so far, the number of
      elements seen and the position of the best one (-1 before any). */
  datatype IndexBox<T> = IndexBox(value: Option<T>, count: int, index: int)

  /** `minIndex(comparator)`: the position of the first least element. */
  function MinIndex<T(!new)>(cmp: Comparator<T>): (c: Collector<T, IndexBox<T>, Option<int>>)
    ensures c.finished.None? && c.chars == {}
  {
    Collector(IndexBox(None, 0, -1),
      (c: IndexBox<T>, t: T) =>
        if c.index == -1 || c.value.None? || cmp(c.value.value, t) > 0
        then IndexBox(Some(t), c.count + 1, c.count)
        else c.(count := c.count + 1),
      (c1: IndexBox<T>, c2: IndexBox<T>) =>
        if c1.index == -1 || (c2.index != -1 && c1.value.Some? && c2.value.Some? && cmp(c1.value.value, c2.value.value) > 0)
        then c2.(index := c2.index + c1.count, count := c2.count + c1.count)
        else c1.(count := c1.count + c2.count),
      (c: IndexBox<T>) => if c.index == -1 then None else Some(c.index),
      None, {})
  }

  /** The container counts the input and holds its first least element and its position. */
  lemma {:induction false} MinIndexFoldAll<T(!new)>(cmp: Comparator<T>, xs: seq<T>)
    requires IsComparator(cmp)
    ensures FoldAll(MinIndex(cmp), xs) ==
      if |xs| == 0 then IndexBox(None, 0, -1)
      else IndexBox(Some(xs[FirstLeastIndex(cmp, xs)]), |xs|, FirstLeastIndex(cmp, xs))
    decreases |xs|
  {
    if |xs| > 0 {
      var xs', t := xs[..|xs| - 1], xs[|xs| - 1];
      SplitLast(xs);
      MinIndexFoldAll(cmp, xs');
      FirstLeastSnoc(cmp, xs', t);
    }
  }

  /** The result is absent exactly for an empty input, and otherwise names the
      first least element. */
  lemma MinIndexCollect<T(!new)>(cmp: Comparator<T>, xs: seq<T>)
    requires IsComparator(cmp)
    ensures Collect(MinIndex(cmp), xs).None? <==> |xs| == 0
    ensures |xs| > 0 ==> IsFirstLeast(cmp, xs, Collect(MinIndex(cmp), xs).value)
  {
    MinIndexFoldAll(cmp, xs);
  }

  lemma MinIndexMergeSound<T(!new)>(cmp: Comparator<T>)
    requires IsComparator(cmp)
    ensures MergeSound(MinIndex(cmp))
  {
    var c := MinIndex(cmp);
    forall xs: seq<T>, ys: seq<T> ensures c.merge(FoldAll(c, xs), FoldAll(c, ys)) == FoldAll(c, xs + ys) {
      MinIndexFoldAll(cmp, xs);
      MinIndexFoldAll(cmp, ys);
      MinIndexFoldAll(cmp, xs + ys);
      if |xs| == 0 {
        assert xs + ys == ys;
      } else if |ys| == 0 {
        assert xs + ys == xs;
      } else {
        FirstLeastAppend(cmp, xs, ys);
        Anti(cmp, xs[FirstLeastIndex(cmp, xs)], ys[FirstLeastIndex(cmp, ys)]);
      }
    }
  }

  /** In [5, 1, 1, 3] the first least element is at position 1, however the
      input is split between two partitions. */
  lemma MinIndexExample(k: int)
    requires 0 <= k <= 4
    ensures var c, xs := MinIndex(NaturalOrder()), [5, 1, 1, 3];
      c.finish(c.merge(FoldAll(c, xs[..k]), FoldAll(c, xs[k..]))) == Some(1)
  {
    var cmp, xs := NaturalOrder(), [5, 1, 1, 3];
    var c := MinIndex(cmp);
    NaturalOrderIsComparator();
    MinIndexMergeSound(cmp);
    assert xs[..k] + xs[k..] == xs;
    assert c.merge(FoldAll(c, xs[..k]), FoldAll(c, xs[k..])) == FoldAll(c, xs);
    MinIndexOfExample();
    MinIndexFoldAll(cmp, xs);
  }

  lemma MinIndexOfExample()
    ensures FirstLeastIndex(NaturalOrder(), [5, 1, 1, 3]) == 1
  {
    var cmp, xs := NaturalOrder(), [5, 1, 1, 3];
    NaturalOrderIsComparator();
    assert IsFirstLeast(cmp, xs, 1);
    FirstLeastUnique(cmp, xs, 1, FirstLeastIndex(cmp, xs));
  }

  /** `maxIndex(comparator)`: `minIndex` under the reversed comparator. */
  function MaxIndex<T(!new)>(cmp: Comparator<T>): (c: Collector<T, IndexBox<T>, Option<int>>)
    ensures c.finished.None? && c.chars == {}
  {
    MinIndex(Reversed(cmp))
  }

  lemma MaxIndexCollect<T(!new)>(cmp: Comparator<T>, xs: seq<T>)
    requires IsComparator(cmp)
    ensures Collect(MaxIndex(cmp), xs).None? <==> |xs| == 0
    ensures |xs| > 0 ==> IsFirstGreatest(cmp, xs, Collect(MaxIndex(cmp), xs).value)
    ensures MergeSound(MaxIndex(cmp))
  {
    ReversedIsComparator(cmp);
    MinIndexFoldAll(Reversed(cmp), xs);
    MinIndexMergeSound(Reversed(cmp));
    if |xs| > 0 {
      FirstGreatestIsReversedLeast(cmp, xs);
    }
  }
}
