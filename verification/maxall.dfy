/** `maxAll` and `minAll`: all elements tied for the extreme, reduced by a
    downstream collector or gathered into a list of bounded size. */
module MaxAll {
  import opened Wrappers
  import opened Seqs
  import opened Comparators
  import opened Collectors

  /** The accumulator: the downstream state of the current extreme's ties and
      the current extreme (absent before the first element). */
  datatype MaxAllBox<A, T> = MaxAllBox(a: A, best: Option<T>)

  /** `maxAll(comparator, downstream)`. A strictly greater element restarts the
      downstream state; an equal one is added to it; merging keeps the side with
      the greater extreme and merges the downstream states on a tie. */
  function MaxAllWith<T(!new), A(!new), R(!new)>(cmp: Comparator<T>, d: Collector<T, A, R>): (c: Collector<T, MaxAllBox<A, T>, R>)
    ensures c.finished.None? && c.chars == {}
  {
    Collector(MaxAllBox(d.create, None),
      (acc: MaxAllBox<A, T>, t: T) =>
        if acc.best.None? then MaxAllBox(d.fold(acc.a, t), Some(t))
        else
          var order := cmp(t, acc.best.value);
          var a0 := if order > 0 then d.create else acc.a;
          var b0 := if order > 0 then t else acc.best.value;
          MaxAllBox(if order >= 0 then d.fold(a0, t) else a0, Some(b0)),
      (x: MaxAllBox<A, T>, y: MaxAllBox<A, T>) =>
        if y.best.None? then x
        else if x.best.None? then y
        else
          var order := cmp(x.best.value, y.best.value);
          if order > 0 then x else if order < 0 then y else MaxAllBox(d.merge(x.a, y.a), x.best),
      (acc: MaxAllBox<A, T>) => d.finish(acc.a),
      None, {})
  }

  /** The state after the whole input: the downstream has folded exactly the
      ties of the first greatest element, in input order. */
  lemma {:induction false} MaxAllWithFoldAll<T(!new), A(!new), R(!new)>(cmp: Comparator<T>, d: Collector<T, A, R>, xs: seq<T>)
    requires IsComparator(cmp)
    ensures FoldAll(MaxAllWith(cmp, d), xs) ==
      if |xs| == 0 then MaxAllBox(d.create, None)
      else var b := xs[FirstGreatestIndex(cmp, xs)]; MaxAllBox(FoldAll(d, Ties(cmp, xs, b)), Some(b))
    decreases |xs|
  {
    if |xs| > 0 {
      var xs', t := xs[..|xs| - 1], xs[|xs| - 1];
      MaxAllWithFoldAll(cmp, d, xs');
      assert FoldAll(MaxAllWith(cmp, d), xs) == MaxAllWith(cmp, d).fold(MaxAllState(cmp, d, xs'), t);
      MaxAllWithStep(cmp, d, xs', t);
      SplitLast(xs);
    }
  }

  /** The state `MaxAllWithFoldAll` promises after `xs`. */
  ghost function MaxAllState<T(!new), A(!new), R(!new)>(cmp: Comparator<T>, d: Collector<T, A, R>, xs: seq<T>): MaxAllBox<A, T>
    requires IsComparator(cmp)
  {
    if |xs| == 0 then MaxAllBox(d.create, None)
    else var b := xs[FirstGreatestIndex(cmp, xs)]; MaxAllBox(FoldAll(d, Ties(cmp, xs, b)), Some(b))
  }

  lemma MaxAllWithStep<T(!new), A(!new), R(!new)>(cmp: Comparator<T>, d: Collector<T, A, R>, xs: seq<T>, t: T)
    requires IsComparator(cmp)
    ensures MaxAllWith(cmp, d).fold(MaxAllState(cmp, d, xs), t) == MaxAllState(cmp, d, xs + [t])
  {
    FirstGreatestSnoc(cmp, xs, t);
    if |xs| == 0 {
      MaxAllStepFirst(cmp, d, t);
      assert xs + [t] == [t];
    } else if cmp(t, xs[FirstGreatestIndex(cmp, xs)]) > 0 {
      MaxAllStepAbove(cmp, d, xs, t);
    } else {
      MaxAllStepNotAbove(cmp, d, xs, t);
    }
  }

  lemma MaxAllStepFirst<T(!new), A(!new), R(!new)>(cmp: Comparator<T>, d: Collector<T, A, R>, t: T)
    requires IsComparator(cmp)
    ensures MaxAllWith(cmp, d).fold(MaxAllState(cmp, d, []), t) == MaxAllState(cmp, d, [t])
  {
    Refl(cmp, t);
    TiesSingle(cmp, t, t);
    FoldFromSnoc(d, d.create, [], t);
  }

  /** An element that is not a new strict maximum is added to the ties when it
      equals the maximum and dropped otherwise. */
  lemma MaxAllStepNotAbove<T(!new), A(!new), R(!new)>(cmp: Comparator<T>, d: Collector<T, A, R>, xs: seq<T>, t: T)
    requires IsComparator(cmp) && |xs| > 0 && cmp(t, xs[FirstGreatestIndex(cmp, xs)]) <= 0
    requires FirstGreatestIndex(cmp, xs + [t]) == FirstGreatestIndex(cmp, xs)
    ensures MaxAllWith(cmp, d).fold(MaxAllState(cmp, d, xs), t) == MaxAllState(cmp, d, xs + [t])
  {
    var b := xs[FirstGreatestIndex(cmp, xs)];
    assert (xs + [t])[FirstGreatestIndex(cmp, xs)] == b;
    TiesAppend(cmp, xs, [t], b);
    TiesSingle(cmp, t, b);
    var ties := Ties(cmp, xs, b);
    if cmp(t, b) == 0 {
      assert Ties(cmp, xs + [t], b) == ties + [t];
      FoldFromSnoc(d, d.create, ties, t);
    } else {
      assert Ties(cmp, xs + [t], b) == ties + [] == ties;
    }
  }

  /** A new strict maximum starts over with itself alone. */
  lemma MaxAllStepAbove<T(!new), A(!new), R(!new)>(cmp: Comparator<T>, d: Collector<T, A, R>, xs: seq<T>, t: T)
    requires IsComparator(cmp) && |xs| > 0 && cmp(t, xs[FirstGreatestIndex(cmp, xs)]) > 0
    requires FirstGreatestIndex(cmp, xs + [t]) == |xs|
    ensures MaxAllWith(cmp, d).fold(MaxAllState(cmp, d, xs), t) == MaxAllState(cmp, d, xs + [t])
  {
    var g := FirstGreatestIndex(cmp, xs);
    Refl(cmp, t);
    TiesAboveGreatest(cmp, xs, g, t);
    TiesAppend(cmp, xs, [t], t);
    TiesSingle(cmp, t, t);
    assert Ties(cmp, xs + [t], t) == [] + [t];
    FoldFromSnoc(d, d.create, [], t);
  }

  /** Where the first greatest element of a concatenation comes from, and
      which ties it has: the side with the greater extreme wins, the left side
      on equal extremes, whose ties are then those of both sides. */
  lemma GreatestTiesAppend<T(!new)>(cmp: Comparator<T>, xs: seq<T>, ys: seq<T>)
    requires IsComparator(cmp) && |xs| > 0 && |ys| > 0
    ensures var g, h := FirstGreatestIndex(cmp, xs), FirstGreatestIndex(cmp, ys);
      var bA, bB := xs[g], ys[h];
      var gz := FirstGreatestIndex(cmp, xs + ys);
      && (cmp(bA, bB) > 0 ==> gz == g && Ties(cmp, xs + ys, bA) == Ties(cmp, xs, bA))
      && (cmp(bA, bB) < 0 ==> gz == |xs| + h && Ties(cmp, xs + ys, bB) == Ties(cmp, ys, bB))
      && (cmp(bA, bB) == 0 ==> gz == g && Ties(cmp, xs + ys, bA) == Ties(cmp, xs, bA) + Ties(cmp, ys, bB))
  {
    FirstGreatestAppend(cmp, xs, ys);
    var g, h := FirstGreatestIndex(cmp, xs), FirstGreatestIndex(cmp, ys);
    var bA, bB := xs[g], ys[h];
    Anti(cmp, bA, bB);
    FilterAppend((x: T) => cmp(x, bA) == 0, xs, ys);
    FilterAppend((x: T) => cmp(x, bB) == 0, xs, ys);
    if cmp(bA, bB) > 0 {
      TiesAboveGreatest(cmp, ys, h, bA);
    } else if cmp(bA, bB) < 0 {
      TiesAboveGreatest(cmp, xs, g, bB);
    } else {
      TiesOfEquivalent(cmp, ys, bA, bB);
    }
  }

  /** Merging the two halves of a split input, when both are non-empty. */
  lemma MaxAllWithMergeAt<T(!new), A(!new), R(!new)>(cmp: Comparator<T>, d: Collector<T, A, R>, xs: seq<T>, ys: seq<T>)
    requires IsComparator(cmp) && MergeSound(d) && |xs| > 0 && |ys| > 0
    ensures var c := MaxAllWith(cmp, d); c.merge(FoldAll(c, xs), FoldAll(c, ys)) == FoldAll(c, xs + ys)
  {
    MaxAllWithFoldAll(cmp, d, xs);
    MaxAllWithFoldAll(cmp, d, ys);
    MaxAllWithFoldAll(cmp, d, xs + ys);
    GreatestTiesAppend(cmp, xs, ys);
    var g, h := FirstGreatestIndex(cmp, xs), FirstGreatestIndex(cmp, ys);
    var bA, bB := xs[g], ys[h];
    if cmp(bA, bB) == 0 {
      assert d.merge(FoldAll(d, Ties(cmp, xs, bA)), FoldAll(d, Ties(cmp, ys, bB))) ==
        FoldAll(d, Ties(cmp, xs, bA) + Ties(cmp, ys, bB));
    } else if cmp(bA, bB) < 0 {
      assert (xs + ys)[|xs| + h] == bB;
    }
  }

  /** maxAll may be evaluated in parallel when its downstream may. */
  lemma MaxAllWithMergeSound<T(!new), A(!new), R(!new)>(cmp: Comparator<T>, d: Collector<T, A, R>)
    requires IsComparator(cmp) && MergeSound(d)
    ensures MergeSound(MaxAllWith(cmp, d))
  {
    var c := MaxAllWith(cmp, d);
    forall xs: seq<T>, ys: seq<T> ensures c.merge(FoldAll(c, xs), FoldAll(c, ys)) == FoldAll(c, xs + ys) {
      if |xs| == 0 {
        assert xs + ys == ys;
        MaxAllWithFoldAll(cmp, d, xs);
      } else if |ys| == 0 {
        assert xs + ys == xs;
        MaxAllWithFoldAll(cmp, d, ys);
      } else {
        MaxAllWithMergeAt(cmp, d, xs, ys);
      }
    }
  }

  /** The result of maxAll is the downstream's result over the ties of the
      greatest element (over nothing for an empty input). */
  lemma MaxAllWithCollect<T(!new), A(!new), R(!new)>(cmp: Comparator<T>, d: Collector<T, A, R>, xs: seq<T>)
    requires IsComparator(cmp)
    ensures Collect(MaxAllWith(cmp, d), xs) ==
      Collect(d, if |xs| == 0 then [] else Ties(cmp, xs, xs[FirstGreatestIndex(cmp, xs)]))
  {
    MaxAllWithFoldAll(cmp, d, xs);
  }

  /** The list with room for at most `k` elements: additions beyond `k` are
      dropped, and a merge appends only what still fits. */
  function BoundedList<T(!new)>(k: int): Collector<T, seq<T>, seq<T>>
  {
    Collector([],
      (l: seq<T>, t: T) => if |l| < k then l + [t] else l,
      (l1: seq<T>, l2: seq<T>) =>
        if |l1| < k then (if |l2| <= k - |l1| then l1 + l2 else l1 + l2[..k - |l1|]) else l1,
      (l: seq<T>) => l, None, {})
  }

  lemma {:induction false} BoundedListFoldAll<T(!new)>(k: int, xs: seq<T>)
    ensures FoldAll(BoundedList(k), xs) == Take(xs, k)
    decreases |xs|
  {
    if |xs| > 0 {
      var xs' := xs[..|xs| - 1];
      BoundedListFoldAll(k, xs');
      if |xs'| < k {
        assert xs' + [xs[|xs| - 1]] == xs;
      } else if k > 0 {
        assert xs[..k] == xs'[..k];
      }
    }
  }

  lemma BoundedListMergeSound<T(!new)>(k: int)
    ensures MergeSound(BoundedList<T>(k))
  {
    var c := BoundedList<T>(k);
    forall xs: seq<T>, ys: seq<T> ensures c.merge(FoldAll(c, xs), FoldAll(c, ys)) == FoldAll(c, xs + ys) {
      BoundedListFoldAll(k, xs);
      BoundedListFoldAll(k, ys);
      BoundedListFoldAll(k, xs + ys);
      TakeAppend(xs, ys, k);
    }
  }

  /** `maxAll(comparator, atMostSize)` as written: the list is cleared when a
      strictly greater element arrives and grows only while shorter than
      `atMostSize`. */
  function MaxAllBoundedList<T(!new)>(cmp: Comparator<T>, k: int): (c: Collector<T, MaxAllBox<seq<T>, T>, seq<T>>)
    ensures c.finished.None? && c.chars == {}
  {
    Collector(MaxAllBox([], None),
      (acc: MaxAllBox<seq<T>, T>, t: T) =>
        if acc.best.None? then MaxAllBox(if |acc.a| < k then acc.a + [t] else acc.a, Some(t))
        else
          var order := cmp(t, acc.best.value);
          var l := if order > 0 then [] else acc.a;
          var b := if order > 0 then t else acc.best.value;
          MaxAllBox(if order >= 0 && |l| < k then l + [t] else l, Some(b)),
      (x: MaxAllBox<seq<T>, T>, y: MaxAllBox<seq<T>, T>) =>
        if y.best.None? then x
        else if x.best.None? then y
        else
          var order := cmp(x.best.value, y.best.value);
          if order > 0 then x
          else if order < 0 then y
          else if |x.a| < k then
            MaxAllBox(if |y.a| <= k - |x.a| then x.a + y.a else x.a + y.a[..k - |x.a|], x.best)
          else x,
      (acc: MaxAllBox<seq<T>, T>) => acc.a,
      None, {})
  }

  /** The bounded variant is the downstream variant reducing into a bounded list. */
  lemma MaxAllBoundedListIsMaxAllWith<T(!new)>(cmp: Comparator<T>, k: int)
    ensures SameAccumulation(MaxAllBoundedList(cmp, k), MaxAllWith(cmp, BoundedList(k)))
    ensures forall acc :: MaxAllBoundedList(cmp, k).finish(acc) == MaxAllWith(cmp, BoundedList(k)).finish(acc)
  {
  }

  /** `Integer.MAX_VALUE`, the bound `maxAll(comparator)` passes on. */
  const IntMax: int := 2147483647

  /** `maxAll(comparator, atMostSize)`: a negative size is the capacity the list
      cannot be created with. */
  function MaxAllBounded<T(!new)>(cmp: Comparator<T>, atMostSize: int): (r: Result<Collector<T, MaxAllBox<seq<T>, T>, seq<T>>>)
    ensures r.Failure? <==> atMostSize < 0
    ensures r.Failure? ==> r.error.IllegalArgument?
  {
    if atMostSize < 0 then Failure(IllegalArgument("Illegal Capacity"))
    else Success(MaxAllBoundedList(cmp, atMostSize))
  }

  /** The bounded result is the first `atMostSize` ties of the greatest element,
      in input order, and splitting the input does not change it. */
  lemma MaxAllBoundedCollect<T(!new)>(cmp: Comparator<T>, k: int, xs: seq<T>)
    requires IsComparator(cmp)
    ensures Collect(MaxAllBoundedList(cmp, k), xs) ==
      if |xs| == 0 then [] else Take(Ties(cmp, xs, xs[FirstGreatestIndex(cmp, xs)]), k)
    ensures MergeSound(MaxAllBoundedList(cmp, k))
  {
    MaxAllBoundedListIsMaxAllWith(cmp, k);
    SameAccumulationFoldFrom(MaxAllBoundedList(cmp, k), MaxAllWith(cmp, BoundedList(k)), MaxAllBox([], None), xs);
    MaxAllWithFoldAll(cmp, BoundedList(k), xs);
    if |xs| > 0 {
      BoundedListFoldAll(k, Ties(cmp, xs, xs[FirstGreatestIndex(cmp, xs)]));
    }
    BoundedListMergeSound<T>(k);
    MaxAllWithMergeSound(cmp, BoundedList(k));
    SameAccumulationMergeSound(MaxAllBoundedList(cmp, k), MaxAllWith(cmp, BoundedList(k)));
  }

  /** The ties of the first greatest element are greatest elements of the
      input, and there is at least one: the first greatest element itself. */
  lemma TiesOfGreatest<T(!new)>(cmp: Comparator<T>, xs: seq<T>)
    requires IsComparator(cmp) && |xs| > 0
    ensures var ties := Ties(cmp, xs, xs[FirstGreatestIndex(cmp, xs)]);
      && |ties| > 0
      && forall x, i :: x in ties && 0 <= i < |xs| ==> x in xs && cmp(x, xs[i]) >= 0
  {
    var g := FirstGreatestIndex(cmp, xs);
    var b := xs[g];
    var eq := (x: T) => cmp(x, b) == 0;
    var ties := Ties(cmp, xs, b);
    FilterMembers(eq, xs);
    Refl(cmp, b);
    assert xs == xs[..g] + ([b] + xs[g + 1..]);
    FilterAppend(eq, xs[..g], [b] + xs[g + 1..]);
    FilterAppend(eq, [b], xs[g + 1..]);
    FilterSingle(eq, b);
    forall x, i | x in ties && 0 <= i < |xs| ensures x in xs && cmp(x, xs[i]) >= 0 {
      Anti(cmp, x, b);
      Anti(cmp, b, xs[i]);
      TransLe(cmp, xs[i], b, x);
      Anti(cmp, xs[i], x);
    }
  }

  /** Every element returned is a greatest element of the input, and a
      non-empty input with room for at least one element gives a non-empty list. */
  lemma MaxAllAreGreatest<T(!new)>(cmp: Comparator<T>, k: int, xs: seq<T>)
    requires IsComparator(cmp) && k >= 0
    ensures var r := Collect(MaxAllBoundedList(cmp, k), xs);
      && |r| <= k
      && (|xs| > 0 && k > 0 ==> |r| > 0)
      && forall j, i :: 0 <= j < |r| && 0 <= i < |xs| ==> r[j] in xs && cmp(r[j], xs[i]) >= 0
  {
    MaxAllBoundedCollect(cmp, k, xs);
    if |xs| > 0 {
      TiesOfGreatest(cmp, xs);
      var ties := Ties(cmp, xs, xs[FirstGreatestIndex(cmp, xs)]);
      var r := Take(ties, k);
      assert Collect(MaxAllBoundedList(cmp, k), xs) == r;
      forall j, i | 0 <= j < |r| && 0 <= i < |xs| ensures r[j] in xs && cmp(r[j], xs[i]) >= 0 {
        assert r[j] == ties[j] && ties[j] in ties;
      }
    }
  }

  /** `maxAll(comparator)`: all greatest elements, bounded only by `Integer.MAX_VALUE`. */
  function MaxAllList<T(!new)>(cmp: Comparator<T>): (c: Collector<T, MaxAllBox<seq<T>, T>, seq<T>>)
    ensures c.finished.None? && c.chars == {}
  {
    MaxAllBoundedList(cmp, IntMax)
  }

  lemma MaxAllListCollect<T(!new)>(cmp: Comparator<T>, xs: seq<T>)
    requires IsComparator(cmp) && |xs| <= IntMax
    ensures Collect(MaxAllList(cmp), xs) == if |xs| == 0 then [] else Ties(cmp, xs, xs[FirstGreatestIndex(cmp, xs)])
  {
    MaxAllBoundedCollect(cmp, IntMax, xs);
  }

  /** The first greatest element of a concrete input, named by its position. */
  lemma GreatestAt(xs: seq<int>, i: int)
    requires IsComparator(NaturalOrder()) && IsFirstGreatest(NaturalOrder(), xs, i)
    ensures xs[FirstGreatestIndex(NaturalOrder(), xs)] == xs[i]
  {
    FirstGreatestUnique(NaturalOrder(), xs, i, FirstGreatestIndex(NaturalOrder(), xs));
  }

  /** From the documentation: the maximum of [1, 5, 3, 4, 2, 7] is 7 alone. */
  lemma MaxAllExampleSingle()
    ensures Collect(MaxAllList(NaturalOrder()), [1, 5, 3, 4, 2, 7]) == [7]
  {
    var cmp := NaturalOrder();
    NaturalOrderIsComparator();
    var xs := [1, 5, 3, 4, 2, 7];
    MaxAllListCollect(cmp, xs);
    GreatestAt(xs, 5);
    TiesOfSeven();
  }

  lemma TiesOfSeven()
    ensures Ties(NaturalOrder(), [1, 5, 3, 4, 2, 7], 7) == [7]
  {
    var cmp := NaturalOrder();
    var front := [1, 5, 3, 4, 2];
    TiesAllOrNone(cmp, front, 7);
    TiesSingle(cmp, 7, 7);
    assert Ties(cmp, front, 7) == [] && Ties(cmp, [7], 7) == [7];
    TiesAppend(cmp, front, [7], 7);
    assert [1, 5, 3, 4, 2, 7] == front + [7];
  }

  /** From the documentation: both fives of [1, 5, 5, 3] are kept, in order. */
  lemma MaxAllExampleTie()
    ensures Collect(MaxAllList(NaturalOrder()), [1, 5, 5, 3]) == [5, 5]
  {
    var cmp := NaturalOrder();
    NaturalOrderIsComparator();
    var ys := [1, 5, 5, 3];
    MaxAllListCollect(cmp, ys);
    GreatestAt(ys, 1);
    TiesOfFives();
  }

  lemma TiesOfFives()
    ensures Ties(NaturalOrder(), [1, 5, 5, 3], 5) == [5, 5]
  {
    var cmp := NaturalOrder();
    var one, fives, three := [1], [5, 5], [3];
    TiesSingle(cmp, 1, 5);
    TiesSingle(cmp, 3, 5);
    TiesAllOrNone(cmp, fives, 5);
    assert Ties(cmp, one, 5) == [] && Ties(cmp, three, 5) == [] && Ties(cmp, fives, 5) == fives;
    TiesAppend(cmp, fives, three, 5);
    assert Ties(cmp, fives + three, 5) == fives;
    TiesAppend(cmp, one, fives + three, 5);
    assert [1, 5, 5, 3] == one + (fives + three);
  }

  /** `minAll(comparator, downstream)`: maxAll under the reversed comparator. */
  function MinAllWith<T(!new), A(!new), R(!new)>(cmp: Comparator<T>, d: Collector<T, A, R>): (c: Collector<T, MaxAllBox<A, T>, R>)
    ensures c.finished.None? && c.chars == {}
  {
    MaxAllWith(Reversed(cmp), d)
  }

  lemma MinAllWithCollect<T(!new), A(!new), R(!new)>(cmp: Comparator<T>, d: Collector<T, A, R>, xs: seq<T>)
    requires IsComparator(cmp)
    ensures Collect(MinAllWith(cmp, d), xs) ==
      Collect(d, if |xs| == 0 then [] else Ties(cmp, xs, xs[FirstLeastIndex(cmp, xs)]))
    ensures MergeSound(d) ==> MergeSound(MinAllWith(cmp, d))
  {
    ReversedIsComparator(cmp);
    MaxAllWithCollect(Reversed(cmp), d, xs);
    if |xs| > 0 {
      FirstLeastIsReversedGreatest(cmp, xs);
      TiesReversed(cmp, xs, xs[FirstLeastIndex(cmp, xs)]);
    }
    if MergeSound(d) {
      MaxAllWithMergeSound(Reversed(cmp), d);
    }
  }

  /** `minAll(comparator, atMostSize)`. */
  function MinAllBounded<T(!new)>(cmp: Comparator<T>, atMostSize: int): (r: Result<Collector<T, MaxAllBox<seq<T>, T>, seq<T>>>)
    ensures r.Failure? <==> atMostSize < 0
  {
    MaxAllBounded(Reversed(cmp), atMostSize)
  }

  lemma MinAllBoundedCollect<T(!new)>(cmp: Comparator<T>, k: int, xs: seq<T>)
    requires IsComparator(cmp) && k >= 0
    ensures Collect(MinAllBounded(cmp, k).value, xs) ==
      if |xs| == 0 then [] else Take(Ties(cmp, xs, xs[FirstLeastIndex(cmp, xs)]), k)
    ensures MergeSound(MinAllBounded(cmp, k).value)
  {
    ReversedIsComparator(cmp);
    MaxAllBoundedCollect(Reversed(cmp), k, xs);
    if |xs| > 0 {
      FirstLeastIsReversedGreatest(cmp, xs);
      TiesReversed(cmp, xs, xs[FirstLeastIndex(cmp, xs)]);
    }
  }

  /** `minAll(comparator)`. */
  function MinAllList<T(!new)>(cmp: Comparator<T>): (c: Collector<T, MaxAllBox<seq<T>, T>, seq<T>>)
    ensures c.finished.None? && c.chars == {}
  {
    MaxAllList(Reversed(cmp))
  }

  lemma MinAllListCollect<T(!new)>(cmp: Comparator<T>, xs: seq<T>)
    requires IsComparator(cmp) && |xs| <= IntMax
    ensures Collect(MinAllList(cmp), xs) == if |xs| == 0 then [] else Ties(cmp, xs, xs[FirstLeastIndex(cmp, xs)])
  {
    MinAllBoundedCollect(cmp, IntMax, xs);
  }
}
