/** `dominators(isDominator)`: keeps an element unless the last kept element
    dominates it. */
module Dominators {
  import opened Wrappers
  import opened Seqs
  import opened Collectors

  /** `isDominator(a, b)`: `a` dominates `b`. */
  type Dominance<!T> = (T, T) -> bool

  ghost predicate TransitiveAt<T>(dom: Dominance<T>, a: T, b: T, c: T)
  {
    dom(a, b) && dom(b, c) ==> dom(a, c)
  }

  /** The relation the source asks callers to supply. */
  ghost predicate IsTransitive<T(!new)>(dom: Dominance<T>)
  {
    forall a: T, b: T, c: T {:trigger TransitiveAt(dom, a, b, c)} :: TransitiveAt(dom, a, b, c)
  }

  lemma Trans<T(!new)>(dom: Dominance<T>, a: T, b: T, c: T)
    requires IsTransitive(dom) && dom(a, b) && dom(b, c)
    ensures dom(a, c)
  {
    assert TransitiveAt(dom, a, b, c);
  }

  /** The merge loop: how many leading elements of `s`, from `i` on, `last` dominates. */
  function DominatedCount<T>(dom: Dominance<T>, last: T, s: seq<T>, i: nat): (n: nat)
    requires i <= |s|
    ensures i <= n <= |s|
    ensures forall j :: i <= j < n ==> dom(last, s[j])
    ensures n < |s| ==> !dom(last, s[n])
    decreases |s| - i
  {
    if i < |s| && dom(last, s[i]) then DominatedCount(dom, last, s, i + 1) else i
  }

  /** Any position that ends the dominated run is the one the loop finds. */
  lemma {:induction false} DominatedCountUnique<T>(dom: Dominance<T>, last: T, s: seq<T>, i: nat, m: nat)
    requires i <= m <= |s|
    requires forall j :: i <= j < m ==> dom(last, s[j])
    requires m < |s| ==> !dom(last, s[m])
    ensures DominatedCount(dom, last, s, i) == m
    decreases |s| - i
  {
    if i < m {
      DominatedCountUnique(dom, last, s, i + 1, m);
    }
  }

  function DominatorsFold<T>(dom: Dominance<T>, a: seq<T>, t: T): seq<T>
  {
    if |a| == 0 || !dom(a[|a| - 1], t) then a + [t] else a
  }

  function DominatorsMerge<T>(dom: Dominance<T>, a1: seq<T>, a2: seq<T>): seq<T>
  {
    if |a1| == 0 then a2 else a1 + a2[DominatedCount(dom, a1[|a1| - 1], a2, 0)..]
  }

  /** `dominators(isDominator)`: an identity-finish list collector. */
  function Dominators<T(!new)>(dom: Dominance<T>): (c: Collector<T, seq<T>, seq<T>>)
    ensures c.chars == {IdentityFinish} && c.finished.None?
  {
    Collector([], (a: seq<T>, t: T) => DominatorsFold(dom, a, t),
      (a1: seq<T>, a2: seq<T>) => DominatorsMerge(dom, a1, a2),
      (a: seq<T>) => a, None, {IdentityFinish})
  }

  /** `idx` lists the positions of `xs` that the result `r` keeps: the first
      element is kept, a later one is kept exactly when the element kept last
      before it does not dominate it. */
  ghost predicate IsDominatorRun<T>(dom: Dominance<T>, xs: seq<T>, idx: seq<int>, r: seq<T>)
  {
    && SubseqAt(r, xs, idx)
    && (|xs| == 0 <==> |idx| == 0)
    && (|idx| > 0 ==> idx[0] == 0)
    && (forall j, k :: 0 <= j < |idx| && idx[j] < k < |xs| && (j + 1 == |idx| || k < idx[j + 1]) ==> dom(r[j], xs[k]))
    && (forall j :: 0 < j < |idx| ==> !dom(r[j - 1], r[j]))
  }

  /** The kept positions, computed along the fold. */
  ghost function KeptIndices<T(!new)>(dom: Dominance<T>, xs: seq<T>): seq<int>
    decreases |xs|
  {
    if |xs| == 0 then []
    else
      var xs', t := xs[..|xs| - 1], xs[|xs| - 1];
      var a := FoldAll(Dominators(dom), xs');
      if |a| == 0 || !dom(a[|a| - 1], t) then KeptIndices(dom, xs') + [|xs'|] else KeptIndices(dom, xs')
  }

  /** A kept element extends the run. */
  lemma RunKeep<T>(dom: Dominance<T>, xs: seq<T>, idx: seq<int>, a: seq<T>)
    requires |xs| > 0 && IsDominatorRun(dom, xs[..|xs| - 1], idx, a)
    requires |a| == 0 || !dom(a[|a| - 1], xs[|xs| - 1])
    ensures IsDominatorRun(dom, xs, idx + [|xs| - 1], a + [xs[|xs| - 1]])
  {
    RunKeepSubseq(xs, idx, a);
    RunKeepCover(dom, xs, idx, a);
    RunKeepChain(dom, xs, idx, a);
  }

  lemma RunKeepSubseq<T>(xs: seq<T>, idx: seq<int>, a: seq<T>)
    requires |xs| > 0 && SubseqAt(a, xs[..|xs| - 1], idx)
    ensures SubseqAt(a + [xs[|xs| - 1]], xs, idx + [|xs| - 1])
  {
    var xs', n, t := xs[..|xs| - 1], |xs| - 1, xs[|xs| - 1];
    var idx1, a1 := idx + [n], a + [t];
    forall i | 0 <= i < |idx1| ensures 0 <= idx1[i] < |xs| && xs[idx1[i]] == a1[i] {
      if i < |idx| {
        assert idx1[i] == idx[i] && a1[i] == a[i] && xs'[idx[i]] == xs[idx[i]];
      }
    }
    forall i, j | 0 <= i < j < |idx1| ensures idx1[i] < idx1[j] {
      assert idx1[i] == idx[i];
    }
  }

  lemma RunKeepCover<T>(dom: Dominance<T>, xs: seq<T>, idx: seq<int>, a: seq<T>)
    requires |xs| > 0 && IsDominatorRun(dom, xs[..|xs| - 1], idx, a)
    ensures var idx1, a1 := idx + [|xs| - 1], a + [xs[|xs| - 1]];
      forall j, k :: 0 <= j < |idx1| && idx1[j] < k < |xs| && (j + 1 == |idx1| || k < idx1[j + 1]) ==> dom(a1[j], xs[k])
  {
    var xs', n, t := xs[..|xs| - 1], |xs| - 1, xs[|xs| - 1];
    var idx1, a1 := idx + [n], a + [t];
    forall j, k | 0 <= j < |idx1| && idx1[j] < k < |xs| && (j + 1 == |idx1| || k < idx1[j + 1])
      ensures dom(a1[j], xs[k])
    {
      assert j < |idx| && idx1[j] == idx[j] && a1[j] == a[j];
      assert k < n && xs[k] == xs'[k];
    }
  }

  lemma RunKeepChain<T>(dom: Dominance<T>, xs: seq<T>, idx: seq<int>, a: seq<T>)
    requires |xs| > 0 && |idx| == |a| && (forall j :: 0 < j < |idx| ==> !dom(a[j - 1], a[j]))
    requires |a| == 0 || !dom(a[|a| - 1], xs[|xs| - 1])
    ensures var idx1, a1 := idx + [|xs| - 1], a + [xs[|xs| - 1]];
      forall j :: 0 < j < |idx1| ==> !dom(a1[j - 1], a1[j])
  {
    var idx1, a1 := idx + [|xs| - 1], a + [xs[|xs| - 1]];
    forall j | 0 < j < |idx1| ensures !dom(a1[j - 1], a1[j]) {
      if j < |idx| {
        assert a1[j - 1] == a[j - 1] && a1[j] == a[j];
      }
    }
  }

  /** A dominated element leaves the run as it is. */
  lemma RunSkip<T>(dom: Dominance<T>, xs: seq<T>, idx: seq<int>, a: seq<T>)
    requires |xs| > 0 && IsDominatorRun(dom, xs[..|xs| - 1], idx, a)
    requires |a| > 0 && dom(a[|a| - 1], xs[|xs| - 1])
    ensures IsDominatorRun(dom, xs, idx, a)
  {
    var xs', n := xs[..|xs| - 1], |xs| - 1;
    forall i | 0 <= i < |idx| ensures 0 <= idx[i] < |xs| && xs[idx[i]] == a[i] {
      assert xs'[idx[i]] == xs[idx[i]];
    }
    forall j, k | 0 <= j < |idx| && idx[j] < k < |xs| && (j + 1 == |idx| || k < idx[j + 1])
      ensures dom(a[j], xs[k])
    {
      if k < n {
        assert xs[k] == xs'[k];
      } else {
        assert j + 1 == |idx|;
      }
    }
  }

  lemma {:induction false} KeptIndicesRun<T(!new)>(dom: Dominance<T>, xs: seq<T>)
    ensures IsDominatorRun(dom, xs, KeptIndices(dom, xs), FoldAll(Dominators(dom), xs))
    decreases |xs|
  {
    if |xs| > 0 {
      var xs', t := xs[..|xs| - 1], xs[|xs| - 1];
      KeptIndicesRun(dom, xs');
      var a := FoldAll(Dominators(dom), xs');
      assert FoldAll(Dominators(dom), xs) == DominatorsFold(dom, a, t);
      if |a| == 0 || !dom(a[|a| - 1], t) {
        RunKeep(dom, xs, KeptIndices(dom, xs'), a);
      } else {
        RunSkip(dom, xs, KeptIndices(dom, xs'), a);
      }
    }
  }

  /** The result of `dominators` is the input's subsequence at the kept positions. */
  lemma DominatorsCollect<T(!new)>(dom: Dominance<T>, xs: seq<T>)
    ensures IsDominatorRun(dom, xs, KeptIndices(dom, xs), Collect(Dominators(dom), xs))
    ensures |xs| > 0 ==> |Collect(Dominators(dom), xs)| > 0 && Collect(Dominators(dom), xs)[0] == xs[0]
  {
    KeptIndicesRun(dom, xs);
  }

  /** How folding more elements into a non-empty list relates to the list those
      elements give on their own: while every element of that list is dominated
      by `last`, nothing is added; afterwards the added part is that list minus
      its dominated head, and both end on the same element. */
  ghost predicate Continues<T>(dom: Dominance<T>, a: seq<T>, c: seq<T>, d: seq<T>)
    requires |a| > 0
  {
    var n := DominatedCount(dom, a[|a| - 1], d, 0);
    && c == a + d[n..]
    && (n < |d| ==> c[|c| - 1] == d[|d| - 1])
  }

  /** One more element, folded into both lists, keeps the relation. */
  lemma ContinuesStep<T(!new)>(dom: Dominance<T>, a: seq<T>, c: seq<T>, d: seq<T>, y: T)
    requires IsTransitive(dom) && |a| > 0 && Continues(dom, a, c, d)
    ensures Continues(dom, a, DominatorsFold(dom, c, y), DominatorsFold(dom, d, y))
  {
    var l := a[|a| - 1];
    var n := DominatedCount(dom, l, d, 0);
    var d' := DominatorsFold(dom, d, y);
    if n < |d| {
      ContinuesTail(dom, a, c, d, y);
    } else if dom(l, y) {
      if |d| > 0 && !dom(d[|d| - 1], y) {
        assert forall j :: 0 <= j < |d| ==> d'[j] == d[j];
        DominatedCountUnique(dom, l, d', 0, |d'|);
      }
    } else {
      if |d| > 0 {
        assert dom(l, d[|d| - 1]);
        if dom(d[|d| - 1], y) {
          Trans(dom, l, d[|d| - 1], y);
        }
      }
      assert d' == d + [y];
      assert forall j :: 0 <= j < |d| ==> d'[j] == d[j];
      DominatedCountUnique(dom, l, d', 0, |d|);
    }
  }

  /** Once an element of `d` escaped `last`, both lists grow alike. */
  lemma ContinuesTail<T>(dom: Dominance<T>, a: seq<T>, c: seq<T>, d: seq<T>, y: T)
    requires |a| > 0 && Continues(dom, a, c, d)
    requires DominatedCount(dom, a[|a| - 1], d, 0) < |d|
    ensures Continues(dom, a, DominatorsFold(dom, c, y), DominatorsFold(dom, d, y))
  {
    var n := DominatedCount(dom, a[|a| - 1], d, 0);
    assert c == a + d[n..] && c[|c| - 1] == d[|d| - 1];
    if dom(d[|d| - 1], y) {
      assert DominatorsFold(dom, d, y) == d;
      assert DominatorsFold(dom, c, y) == c;
    } else {
      assert DominatorsFold(dom, d, y) == d + [y];
      assert DominatorsFold(dom, c, y) == c + [y];
      ContinuesSnoc(dom, a, c, d, y);
    }
  }

  /** An element both lists keep extends both alike. */
  lemma ContinuesSnoc<T>(dom: Dominance<T>, a: seq<T>, c: seq<T>, d: seq<T>, y: T)
    requires |a| > 0 && DominatedCount(dom, a[|a| - 1], d, 0) < |d|
    requires c == a + d[DominatedCount(dom, a[|a| - 1], d, 0)..]
    ensures Continues(dom, a, c + [y], d + [y])
  {
    var n := DominatedCount(dom, a[|a| - 1], d, 0);
    DominatedCountSnoc(dom, a[|a| - 1], d, y);
    assert (d + [y])[n..] == d[n..] + [y];
  }

  /** Appending after the end of the dominated run leaves the run alone. */
  lemma DominatedCountSnoc<T>(dom: Dominance<T>, last: T, d: seq<T>, y: T)
    requires DominatedCount(dom, last, d, 0) < |d|
    ensures DominatedCount(dom, last, d + [y], 0) == DominatedCount(dom, last, d, 0)
  {
    var n, d' := DominatedCount(dom, last, d, 0), d + [y];
    assert forall j :: 0 <= j < |d| ==> d'[j] == d[j];
    DominatedCountUnique(dom, last, d', 0, n);
  }

  lemma {:induction false} ContinuesFold<T(!new)>(dom: Dominance<T>, a: seq<T>, ys: seq<T>)
    requires IsTransitive(dom) && |a| > 0
    ensures Continues(dom, a, FoldFrom(Dominators(dom), a, ys), FoldAll(Dominators(dom), ys))
    decreases |ys|
  {
    if |ys| > 0 {
      var ys', y := ys[..|ys| - 1], ys[|ys| - 1];
      ContinuesFold(dom, a, ys');
      var c, d := FoldFrom(Dominators(dom), a, ys'), FoldAll(Dominators(dom), ys');
      ContinuesStep(dom, a, c, d, y);
      assert FoldFrom(Dominators(dom), a, ys) == DominatorsFold(dom, c, y);
    }
  }

  lemma {:induction false} DominatorsEmptyIffEmpty<T(!new)>(dom: Dominance<T>, xs: seq<T>)
    ensures |FoldAll(Dominators(dom), xs)| == 0 <==> |xs| == 0
    decreases |xs|
  {
    if |xs| > 0 {
      DominatorsEmptyIffEmpty(dom, xs[..|xs| - 1]);
    }
  }

  /** For a transitive relation, merging two partitions' lists, with the
      right one's dominated head dropped, is the list of the concatenation. */
  lemma DominatorsMergeSound<T(!new)>(dom: Dominance<T>)
    requires IsTransitive(dom)
    ensures MergeSound(Dominators(dom))
  {
    var c := Dominators(dom);
    forall xs: seq<T>, ys: seq<T> ensures c.merge(FoldAll(c, xs), FoldAll(c, ys)) == FoldAll(c, xs + ys) {
      FoldFromAppend(c, c.create, xs, ys);
      DominatorsEmptyIffEmpty(dom, xs);
      if |xs| == 0 {
        assert xs + ys == ys;
      } else {
        ContinuesFold(dom, FoldAll(c, xs), ys);
      }
    }
  }

  /** The documented example: with `a >= b` as the relation, `[1, 5, 3, 4, 2, 7]`
      keeps `[1, 5, 7]`. */
  lemma DominatorsExample()
    ensures Collect(Dominators((a: int, b: int) => a >= b), [1, 5, 3, 4, 2, 7]) == [1, 5, 7]
  {
    var c := Dominators((a: int, b: int) => a >= b);
    FoldFromSnoc(c, [], [], 1);
    assert [] + [1] == [1];
    FoldFromSnoc(c, [], [1], 5);
    assert [1] + [5] == [1, 5];
    FoldFromSnoc(c, [], [1, 5], 3);
    assert [1, 5] + [3] == [1, 5, 3];
    FoldFromSnoc(c, [], [1, 5, 3], 4);
    assert [1, 5, 3] + [4] == [1, 5, 3, 4];
    FoldFromSnoc(c, [], [1, 5, 3, 4], 2);
    assert [1, 5, 3, 4] + [2] == [1, 5, 3, 4, 2];
    FoldFromSnoc(c, [], [1, 5, 3, 4, 2], 7);
    assert [1, 5, 3, 4, 2] + [7] == [1, 5, 3, 4, 2, 7];
  }
}
