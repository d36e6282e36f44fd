/** `ifAllMatch(predicate, downstream)`: the downstream result, present only
    when every element satisfies the predicate. */
module AllMatch {
  import opened Wrappers
  import opened Collectors
  import Seqs
  import Folds

  /** `PairBox<A, Boolean>`: the downstream state and whether every element so
      far has matched. */
  datatype MatchBox<A> = MatchBox(a: A, ok: bool)

  function MatchFinished<A>(df: Option<A -> bool>): (f: MatchBox<A> -> bool)
  {
    if df.None? then (m: MatchBox<A>) => !m.ok else (m: MatchBox<A>) => !m.ok || df.value(m.a)
  }

  /** The downstream sees only the elements before the first that fails; the
      collector is finished once one has failed or the downstream is finished. */
  function IfAllMatch<T(!new), A(!new), R(!new)>(p: T -> bool, d: Collector<T, A, R>): (c: Collector<T, MatchBox<A>, Option<R>>)
    ensures c.chars == if Unordered in d.chars then {Unordered} else {}
    ensures forall m :: IsFinished(c, m) <==> !m.ok || IsFinished(d, m.a)
  {
    Collector(MatchBox(d.create, true),
      (m: MatchBox<A>, t: T) => if m.ok && p(t) then MatchBox(d.fold(m.a, t), true) else MatchBox(m.a, false),
      (m1: MatchBox<A>, m2: MatchBox<A>) =>
        if m1.ok && m2.ok then MatchBox(d.merge(m1.a, m2.a), true) else MatchBox(m1.a, false),
      (m: MatchBox<A>) => if m.ok then Some(d.finish(m.a)) else None,
      Some(MatchFinished(d.finished)),
      if Unordered in d.chars then {Unordered} else {})
  }

  /** The position of the first element of `xs`, from `i` on, that fails `p`,
      or `|xs|` when there is none. */
  function FirstMiss<T>(p: T -> bool, xs: seq<T>, i: nat): (k: nat)
    requires i <= |xs|
    ensures i <= k <= |xs|
    ensures forall j :: i <= j < k ==> p(xs[j])
    ensures k < |xs| ==> !p(xs[k])
    decreases |xs| - i
  {
    if i < |xs| && p(xs[i]) then FirstMiss(p, xs, i + 1) else i
  }

  lemma {:induction false} FirstMissUnique<T>(p: T -> bool, xs: seq<T>, i: nat, k: nat)
    requires i <= k <= |xs|
    requires forall j :: i <= j < k ==> p(xs[j])
    requires k < |xs| ==> !p(xs[k])
    ensures FirstMiss(p, xs, i) == k
    decreases |xs| - i
  {
    if i < k {
      FirstMissUnique(p, xs, i + 1, k);
    }
  }

  lemma FirstMissSnoc<T>(p: T -> bool, xs: seq<T>, t: T)
    ensures FirstMiss(p, xs + [t], 0) ==
      if FirstMiss(p, xs, 0) < |xs| then FirstMiss(p, xs, 0) else if p(t) then |xs| + 1 else |xs|
  {
    var k := FirstMiss(p, xs, 0);
    var xs1 := xs + [t];
    assert forall j :: 0 <= j < |xs| ==> xs1[j] == xs[j];
    if k < |xs| {
      FirstMissUnique(p, xs1, 0, k);
    } else if p(t) {
      FirstMissUnique(p, xs1, 0, |xs| + 1);
    } else {
      FirstMissUnique(p, xs1, 0, |xs|);
    }
  }

  /** After `xs`, the flag says whether every element matched, and the
      downstream state holds exactly the elements before the first miss. */
  lemma {:induction false} IfAllMatchFoldAll<T(!new), A(!new), R(!new)>(p: T -> bool, d: Collector<T, A, R>, xs: seq<T>)
    ensures var m, k := FoldAll(IfAllMatch(p, d), xs), FirstMiss(p, xs, 0);
      && (m.ok <==> k == |xs|)
      && m.a == FoldAll(d, xs[..k])
    decreases |xs|
  {
    if |xs| > 0 {
      var xs', t := xs[..|xs| - 1], xs[|xs| - 1];
      IfAllMatchFoldAll(p, d, xs');
      Seqs.SplitLast(xs);
      FirstMissSnoc(p, xs', t);
      var k := FirstMiss(p, xs', 0);
      if k < |xs'| {
        assert xs[..k] == xs'[..k];
      } else if p(t) {
        assert xs[..|xs|] == xs'[..k] + [t];
        FoldFromSnoc(d, d.create, xs'[..k], t);
      } else {
        assert xs[..|xs'|] == xs'[..k];
      }
    }
  }

  /** `ifAllMatch` is the downstream result exactly when every element matches,
      and empty otherwise. */
  lemma IfAllMatchCollect<T(!new), A(!new), R(!new)>(p: T -> bool, d: Collector<T, A, R>, xs: seq<T>)
    ensures Collect(IfAllMatch(p, d), xs) ==
      if forall j :: 0 <= j < |xs| ==> p(xs[j]) then Some(Collect(d, xs)) else None
  {
    IfAllMatchFoldAll(p, d, xs);
    var k := FirstMiss(p, xs, 0);
    assert xs[..|xs|] == xs;
    if k < |xs| {
      assert !p(xs[k]);
    }
  }

  /** With a sound downstream merge, merged partitions give the sequential
      result. The states themselves may differ: a failed left partition keeps
      its own downstream state. */
  lemma IfAllMatchMergeSound<T(!new), A(!new), R(!new)>(p: T -> bool, d: Collector<T, A, R>)
    requires MergeSound(d)
    ensures MergeSoundResult(IfAllMatch(p, d))
  {
    var c := IfAllMatch(p, d);
    forall xs: seq<T>, ys: seq<T> ensures c.finish(c.merge(FoldAll(c, xs), FoldAll(c, ys))) == Collect(c, xs + ys) {
      IfAllMatchCollect(p, d, xs);
      IfAllMatchCollect(p, d, ys);
      IfAllMatchCollect(p, d, xs + ys);
      IfAllMatchFoldAll(p, d, xs);
      IfAllMatchFoldAll(p, d, ys);
      var zs := xs + ys;
      assert xs[..|xs|] == xs && ys[..|ys|] == ys;
      assert (forall j :: 0 <= j < |zs| ==> p(zs[j])) <==>
        (forall j :: 0 <= j < |xs| ==> p(xs[j])) && (forall j :: 0 <= j < |ys| ==> p(ys[j])) by {
        assert forall j :: 0 <= j < |xs| ==> zs[j] == xs[j];
        assert forall j :: 0 <= j < |ys| ==> zs[|xs| + j] == ys[j];
      }
    }
  }

  /** A failed match, and a finished downstream, stay finished. */
  lemma IfAllMatchKeepsFinished<T(!new), A(!new), R(!new)>(p: T -> bool, d: Collector<T, A, R>)
    requires FoldKeepsFinished(d) && MergeKeepsFinished(d)
    ensures FoldKeepsFinished(IfAllMatch(p, d))
    ensures MergeKeepsFinished(IfAllMatch(p, d))
  {
  }

  /** Stopping early is not the same as reading everything: with `head(1)`
      downstream and `x > 0`, `[1, -1]` gives `[1]` when the engine stops at the
      finished state, but nothing when every element is read. */
  lemma IfAllMatchStopsEarly()
    ensures var c := IfAllMatch((x: int) => x > 0, Folds.HeadList(1));
      && c.finish(CancelFold(c, c.create, [1, -1])) == Some([1])
      && Collect(c, [1, -1]) == None
      && !FinishedIsFinal(c)
  {
    var c := IfAllMatch((x: int) => x > 0, Folds.HeadList(1));
    var m1 := c.fold(c.create, 1);
    assert [] + [1] == [1];
    assert m1 == MatchBox([1], true);
    assert IsFinished(c, m1);
    assert [1, -1][1..] == [-1];
    assert CancelFold(c, c.create, [1, -1]) == m1;
    IfAllMatchCollect((x: int) => x > 0, Folds.HeadList(1), [1, -1]);
    assert c.finish(c.fold(m1, -1)) == None;
  }
}
