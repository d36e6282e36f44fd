/** The set-valued collectors `intersecting()` and `toEnumSet(enumClass)`. */
module SetCollectors {
  import opened Wrappers
  import opened Collectors

  // ---------------------------------------------------------------- intersecting

  /** `intersecting()` over input collections, each given by its set of elements:
      `None` before the first one (`b.a == null`), then their running intersection. */
  function Intersecting<T(!new)>(): Collector<set<T>, Option<set<T>>, set<T>>
  {
    Collector(None,
      (b: Option<set<T>>, t: set<T>) => if b.None? then Some(t) else Some(b.value * t),
      (b1: Option<set<T>>, b2: Option<set<T>>) =>
        if b1.None? then b2 else if b2.Some? then Some(b1.value * b2.value) else b1,
      (b: Option<set<T>>) => if b.None? then {} else b.value,
      Some((b: Option<set<T>>) => b.Some? && b.value == {}),
      {Unordered})
  }

  /** The elements common to every member of `xs`. */
  ghost function CommonElements<T(!new)>(xs: seq<set<T>>): (r: set<T>)
    requires |xs| > 0
    ensures forall x :: x in r <==> forall j :: 0 <= j < |xs| ==> x in xs[j]
  {
    set x | x in xs[0] && forall j :: 0 <= j < |xs| ==> x in xs[j]
  }

  lemma {:induction false} IntersectingFoldAll<T(!new)>(xs: seq<set<T>>)
    ensures FoldAll(Intersecting(), xs) == if |xs| == 0 then None else Some(CommonElements(xs))
    decreases |xs|
  {
    if |xs| > 0 {
      var xs', t := xs[..|xs| - 1], xs[|xs| - 1];
      IntersectingFoldAll(xs');
      assert FoldAll(Intersecting(), xs) == Intersecting().fold(FoldAll(Intersecting(), xs'), t);
      if |xs'| == 0 {
        forall x ensures x in CommonElements(xs) <==> x in t {
        }
        assert CommonElements(xs) == t;
      } else {
        forall x ensures x in CommonElements(xs) <==> x in CommonElements(xs') && x in t {
          assert forall j :: 0 <= j < |xs'| ==> xs'[j] == xs[j];
          if x in CommonElements(xs') && x in t {
            assert forall j :: 0 <= j < |xs| ==> x in xs[j] by {
              forall j | 0 <= j < |xs| ensures x in xs[j] {
                if j < |xs'| {
                  assert x in xs'[j];
                }
              }
            }
          }
        }
        assert CommonElements(xs) == CommonElements(xs') * t;
      }
    }
  }

  /** `intersecting()` yields the elements every input collection holds, and
      the empty set for an empty input. */
  lemma IntersectingCollect<T(!new)>(xs: seq<set<T>>)
    ensures forall x :: x in Collect(Intersecting(), xs) <==> |xs| > 0 && forall j :: 0 <= j < |xs| ==> x in xs[j]
  {
    IntersectingFoldAll(xs);
  }

  lemma IntersectingMergeSound<T(!new)>()
    ensures MergeSound(Intersecting<T>())
  {
    var c := Intersecting<T>();
    forall xs: seq<set<T>>, ys: seq<set<T>> ensures c.merge(FoldAll(c, xs), FoldAll(c, ys)) == FoldAll(c, xs + ys) {
      IntersectingFoldAll(xs);
      IntersectingFoldAll(ys);
      IntersectingFoldAll(xs + ys);
      if |xs| == 0 {
        assert xs + ys == ys;
      } else if |ys| == 0 {
        assert xs + ys == xs;
      } else {
        var zs := xs + ys;
        forall x ensures x in CommonElements(zs) <==> x in CommonElements(xs) && x in CommonElements(ys) {
          assert forall j :: 0 <= j < |xs| ==> zs[j] == xs[j];
          assert forall j :: 0 <= j < |ys| ==> zs[|xs| + j] == ys[j];
          if x in CommonElements(xs) && x in CommonElements(ys) {
            forall j | 0 <= j < |zs| ensures x in zs[j] {
              if j >= |xs| {
                assert zs[j] == ys[j - |xs|];
              }
            }
          }
        }
        assert CommonElements(zs) == CommonElements(xs) * CommonElements(ys);
      }
    }
  }

  /** An empty intersection is final. */
  lemma IntersectingShortCircuit<T(!new)>()
    ensures Intersecting<T>().chars == {Unordered}
    ensures forall b :: IsFinished(Intersecting<T>(), b) <==> b == Some({})
    ensures FoldKeepsFinished(Intersecting<T>())
    ensures MergeKeepsFinished(Intersecting<T>())
    ensures FinishedIsFinal(Intersecting<T>())
  {
  }

  // ---------------------------------------------------------------- toEnumSet

  /** `toEnumSet(enumClass)`, where `universe` holds the constants of the enum:
      finished once the set is as large as the universe. */
  function ToEnumSet<T(!new)>(universe: set<T>): (c: Collector<T, set<T>, set<T>>)
    ensures c.chars == {Unordered, IdentityFinish}
    ensures forall s :: IsFinished(c, s) <==> |s| == |universe|
  {
    Collector({}, (s: set<T>, t: T) => s + {t}, (s1: set<T>, s2: set<T>) => s1 + s2,
      (s: set<T>) => s, Some((s: set<T>) => |s| == |universe|), {Unordered, IdentityFinish})
  }

  function Elements<T>(xs: seq<T>): set<T>
  {
    set x | x in xs
  }

  lemma {:induction false} ToEnumSetFoldAll<T(!new)>(universe: set<T>, xs: seq<T>)
    ensures FoldAll(ToEnumSet(universe), xs) == Elements(xs)
    decreases |xs|
  {
    if |xs| > 0 {
      var xs' := xs[..|xs| - 1];
      ToEnumSetFoldAll(universe, xs');
      assert xs == xs' + [xs[|xs| - 1]];
    }
  }

  lemma SubsetOfEqualSize<T>(a: set<T>, b: set<T>)
    requires a <= b && |a| == |b|
    ensures a == b
  {
    assert |b - a| == |b| - |a|;
  }

  /** `toEnumSet` collects the distinct input values, merges are unions, and
      for input drawn from the enum the collector is finished exactly when every
      constant has been seen, after which further input changes nothing. */
  lemma ToEnumSetCollect<T(!new)>(universe: set<T>, xs: seq<T>)
    ensures Collect(ToEnumSet(universe), xs) == Elements(xs)
    ensures MergeSound(ToEnumSet(universe))
    ensures Elements(xs) <= universe ==>
      (IsFinished(ToEnumSet(universe), FoldAll(ToEnumSet(universe), xs)) <==> Elements(xs) == universe)
  {
    ToEnumSetFoldAll(universe, xs);
    var c := ToEnumSet(universe);
    forall us: seq<T>, vs: seq<T> ensures c.merge(FoldAll(c, us), FoldAll(c, vs)) == FoldAll(c, us + vs) {
      ToEnumSetFoldAll(universe, us);
      ToEnumSetFoldAll(universe, vs);
      ToEnumSetFoldAll(universe, us + vs);
    }
    if Elements(xs) <= universe && |Elements(xs)| == |universe| {
      SubsetOfEqualSize(Elements(xs), universe);
    }
  }

  /** A complete set of constants stays as it is. */
  lemma ToEnumSetFinal<T(!new)>(universe: set<T>, s: set<T>, t: T)
    requires s <= universe && t in universe && IsFinished(ToEnumSet(universe), s)
    ensures ToEnumSet(universe).fold(s, t) == s
  {
    SubsetOfEqualSize(s, universe);
  }
}
