/** A `java.util.Comparator` as an abstract total preorder, and the order
    statistics (first least / first greatest element) stated over it. */
module Comparators {
  import Seqs

  /** `compare(a, b)`: negative, zero or positive as `a` is less than, equal to
      or greater than `b`. */
  type Comparator<!T> = (T, T) -> int

  function Sign(x: int): int
  {
    if x < 0 then -1 else if x > 0 then 1 else 0
  }

  // The three laws are stated through named instances so that the solver
  // applies them only where a proof asks for them.

  ghost predicate ReflexiveAt<T(!new)>(cmp: Comparator<T>, a: T)
  {
    cmp(a, a) == 0
  }

  ghost predicate AntisymmetricAt<T>(cmp: Comparator<T>, a: T, b: T)
  {
    Sign(cmp(a, b)) == -Sign(cmp(b, a))
  }

  ghost predicate TransitiveAt<T>(cmp: Comparator<T>, a: T, b: T, c: T)
  {
    cmp(a, b) <= 0 && cmp(b, c) <= 0 ==> cmp(a, c) <= 0
  }

  /** The contract of `Comparator.compare`: reflexive, sign-antisymmetric and transitive. */
  ghost predicate IsComparator<T(!new)>(cmp: Comparator<T>)
  {
    && (forall a :: ReflexiveAt(cmp, a))
    && (forall a, b :: AntisymmetricAt(cmp, a, b))
    && (forall a, b, c :: TransitiveAt(cmp, a, b, c))
  }

  /** `comparator.reversed()`. */
  function Reversed<T(!new)>(cmp: Comparator<T>): (r: Comparator<T>)
    ensures forall a, b :: r(a, b) == cmp(b, a)
  {
    (a: T, b: T) => cmp(b, a)
  }

  lemma ReversedIsComparator<T(!new)>(cmp: Comparator<T>)
    requires IsComparator(cmp)
    ensures IsComparator(Reversed(cmp))
  {
    var r := Reversed(cmp);
    forall a ensures ReflexiveAt(r, a) {
      assert ReflexiveAt(cmp, a);
    }
    forall a, b ensures AntisymmetricAt(r, a, b) {
      assert AntisymmetricAt(cmp, b, a);
    }
    forall a, b, c ensures TransitiveAt(r, a, b, c) {
      assert TransitiveAt(cmp, c, b, a);
    }
  }

  lemma Refl<T(!new)>(cmp: Comparator<T>, a: T)
    requires IsComparator(cmp)
    ensures cmp(a, a) == 0
  {
    assert ReflexiveAt(cmp, a);
  }

  lemma Anti<T(!new)>(cmp: Comparator<T>, a: T, b: T)
    requires IsComparator(cmp)
    ensures cmp(a, b) < 0 <==> cmp(b, a) > 0
    ensures cmp(a, b) == 0 <==> cmp(b, a) == 0
  {
    assert AntisymmetricAt(cmp, a, b);
  }

  lemma TransLe<T(!new)>(cmp: Comparator<T>, a: T, b: T, c: T)
    requires IsComparator(cmp)
    requires cmp(a, b) <= 0 && cmp(b, c) <= 0
    ensures cmp(a, c) <= 0
  {
    assert TransitiveAt(cmp, a, b, c);
  }

  /** a < b <= c implies a < c. */
  lemma TransLtLe<T(!new)>(cmp: Comparator<T>, a: T, b: T, c: T)
    requires IsComparator(cmp)
    requires cmp(a, b) < 0 && cmp(b, c) <= 0
    ensures cmp(a, c) < 0
  {
    Anti(cmp, a, c);
    Anti(cmp, a, b);
    if cmp(a, c) >= 0 {
      Anti(cmp, c, a);
      assert TransitiveAt(cmp, b, c, a);
    }
  }

  /** a <= b < c implies a < c. */
  lemma TransLeLt<T(!new)>(cmp: Comparator<T>, a: T, b: T, c: T)
    requires IsComparator(cmp)
    requires cmp(a, b) <= 0 && cmp(b, c) < 0
    ensures cmp(a, c) < 0
  {
    Anti(cmp, a, c);
    Anti(cmp, b, c);
    if cmp(a, c) >= 0 {
      Anti(cmp, c, a);
      assert TransitiveAt(cmp, c, a, b);
    }
  }

  /** Equivalent elements compare alike against every third element. */
  lemma EquivSubst<T(!new)>(cmp: Comparator<T>, a: T, b: T, x: T)
    requires IsComparator(cmp)
    requires cmp(a, b) == 0
    ensures Sign(cmp(x, a)) == Sign(cmp(x, b))
  {
    Anti(cmp, a, b);
    Anti(cmp, x, a);
    Anti(cmp, x, b);
    if cmp(x, a) <= 0 { TransLe(cmp, x, a, b); }
    if cmp(x, b) <= 0 { TransLe(cmp, x, b, a); }
    if cmp(x, a) < 0 { TransLtLe(cmp, x, a, b); }
    if cmp(x, b) < 0 { TransLtLe(cmp, x, b, a); }
  }

  /** `xs[i]` is the first least element of `xs`: no element is smaller and
      every earlier element is strictly greater. */
  ghost predicate IsFirstLeast<T>(cmp: Comparator<T>, xs: seq<T>, i: int)
  {
    && 0 <= i < |xs|
    && (forall j :: 0 <= j < |xs| ==> cmp(xs[i], xs[j]) <= 0)
    && (forall j :: 0 <= j < i ==> cmp(xs[j], xs[i]) > 0)
  }

  /** `xs[i]` is the first greatest element of `xs`. */
  ghost predicate IsFirstGreatest<T>(cmp: Comparator<T>, xs: seq<T>, i: int)
  {
    && 0 <= i < |xs|
    && (forall j :: 0 <= j < |xs| ==> cmp(xs[i], xs[j]) >= 0)
    && (forall j :: 0 <= j < i ==> cmp(xs[j], xs[i]) < 0)
  }

  /** The first least element is unique, whatever the comparator. */
  lemma FirstLeastUnique<T>(cmp: Comparator<T>, xs: seq<T>, i: int, k: int)
    requires IsFirstLeast(cmp, xs, i) && IsFirstLeast(cmp, xs, k)
    ensures i == k
  {
    var a, b := xs[i], xs[k];
    assert i < k ==> cmp(a, b) > 0;
    assert k < i ==> cmp(b, a) > 0;
  }

  /** The first greatest element is unique, whatever the comparator. */
  lemma FirstGreatestUnique<T>(cmp: Comparator<T>, xs: seq<T>, i: int, k: int)
    requires IsFirstGreatest(cmp, xs, i) && IsFirstGreatest(cmp, xs, k)
    ensures i == k
  {
    var a, b := xs[i], xs[k];
    assert i < k ==> cmp(a, b) < 0;
    assert k < i ==> cmp(b, a) < 0;
  }

  /** Appending one element: the old first least element stays unless the new
      one is strictly smaller. */
  lemma LeastSnocAt<T(!new)>(cmp: Comparator<T>, xs: seq<T>, t: T, i: int)
    requires IsComparator(cmp) && IsFirstLeast(cmp, xs, i)
    ensures IsFirstLeast(cmp, xs + [t], if cmp(xs[i], t) <= 0 then i else |xs|)
  {
    var m, zs := xs[i], xs + [t];
    if cmp(m, t) > 0 {
      Anti(cmp, m, t);
      Refl(cmp, t);
      forall j | 0 <= j < |xs| ensures cmp(t, zs[j]) < 0 && cmp(zs[j], t) > 0 {
        TransLtLe(cmp, t, m, xs[j]);
        Anti(cmp, t, xs[j]);
      }
    }
  }

  /** Concatenation: the first least element of `xs + ys` is the one of `xs`
      unless the one of `ys` is strictly smaller. */
  lemma LeastAppendAt<T(!new)>(cmp: Comparator<T>, xs: seq<T>, ys: seq<T>, i: int, k: int)
    requires IsComparator(cmp) && IsFirstLeast(cmp, xs, i) && IsFirstLeast(cmp, ys, k)
    ensures IsFirstLeast(cmp, xs + ys, if cmp(xs[i], ys[k]) <= 0 then i else |xs| + k)
  {
    var a, b, zs := xs[i], ys[k], xs + ys;
    if cmp(a, b) <= 0 {
      forall j | |xs| <= j < |zs| ensures cmp(a, zs[j]) <= 0 {
        TransLe(cmp, a, b, ys[j - |xs|]);
      }
    } else {
      Anti(cmp, a, b);
      forall j | 0 <= j < |xs| ensures cmp(b, zs[j]) < 0 && cmp(zs[j], b) > 0 {
        TransLtLe(cmp, b, a, xs[j]);
        Anti(cmp, b, xs[j]);
      }
      assert forall j :: |xs| <= j < |zs| ==> zs[j] == ys[j - |xs|];
    }
  }

  /** Every non-empty sequence has a first least element. */
  lemma {:induction false} FirstLeastExists<T(!new)>(cmp: Comparator<T>, xs: seq<T>)
    requires IsComparator(cmp)
    requires |xs| > 0
    ensures exists i :: IsFirstLeast(cmp, xs, i)
    decreases |xs|
  {
    var xs', t := xs[..|xs| - 1], xs[|xs| - 1];
    Seqs.SplitLast(xs);
    if |xs| == 1 {
      Refl(cmp, t);
      assert IsFirstLeast(cmp, xs, 0);
    } else {
      FirstLeastExists(cmp, xs');
      var i :| IsFirstLeast(cmp, xs', i);
      LeastSnocAt(cmp, xs', t, i);
    }
  }

  /** The first greatest element is the first least one of the reversed order. */
  lemma GreatestIsReversedLeast<T(!new)>(cmp: Comparator<T>, xs: seq<T>, i: int)
    requires IsComparator(cmp)
    ensures IsFirstGreatest(cmp, xs, i) <==> IsFirstLeast(Reversed(cmp), xs, i)
  {
    if 0 <= i < |xs| {
      forall j | 0 <= j < |xs| ensures (cmp(xs[i], xs[j]) >= 0) == (cmp(xs[j], xs[i]) <= 0)
        && (cmp(xs[j], xs[i]) < 0) == (cmp(xs[i], xs[j]) > 0) {
        Anti(cmp, xs[i], xs[j]);
      }
    }
  }

  /** Every non-empty sequence has a first greatest element. */
  lemma FirstGreatestExists<T(!new)>(cmp: Comparator<T>, xs: seq<T>)
    requires IsComparator(cmp)
    requires |xs| > 0
    ensures exists i :: IsFirstGreatest(cmp, xs, i)
  {
    ReversedIsComparator(cmp);
    FirstLeastExists(Reversed(cmp), xs);
    var i :| IsFirstLeast(Reversed(cmp), xs, i);
    GreatestIsReversedLeast(cmp, xs, i);
  }

  /** The position of the first least element of a non-empty sequence. */
  ghost function FirstLeastIndex<T(!new)>(cmp: Comparator<T>, xs: seq<T>): (i: int)
    requires IsComparator(cmp) && |xs| > 0
    ensures IsFirstLeast(cmp, xs, i)
  {
    FirstLeastExists(cmp, xs);
    var i :| IsFirstLeast(cmp, xs, i); i
  }

  /** The position of the first greatest element of a non-empty sequence. */
  ghost function FirstGreatestIndex<T(!new)>(cmp: Comparator<T>, xs: seq<T>): (i: int)
    requires IsComparator(cmp) && |xs| > 0
    ensures IsFirstGreatest(cmp, xs, i)
  {
    FirstGreatestExists(cmp, xs);
    var i :| IsFirstGreatest(cmp, xs, i); i
  }

  /** The greatest elements under a comparator are the least ones under its reverse. */
  lemma FirstGreatestIsReversedLeast<T(!new)>(cmp: Comparator<T>, xs: seq<T>)
    requires IsComparator(cmp) && |xs| > 0
    ensures IsComparator(Reversed(cmp))
    ensures FirstLeastIndex(Reversed(cmp), xs) == FirstGreatestIndex(cmp, xs)
  {
    ReversedIsComparator(cmp);
    var i := FirstGreatestIndex(cmp, xs);
    GreatestIsReversedLeast(cmp, xs, i);
    FirstLeastUnique(Reversed(cmp), xs, i, FirstLeastIndex(Reversed(cmp), xs));
  }

  /** The elements of `xs` comparing equal to `b`, in input order. */
  function Ties<T>(cmp: Comparator<T>, xs: seq<T>, b: T): seq<T>
  {
    Seqs.Filter((x: T) => cmp(x, b) == 0, xs)
  }

  lemma TiesAppend<T>(cmp: Comparator<T>, xs: seq<T>, ys: seq<T>, b: T)
    ensures Ties(cmp, xs + ys, b) == Ties(cmp, xs, b) + Ties(cmp, ys, b)
  {
    Seqs.FilterAppend((x: T) => cmp(x, b) == 0, xs, ys);
  }

  lemma TiesSingle<T>(cmp: Comparator<T>, x: T, b: T)
    ensures Ties(cmp, [x], b) == if cmp(x, b) == 0 then [x] else []
  {
    Seqs.FilterSingle((x: T) => cmp(x, b) == 0, x);
  }

  lemma TiesAllOrNone<T>(cmp: Comparator<T>, xs: seq<T>, b: T)
    ensures (forall i :: 0 <= i < |xs| ==> cmp(xs[i], b) == 0) ==> Ties(cmp, xs, b) == xs
    ensures (forall i :: 0 <= i < |xs| ==> cmp(xs[i], b) != 0) ==> Ties(cmp, xs, b) == []
  {
    Seqs.FilterAllOrNone((x: T) => cmp(x, b) == 0, xs);
  }

  /** Equivalent elements have the same ties. */
  lemma TiesOfEquivalent<T(!new)>(cmp: Comparator<T>, xs: seq<T>, a: T, b: T)
    requires IsComparator(cmp) && cmp(a, b) == 0
    ensures Ties(cmp, xs, a) == Ties(cmp, xs, b)
  {
    forall i | 0 <= i < |xs| ensures (cmp(xs[i], a) == 0) == (cmp(xs[i], b) == 0) {
      EquivSubst(cmp, a, b, xs[i]);
    }
    Seqs.FilterCongruent((x: T) => cmp(x, a) == 0, (x: T) => cmp(x, b) == 0, xs);
  }

  /** `Integer.compare`, the natural order of the integers. */
  function NaturalOrder(): Comparator<int>
  {
    (a: int, b: int) => if a < b then -1 else if a > b then 1 else 0
  }

  lemma NaturalOrderIsComparator()
    ensures IsComparator(NaturalOrder())
  {
    var cmp := NaturalOrder();
    forall a ensures ReflexiveAt(cmp, a) { }
    forall a, b ensures AntisymmetricAt(cmp, a, b) { }
    forall a, b, c ensures TransitiveAt(cmp, a, b, c) { }
  }

  /** The first least element is the first greatest one of the reversed order. */
  lemma LeastIsReversedGreatest<T(!new)>(cmp: Comparator<T>, xs: seq<T>, i: int)
    requires IsComparator(cmp)
    ensures IsFirstLeast(cmp, xs, i) <==> IsFirstGreatest(Reversed(cmp), xs, i)
  {
    if 0 <= i < |xs| {
      forall j | 0 <= j < |xs| ensures (cmp(xs[i], xs[j]) <= 0) == (cmp(xs[j], xs[i]) >= 0)
        && (cmp(xs[j], xs[i]) > 0) == (cmp(xs[i], xs[j]) < 0) {
        Anti(cmp, xs[i], xs[j]);
      }
    }
  }

  lemma FirstLeastIsReversedGreatest<T(!new)>(cmp: Comparator<T>, xs: seq<T>)
    requires IsComparator(cmp) && |xs| > 0
    ensures IsComparator(Reversed(cmp))
    ensures FirstGreatestIndex(Reversed(cmp), xs) == FirstLeastIndex(cmp, xs)
  {
    ReversedIsComparator(cmp);
    var i := FirstLeastIndex(cmp, xs);
    LeastIsReversedGreatest(cmp, xs, i);
    FirstGreatestUnique(Reversed(cmp), xs, i, FirstGreatestIndex(Reversed(cmp), xs));
  }

  /** Appending `t` moves the first least element to `t` exactly when `t` is
      strictly smaller than the old one. */
  lemma FirstLeastSnoc<T(!new)>(cmp: Comparator<T>, xs: seq<T>, t: T)
    requires IsComparator(cmp)
    ensures FirstLeastIndex(cmp, xs + [t]) ==
      if |xs| == 0 then 0
      else if cmp(xs[FirstLeastIndex(cmp, xs)], t) <= 0 then FirstLeastIndex(cmp, xs) else |xs|
  {
    var zs := xs + [t];
    if |xs| == 0 {
      Refl(cmp, t);
      assert IsFirstLeast(cmp, zs, 0);
      FirstLeastUnique(cmp, zs, 0, FirstLeastIndex(cmp, zs));
    } else {
      var i := FirstLeastIndex(cmp, xs);
      LeastSnocAt(cmp, xs, t, i);
      var n := if cmp(xs[i], t) <= 0 then i else |xs|;
      FirstLeastUnique(cmp, zs, n, FirstLeastIndex(cmp, zs));
    }
  }

  lemma FirstLeastAppend<T(!new)>(cmp: Comparator<T>, xs: seq<T>, ys: seq<T>)
    requires IsComparator(cmp) && |xs| > 0 && |ys| > 0
    ensures FirstLeastIndex(cmp, xs + ys) ==
      var i, k := FirstLeastIndex(cmp, xs), FirstLeastIndex(cmp, ys);
      if cmp(xs[i], ys[k]) <= 0 then i else |xs| + k
  {
    var i, k := FirstLeastIndex(cmp, xs), FirstLeastIndex(cmp, ys);
    LeastAppendAt(cmp, xs, ys, i, k);
    var n := if cmp(xs[i], ys[k]) <= 0 then i else |xs| + k;
    FirstLeastUnique(cmp, xs + ys, n, FirstLeastIndex(cmp, xs + ys));
  }

  /** Appending `t` moves the first greatest element to `t` exactly when `t` is
      strictly greater than the old one. */
  lemma FirstGreatestSnoc<T(!new)>(cmp: Comparator<T>, xs: seq<T>, t: T)
    requires IsComparator(cmp)
    ensures FirstGreatestIndex(cmp, xs + [t]) ==
      if |xs| == 0 then 0
      else if cmp(t, xs[FirstGreatestIndex(cmp, xs)]) > 0 then |xs| else FirstGreatestIndex(cmp, xs)
  {
    FirstGreatestIsReversedLeast(cmp, xs + [t]);
    FirstLeastSnoc(Reversed(cmp), xs, t);
    if |xs| > 0 {
      FirstGreatestIsReversedLeast(cmp, xs);
    }
  }

  lemma FirstGreatestAppend<T(!new)>(cmp: Comparator<T>, xs: seq<T>, ys: seq<T>)
    requires IsComparator(cmp) && |xs| > 0 && |ys| > 0
    ensures FirstGreatestIndex(cmp, xs + ys) ==
      var g, h := FirstGreatestIndex(cmp, xs), FirstGreatestIndex(cmp, ys);
      if cmp(xs[g], ys[h]) >= 0 then g else |xs| + h
  {
    FirstGreatestIsReversedLeast(cmp, xs + ys);
    FirstGreatestIsReversedLeast(cmp, xs);
    FirstGreatestIsReversedLeast(cmp, ys);
    FirstLeastAppend(Reversed(cmp), xs, ys);
    var g, h := FirstGreatestIndex(cmp, xs), FirstGreatestIndex(cmp, ys);
    Anti(cmp, xs[g], ys[h]);
  }

  /** Nothing ties with an element strictly above the greatest one. */
  lemma TiesAboveGreatest<T(!new)>(cmp: Comparator<T>, xs: seq<T>, g: int, b: T)
    requires IsComparator(cmp) && IsFirstGreatest(cmp, xs, g) && cmp(b, xs[g]) > 0
    ensures Ties(cmp, xs, b) == []
  {
    Anti(cmp, b, xs[g]);
    forall j | 0 <= j < |xs| ensures cmp(xs[j], b) != 0 {
      Anti(cmp, xs[g], xs[j]);
      TransLeLt(cmp, xs[j], xs[g], b);
    }
    Seqs.FilterAllOrNone((x: T) => cmp(x, b) == 0, xs);
  }

  /** Ties do not depend on the direction of the order. */
  lemma TiesReversed<T(!new)>(cmp: Comparator<T>, xs: seq<T>, b: T)
    requires IsComparator(cmp)
    ensures Ties(Reversed(cmp), xs, b) == Ties(cmp, xs, b)
  {
    var r := Reversed(cmp);
    forall j | 0 <= j < |xs| ensures (r(xs[j], b) == 0) == (cmp(xs[j], b) == 0) {
      Anti(cmp, b, xs[j]);
    }
    Seqs.FilterCongruent((x: T) => r(x, b) == 0, (x: T) => cmp(x, b) == 0, xs);
  }
}
