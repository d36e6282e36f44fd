/** `andingInt(mapper)` and `andingLong(mapper)`: the bitwise and of a 32-bit
    or 64-bit property of the elements. */
module Bitwise {
  import opened Wrappers
  import opened Seqs
  import opened Collectors

  /** `PrimitiveBox`: whether a value has been seen, and the running and. */
  datatype AndBox<B> = AndBox(seen: bool, v: B)

  // ---------------------------------------------------------------- andingInt

  /** `andingInt(mapper)`: an empty `OptionalInt` for no input; finished once the
      and is zero. */
  function AndingInt<T(!new)>(f: T -> bv32): (c: Collector<T, AndBox<bv32>, Option<bv32>>)
    ensures c.chars == {Unordered}
    ensures forall a :: IsFinished(c, a) <==> a.seen && a.v == 0
  {
    Collector(AndBox(false, 0),
      (a: AndBox<bv32>, t: T) => if !a.seen then AndBox(true, f(t)) else AndBox(true, a.v & f(t)),
      (a1: AndBox<bv32>, a2: AndBox<bv32>) =>
        if !a1.seen then a2 else if !a2.seen then a1 else AndBox(true, a1.v & a2.v),
      (a: AndBox<bv32>) => if a.seen then Some(a.v) else None,
      Some((a: AndBox<bv32>) => a.seen && a.v == 0),
      {Unordered})
  }

  /** The bitwise and of a non-empty sequence, from the front. */
  function And32(s: seq<bv32>): bv32
    requires |s| > 0
  {
    if |s| == 1 then s[0] else s[0] & And32(s[1..])
  }

  /** Every bit set in `a` is set in `b`. */
  ghost predicate Covers32(a: bv32, b: bv32)
  {
    a & b == a
  }

  /** `And32` is the greatest lower bound of its members: its bits are set in
      every member, and any value whose bits are set in every member has its
      bits set in it. */
  lemma And32IsMeet(s: seq<bv32>, m: bv32)
    requires |s| > 0
    ensures forall j :: 0 <= j < |s| ==> Covers32(And32(s), s[j])
    ensures (forall j :: 0 <= j < |s| ==> Covers32(m, s[j])) ==> Covers32(m, And32(s))
  {
    And32Lower(s);
    if forall j :: 0 <= j < |s| ==> Covers32(m, s[j]) {
      And32Greatest(s, m);
    }
  }

  lemma And32Lower(s: seq<bv32>)
    requires |s| > 0
    ensures forall j :: 0 <= j < |s| ==> Covers32(And32(s), s[j])
  {
    forall j | 0 <= j < |s| ensures Covers32(And32(s), s[j]) {
      And32LowerAt(s, j);
    }
  }

  lemma {:induction false} And32LowerAt(s: seq<bv32>, j: nat)
    requires j < |s|
    ensures Covers32(And32(s), s[j])
    decreases j
  {
    if |s| == 1 {
      CoversSelf32(s[0]);
    } else if j == 0 {
      And32CoversHead(s);
    } else {
      And32LowerAt(s[1..], j - 1);
      assert s[1..][j - 1] == s[j];
      And32CoversTail(s, s[j]);
    }
  }

  lemma And32CoversHead(s: seq<bv32>)
    requires |s| > 1
    ensures Covers32(And32(s), s[0])
  {
    CoversSelf32(s[0]);
    Absorb32(And32(s[1..]), s[0], s[0]);
  }

  lemma And32CoversTail(s: seq<bv32>, x: bv32)
    requires |s| > 1 && Covers32(And32(s[1..]), x)
    ensures Covers32(And32(s), x)
  {
    Absorb32(s[0], And32(s[1..]), x);
  }

  lemma {:induction false} And32Greatest(s: seq<bv32>, m: bv32)
    requires |s| > 0
    requires forall j :: 0 <= j < |s| ==> Covers32(m, s[j])
    ensures Covers32(m, And32(s))
    decreases |s|
  {
    if |s| == 1 {
      assert Covers32(m, s[0]);
    } else {
      var t := s[1..];
      forall j | 0 <= j < |t| ensures Covers32(m, t[j]) {
        assert t[j] == s[j + 1];
      }
      And32Greatest(t, m);
      Below32(m, s[0], And32(t));
    }
  }

  lemma CoversSelf32(a: bv32)
    ensures Covers32(a, a)
  {
  }

  lemma AndAssoc32(a: bv32, b: bv32, c: bv32)
    ensures a & (b & c) == (a & b) & c
  {
  }

  lemma Absorb32(a: bv32, b: bv32, c: bv32)
    requires Covers32(b, c)
    ensures Covers32(a & b, c) && Covers32(b & a, c)
  {
  }

  lemma Below32(m: bv32, a: bv32, b: bv32)
    requires Covers32(m, a) && Covers32(m, b)
    ensures Covers32(m, a & b)
  {
  }

  lemma {:induction false} And32Append(a: seq<bv32>, b: seq<bv32>)
    requires |a| > 0 && |b| > 0
    ensures And32(a + b) == And32(a) & And32(b)
    decreases |a|
  {
    if |a| == 1 {
      assert (a + b)[1..] == b;
    } else {
      assert (a + b)[1..] == a[1..] + b;
      And32Append(a[1..], b);
      AndAssoc32(a[0], And32(a[1..]), And32(b));
    }
  }

  lemma {:induction false} AndingIntFoldAll<T(!new)>(f: T -> bv32, xs: seq<T>)
    ensures FoldAll(AndingInt(f), xs) ==
      if |xs| == 0 then AndBox(false, 0) else AndBox(true, And32(Map(f, xs)))
    decreases |xs|
  {
    if |xs| > 0 {
      var xs', t := xs[..|xs| - 1], xs[|xs| - 1];
      AndingIntFoldAll(f, xs');
      SplitLast(xs);
      MapAppend(f, xs', [t]);
      assert Map(f, xs) == Map(f, xs') + [f(t)];
      assert FoldAll(AndingInt(f), xs) == AndingInt(f).fold(FoldAll(AndingInt(f), xs'), t);
      if |xs'| > 0 {
        And32Append(Map(f, xs'), [f(t)]);
      }
    }
  }

  /** `andingInt`: nothing for an empty input, else the and of all the values;
      merges agree with the sequential result; a zero is final. */
  lemma AndingIntCollect<T(!new)>(f: T -> bv32, xs: seq<T>)
    ensures Collect(AndingInt(f), xs) == if |xs| == 0 then None else Some(And32(Map(f, xs)))
    ensures MergeSound(AndingInt(f))
    ensures FoldKeepsFinished(AndingInt(f)) && MergeKeepsFinished(AndingInt(f)) && FinishedIsFinal(AndingInt(f))
  {
    AndingIntFoldAll(f, xs);
    var c := AndingInt(f);
    forall us: seq<T>, vs: seq<T> ensures c.merge(FoldAll(c, us), FoldAll(c, vs)) == FoldAll(c, us + vs) {
      AndingIntMergeAt(f, us, vs);
    }
  }

  lemma AndingIntMergeAt<T(!new)>(f: T -> bv32, us: seq<T>, vs: seq<T>)
    ensures AndingInt(f).merge(FoldAll(AndingInt(f), us), FoldAll(AndingInt(f), vs)) == FoldAll(AndingInt(f), us + vs)
  {
    AndingIntFoldAll(f, us);
    AndingIntFoldAll(f, vs);
    AndingIntFoldAll(f, us + vs);
    MapAppend(f, us, vs);
    if |us| > 0 && |vs| > 0 {
      And32Append(Map(f, us), Map(f, vs));
    } else if |us| == 0 {
      assert us + vs == vs;
    } else {
      assert us + vs == us;
    }
  }

  // ---------------------------------------------------------------- andingLong

  /** `andingLong(mapper)`: an empty `OptionalLong` for no input; finished once
      the and is zero. */
  function AndingLong<T(!new)>(f: T -> bv64): (c: Collector<T, AndBox<bv64>, Option<bv64>>)
    ensures c.chars == {Unordered}
    ensures forall a :: IsFinished(c, a) <==> a.seen && a.v == 0
  {
    Collector(AndBox(false, 0),
      (a: AndBox<bv64>, t: T) => if !a.seen then AndBox(true, f(t)) else AndBox(true, a.v & f(t)),
      (a1: AndBox<bv64>, a2: AndBox<bv64>) =>
        if !a1.seen then a2 else if !a2.seen then a1 else AndBox(true, a1.v & a2.v),
      (a: AndBox<bv64>) => if a.seen then Some(a.v) else None,
      Some((a: AndBox<bv64>) => a.seen && a.v == 0),
      {Unordered})
  }

  function And64(s: seq<bv64>): bv64
    requires |s| > 0
  {
    if |s| == 1 then s[0] else s[0] & And64(s[1..])
  }

  /** Every bit set in `a` is set in `b`. */
  ghost predicate Covers64(a: bv64, b: bv64)
  {
    a & b == a
  }

  /** `And64` is the greatest lower bound of its members: its bits are set in
      every member, and any value whose bits are set in every member has its
      bits set in it. */
  lemma And64IsMeet(s: seq<bv64>, m: bv64)
    requires |s| > 0
    ensures forall j :: 0 <= j < |s| ==> Covers64(And64(s), s[j])
    ensures (forall j :: 0 <= j < |s| ==> Covers64(m, s[j])) ==> Covers64(m, And64(s))
  {
    And64Lower(s);
    if forall j :: 0 <= j < |s| ==> Covers64(m, s[j]) {
      And64Greatest(s, m);
    }
  }

  lemma And64Lower(s: seq<bv64>)
    requires |s| > 0
    ensures forall j :: 0 <= j < |s| ==> Covers64(And64(s), s[j])
  {
    forall j | 0 <= j < |s| ensures Covers64(And64(s), s[j]) {
      And64LowerAt(s, j);
    }
  }

  lemma {:induction false} And64LowerAt(s: seq<bv64>, j: nat)
    requires j < |s|
    ensures Covers64(And64(s), s[j])
    decreases j
  {
    if |s| == 1 {
      CoversSelf64(s[0]);
    } else if j == 0 {
      And64CoversHead(s);
    } else {
      And64LowerAt(s[1..], j - 1);
      assert s[1..][j - 1] == s[j];
      And64CoversTail(s, s[j]);
    }
  }

  lemma And64CoversHead(s: seq<bv64>)
    requires |s| > 1
    ensures Covers64(And64(s), s[0])
  {
    CoversSelf64(s[0]);
    Absorb64(And64(s[1..]), s[0], s[0]);
  }

  lemma And64CoversTail(s: seq<bv64>, x: bv64)
    requires |s| > 1 && Covers64(And64(s[1..]), x)
    ensures Covers64(And64(s), x)
  {
    Absorb64(s[0], And64(s[1..]), x);
  }

  lemma {:induction false} And64Greatest(s: seq<bv64>, m: bv64)
    requires |s| > 0
    requires forall j :: 0 <= j < |s| ==> Covers64(m, s[j])
    ensures Covers64(m, And64(s))
    decreases |s|
  {
    if |s| == 1 {
      assert Covers64(m, s[0]);
    } else {
      var t := s[1..];
      forall j | 0 <= j < |t| ensures Covers64(m, t[j]) {
        assert t[j] == s[j + 1];
      }
      And64Greatest(t, m);
      Below64(m, s[0], And64(t));
    }
  }

  lemma CoversSelf64(a: bv64)
    ensures Covers64(a, a)
  {
  }

  lemma AndAssoc64(a: bv64, b: bv64, c: bv64)
    ensures a & (b & c) == (a & b) & c
  {
  }

  lemma Absorb64(a: bv64, b: bv64, c: bv64)
    requires Covers64(b, c)
    ensures Covers64(a & b, c) && Covers64(b & a, c)
  {
  }

  lemma Below64(m: bv64, a: bv64, b: bv64)
    requires Covers64(m, a) && Covers64(m, b)
    ensures Covers64(m, a & b)
  {
  }

  lemma {:induction false} And64Append(a: seq<bv64>, b: seq<bv64>)
    requires |a| > 0 && |b| > 0
    ensures And64(a + b) == And64(a) & And64(b)
    decreases |a|
  {
    if |a| == 1 {
      assert (a + b)[1..] == b;
    } else {
      assert (a + b)[1..] == a[1..] + b;
      And64Append(a[1..], b);
      AndAssoc64(a[0], And64(a[1..]), And64(b));
    }
  }

  lemma {:induction false} AndingLongFoldAll<T(!new)>(f: T -> bv64, xs: seq<T>)
    ensures FoldAll(AndingLong(f), xs) ==
      if |xs| == 0 then AndBox(false, 0) else AndBox(true, And64(Map(f, xs)))
    decreases |xs|
  {
    if |xs| > 0 {
      var xs', t := xs[..|xs| - 1], xs[|xs| - 1];
      AndingLongFoldAll(f, xs');
      SplitLast(xs);
      MapAppend(f, xs', [t]);
      assert Map(f, xs) == Map(f, xs') + [f(t)];
      assert FoldAll(AndingLong(f), xs) == AndingLong(f).fold(FoldAll(AndingLong(f), xs'), t);
      if |xs'| > 0 {
        And64Append(Map(f, xs'), [f(t)]);
      }
    }
  }

  /** `andingLong`: nothing for an empty input, else the and of all the values;
      merges agree with the sequential result; a zero is final. */
  lemma AndingLongCollect<T(!new)>(f: T -> bv64, xs: seq<T>)
    ensures Collect(AndingLong(f), xs) == if |xs| == 0 then None else Some(And64(Map(f, xs)))
    ensures MergeSound(AndingLong(f))
    ensures FoldKeepsFinished(AndingLong(f)) && MergeKeepsFinished(AndingLong(f)) && FinishedIsFinal(AndingLong(f))
  {
    AndingLongFoldAll(f, xs);
    var c := AndingLong(f);
    forall us: seq<T>, vs: seq<T> ensures c.merge(FoldAll(c, us), FoldAll(c, vs)) == FoldAll(c, us + vs) {
      AndingLongMergeAt(f, us, vs);
    }
  }

  lemma AndingLongMergeAt<T(!new)>(f: T -> bv64, us: seq<T>, vs: seq<T>)
    ensures AndingLong(f).merge(FoldAll(AndingLong(f), us), FoldAll(AndingLong(f), vs)) == FoldAll(AndingLong(f), us + vs)
  {
    AndingLongFoldAll(f, us);
    AndingLongFoldAll(f, vs);
    AndingLongFoldAll(f, us + vs);
    MapAppend(f, us, vs);
    if |us| > 0 && |vs| > 0 {
      And64Append(Map(f, us), Map(f, vs));
    } else if |us| == 0 {
      assert us + vs == vs;
    } else {
      assert us + vs == us;
    }
  }
}
