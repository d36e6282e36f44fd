/** `commonPrefix()` and `commonSuffix()` over `CharSequence`s of UTF-16 code
    units, with their special care for surrogate pairs. */
module Affixes {
  import opened Wrappers
  import Seqs
  import opened Collectors

  /** A UTF-16 code unit, the element type of a Java `CharSequence`. */
  type CodeUnit = x: int | 0 <= x < 0x1_0000

  type Text = seq<CodeUnit>

  /** `Character.isHighSurrogate`: U+D800 to U+DBFF (section 2.1 of RFC 2781). */
  predicate IsHighSurrogate(c: CodeUnit)
  {
    0xD800 <= c <= 0xDBFF
  }

  /** `Character.isLowSurrogate`: U+DC00 to U+DFFF. */
  predicate IsLowSurrogate(c: CodeUnit)
  {
    0xDC00 <= c <= 0xDFFF
  }

  function Min(x: int, y: int): int
  {
    if x < y then x else y
  }

  // ---------------------------------------------------------------- reference: longest common prefix

  /** The length of the longest common prefix of `u` and `v`, searched from `i`. */
  function LcpFrom(u: Text, v: Text, i: nat): (n: nat)
    requires i <= |u| && i <= |v|
    ensures i <= n <= |u| && n <= |v|
    ensures forall j :: i <= j < n ==> u[j] == v[j]
    ensures n < |u| && n < |v| ==> u[n] != v[n]
    decreases |u| - i
  {
    if i == |u| || i == |v| || u[i] != v[i] then i else LcpFrom(u, v, i + 1)
  }

  /** `u` and `v` both have at least `n` units and agree on the first `n`. */
  ghost predicate Agree(u: Text, v: Text, n: int)
  {
    0 <= n <= |u| && n <= |v| && forall i :: 0 <= i < n ==> u[i] == v[i]
  }

  lemma AgreeSlices(u: Text, v: Text, n: int)
    requires 0 <= n <= |u| && n <= |v|
    ensures Agree(u, v, n) <==> u[..n] == v[..n]
  {
    if u[..n] == v[..n] {
      forall i | 0 <= i < n ensures u[i] == v[i] {
        assert u[..n][i] == v[..n][i];
      }
    }
  }

  /** The length of the longest common prefix of `u` and `v`. */
  function Lcp(u: Text, v: Text): (n: nat)
    ensures Agree(u, v, n)
    ensures n < |u| && n < |v| ==> u[n] != v[n]
  {
    LcpFrom(u, v, 0)
  }

  /** A length at which `u` and `v` agree and then part (or one ends) is their `Lcp`. */
  lemma LcpUnique(u: Text, v: Text, n: nat)
    requires Agree(u, v, n)
    requires n < |u| && n < |v| ==> u[n] != v[n]
    ensures n == Lcp(u, v)
  {
  }

  /** The length of the longest common prefix of all of `S`. */
  function CommonLen(S: seq<Text>): (L: nat)
    requires |S| > 0
    ensures L <= |S[0]|
    decreases |S|
  {
    if |S| == 1 then |S[0]| else Min(CommonLen(S[..|S| - 1]), Lcp(S[0], S[|S| - 1]))
  }

  /** Some member of `S` ends, or parts from `S[0]`, at position `L`. */
  ghost predicate PartsAt(S: seq<Text>, L: int)
    requires |S| > 0 && 0 <= L < |S[0]|
  {
    exists j :: 0 <= j < |S| && L <= |S[j]| && (L == |S[j]| || S[j][L] != S[0][L])
  }

  /** `L` is the length of the longest common prefix of `S`: every member starts
      with the first `L` units of `S[0]`, and one member ends or parts there. */
  ghost predicate IsCommonLen(S: seq<Text>, L: int)
    requires |S| > 0
  {
    && 0 <= L <= |S[0]|
    && (forall j :: 0 <= j < |S| ==> Agree(S[j], S[0], L))
    && (L < |S[0]| ==> PartsAt(S, L))
  }

  lemma {:induction false} CommonLenIsLongest(S: seq<Text>)
    requires |S| > 0
    ensures IsCommonLen(S, CommonLen(S))
    decreases |S|
  {
    if |S| > 1 {
      var S', t := S[..|S| - 1], S[|S| - 1];
      CommonLenIsLongest(S');
      var L, c := CommonLen(S'), Lcp(S[0], t);
      var M := CommonLen(S);
      assert S'[0] == S[0];
      forall j | 0 <= j < |S| ensures Agree(S[j], S[0], M) {
        if j < |S'| {
          assert S[j] == S'[j];
        }
      }
      if M < |S[0]| {
        if M == L && L < |S'[0]| {
          var j :| 0 <= j < |S'| && L <= |S'[j]| && (L == |S'[j]| || S'[j][L] != S'[0][L]);
          assert S[j] == S'[j];
        } else {
          assert M == c;
          assert c == |t| || t[c] != S[0][c];
          assert S[|S| - 1] == t;
        }
      }
    }
  }

  lemma CommonLenUnique(S: seq<Text>, L: int)
    requires |S| > 0 && IsCommonLen(S, L)
    ensures L == CommonLen(S)
  {
    CommonLenIsLongest(S);
  }

  /** The common prefix of a concatenation is bounded by both sides' and by how
      far their first members agree. */
  lemma CommonLenAppend(xs: seq<Text>, ys: seq<Text>)
    requires |xs| > 0 && |ys| > 0
    ensures CommonLen(xs + ys) == Min(Min(CommonLen(xs), CommonLen(ys)), Lcp(xs[0], ys[0]))
  {
    CommonLenIsLongest(xs);
    CommonLenIsLongest(ys);
    var L1, L2, c := CommonLen(xs), CommonLen(ys), Lcp(xs[0], ys[0]);
    var M := Min(Min(L1, L2), c);
    var zs := xs + ys;
    var x0, y0 := xs[0], ys[0];
    assert zs[0] == x0;
    forall j | 0 <= j < |zs| ensures Agree(zs[j], x0, M) {
      if j < |xs| {
        assert zs[j] == xs[j];
        assert Agree(xs[j], x0, L1);
      } else {
        assert zs[j] == ys[j - |xs|];
        assert Agree(ys[j - |xs|], y0, L2);
      }
    }
    if M < |x0| {
      if M == L1 && L1 < |x0| {
        var j :| 0 <= j < |xs| && L1 <= |xs[j]| && (L1 == |xs[j]| || xs[j][L1] != x0[L1]);
        assert zs[j] == xs[j];
      } else if M == c {
        assert zs[|xs|] == y0;
      } else {
        assert M == L2 && L2 < c && L2 < |y0|;
        var j :| 0 <= j < |ys| && L2 <= |ys[j]| && (L2 == |ys[j]| || ys[j][L2] != y0[L2]);
        assert zs[|xs| + j] == ys[j];
        assert x0[L2] == y0[L2];
      }
    }
    CommonLenUnique(zs, M);
  }

  // ---------------------------------------------------------------- the prefix collector

  /** `ObjIntBox<CharSequence>`: the first sequence seen and the length of the
      common part found so far; `b == -1` before the first element. */
  datatype AffixBox = AffixBox(a: Option<Text>, b: int)

  predicate ValidBox(x: AffixBox)
  {
    if x.a.None? then x.b == -1 else 0 <= x.b <= |x.a.value|
  }

  type AffixState = x: AffixBox | ValidBox(x) witness AffixBox(None, -1)

  /** The accumulator's loop: the first position below `bound` where `a` and `t`
      differ, stepped back by one when `t` has a `lead` unit before it and either
      side a `trail` unit at it; `bound` when they agree throughout. */
  function Scan(lead: CodeUnit -> bool, trail: CodeUnit -> bool, a: Text, t: Text, i: nat, bound: nat): (r: nat)
    requires i <= bound <= |a| && bound <= |t|
    ensures r <= bound
    decreases bound - i
  {
    if i == bound then bound
    else if a[i] != t[i] then
      if i > 0 && lead(t[i - 1]) && (trail(t[i]) || trail(a[i])) then i - 1 else i
    else Scan(lead, trail, a, t, i + 1, bound)
  }

  /** The loop stops at the longest common prefix, or one unit before it when
      that would end between a `lead` unit and a `trail` unit. */
  lemma {:induction false} ScanIsLcp(lead: CodeUnit -> bool, trail: CodeUnit -> bool, a: Text, t: Text, i: nat, bound: nat)
    requires i <= bound <= |a| && bound <= |t|
    ensures var m := LcpFrom(a, t, i);
      Scan(lead, trail, a, t, i, bound) ==
        if m >= bound then bound
        else if m > 0 && lead(t[m - 1]) && (trail(t[m]) || trail(a[m])) then m - 1
        else m
    decreases bound - i
  {
    if i < bound && a[i] == t[i] {
      ScanIsLcp(lead, trail, a, t, i + 1, bound);
    }
  }

  /** One accumulation step, shared by the prefix collector and its merge. */
  function PrefixStep(lead: CodeUnit -> bool, trail: CodeUnit -> bool, acc: AffixState, t: Text): AffixState
  {
    if acc.b == -1 then AffixBox(Some(t), |t|)
    else if acc.b > 0 then
      var bound := if |t| < acc.b then |t| else acc.b;
      AffixBox(acc.a, Scan(lead, trail, acc.a.value, t, 0, bound))
    else acc
  }

  /** After the first input the match length never grows, and the state keeps
      the first input as its reference text. */
  lemma PrefixStepNeverGrows(lead: CodeUnit -> bool, trail: CodeUnit -> bool, acc: AffixState, t: Text)
    ensures acc.b >= 0 ==> PrefixStep(lead, trail, acc, t).b <= acc.b
    ensures PrefixStep(lead, trail, acc, t).a == if acc.b == -1 then Some(t) else acc.a
  {
  }

  /** The prefix collector with the unit classes that must not be split apart:
      a merge feeds the right side's common prefix to the left side's state;
      the collector is finished once the common prefix is empty. */
  function PrefixCollector(lead: CodeUnit -> bool, trail: CodeUnit -> bool): (c: Collector<Text, AffixState, Text>)
    ensures c.chars == {Unordered}
    ensures forall x :: IsFinished(c, x) <==> x.b == 0
  {
    Collector<Text, AffixState, Text>.Collector(AffixBox(None, -1),
      (acc: AffixState, t: Text) => PrefixStep(lead, trail, acc, t),
      (x: AffixState, y: AffixState) =>
        if x.b == -1 then y
        else if y.b != -1 then PrefixStep(lead, trail, x, y.a.value[..y.b])
        else x,
      (x: AffixState) => if x.a.None? then [] else x.a.value[..x.b],
      Some((x: AffixState) => x.b == 0),
      {Unordered})
  }

  /** `commonPrefix()`. */
  function CommonPrefix(): (c: Collector<Text, AffixState, Text>)
    ensures c.chars == {Unordered}
    ensures forall x :: IsFinished(c, x) <==> x.b == 0
  {
    PrefixCollector(IsHighSurrogate, IsLowSurrogate)
  }

  /** What the state knows about the elements `S` folded into it: it keeps the
      first one, and its length is the longest common prefix of all of them or,
      when that ends on a `lead` unit, possibly one less. */
  ghost predicate PrefixInv(lead: CodeUnit -> bool, S: seq<Text>, acc: AffixState)
  {
    if |S| == 0 then acc == AffixBox(None, -1)
    else
      && acc.a == Some(S[0])
      && CommonLen(S) - 1 <= acc.b <= CommonLen(S)
      && (acc.b < CommonLen(S) ==> lead(S[0][acc.b]))
  }

  lemma PrefixStepInv(lead: CodeUnit -> bool, trail: CodeUnit -> bool, S: seq<Text>, acc: AffixState, t: Text)
    requires PrefixInv(lead, S, acc)
    ensures PrefixInv(lead, S + [t], PrefixStep(lead, trail, acc, t))
  {
    var S' := S + [t];
    if |S| > 0 {
      assert S'[..|S'| - 1] == S && S'[0] == S[0];
      var a, L := S[0], CommonLen(S);
      if acc.b > 0 {
        var bound := if |t| < acc.b then |t| else acc.b;
        ScanIsLcp(lead, trail, a, t, 0, bound);
        var m := Lcp(a, t);
        if 0 < m < bound {
          assert a[..m][m - 1] == t[..m][m - 1];
        }
      }
    }
  }

  lemma {:induction false} PrefixFoldInv(lead: CodeUnit -> bool, trail: CodeUnit -> bool, S: seq<Text>)
    ensures PrefixInv(lead, S, FoldAll(PrefixCollector(lead, trail), S))
    decreases |S|
  {
    if |S| > 0 {
      var S' := S[..|S| - 1];
      assert S == S' + [S[|S| - 1]];
      PrefixFoldInv(lead, trail, S');
      PrefixStepInv(lead, trail, S', FoldAll(PrefixCollector(lead, trail), S'), S[|S| - 1]);
    }
  }

  /** Cutting `v` to `k` units cuts its common prefix with `u` to at most `k`. */
  lemma LcpOfPrefix(u: Text, v: Text, k: nat)
    requires k <= |v|
    ensures Lcp(u, v[..k]) == Min(Lcp(u, v), k)
  {
    LcpUnique(u, v[..k], Min(Lcp(u, v), k));
  }

  /** The merge step on the numbers alone: the left state holds `x0` with a
      length within one of `L1`, the right one `y0` with a length within one of
      `L2`; feeding the right side's prefix to the left state lands within one of
      `Min(Min(L1, L2), Lcp(x0, y0))`. */
  lemma PrefixMergeStep(lead: CodeUnit -> bool, trail: CodeUnit -> bool, x0: Text, L1: nat, b1: nat, y0: Text, L2: nat, b2: nat)
    requires L1 <= |x0| && L1 - 1 <= b1 <= L1 && (b1 < L1 ==> lead(x0[b1]))
    requires L2 <= |y0| && L2 - 1 <= b2 <= L2 && (b2 < L2 ==> lead(y0[b2]))
    ensures var r := PrefixStep(lead, trail, AffixBox(Some(x0), b1), y0[..b2]);
      var M := Min(Min(L1, L2), Lcp(x0, y0));
      && r.a == Some(x0)
      && M - 1 <= r.b <= M
      && (r.b < M ==> lead(x0[r.b]))
  {
    if b1 > 0 {
      PrefixMergeScan(lead, trail, x0, L1, b1, y0, L2, b2);
    } else {
      assert PrefixStep(lead, trail, AffixBox(Some(x0), b1), y0[..b2]).b == 0;
    }
  }

  /** The merge step when the left state holds a non-empty prefix, which the
      right side's prefix is scanned against. */
  lemma PrefixMergeScan(lead: CodeUnit -> bool, trail: CodeUnit -> bool, x0: Text, L1: nat, b1: nat, y0: Text, L2: nat, b2: nat)
    requires L1 <= |x0| && L1 - 1 <= b1 <= L1 && (b1 < L1 ==> lead(x0[b1]))
    requires L2 <= |y0| && L2 - 1 <= b2 <= L2 && (b2 < L2 ==> lead(y0[b2]))
    requires b1 > 0
    ensures var r := PrefixStep(lead, trail, AffixBox(Some(x0), b1), y0[..b2]);
      var M := Min(Min(L1, L2), Lcp(x0, y0));
      && r.a == Some(x0)
      && M - 1 <= r.b <= M
      && (r.b < M ==> lead(x0[r.b]))
  {
    var p := y0[..b2];
    var r := PrefixStep(lead, trail, AffixBox(Some(x0), b1), p);
    LcpOfPrefix(x0, y0, b2);
    var bound := Min(b1, b2);
    assert r.b == Scan(lead, trail, x0, p, 0, bound);
    ScanIsLcp(lead, trail, x0, p, 0, bound);
    var m := Lcp(x0, p);
    assert m == LcpFrom(x0, p, 0);
    if m >= bound {
      assert r.b == bound;
      MergeStepAgrees(lead, x0, L1, b1, y0, L2, b2);
    } else {
      assert r.b == if m > 0 && lead(p[m - 1]) && (trail(p[m]) || trail(x0[m])) then m - 1 else m;
      MergeStepParts(lead, trail, x0, L1, b1, y0, L2, b2);
    }
  }

  /** The merge step when the right side's prefix agrees with the left state
      up to the shorter of the two lengths. */
  lemma MergeStepAgrees(lead: CodeUnit -> bool, x0: Text, L1: nat, b1: nat, y0: Text, L2: nat, b2: nat)
    requires L1 <= |x0| && L1 - 1 <= b1 <= L1 && (b1 < L1 ==> lead(x0[b1]))
    requires L2 <= |y0| && L2 - 1 <= b2 <= L2 && (b2 < L2 ==> lead(y0[b2]))
    requires Min(Lcp(x0, y0), b2) >= Min(b1, b2)
    ensures var M, r := Min(Min(L1, L2), Lcp(x0, y0)), Min(b1, b2);
      M - 1 <= r <= M && (r < M ==> lead(x0[r]))
  {
    if b2 < b1 && b2 < Min(Min(L1, L2), Lcp(x0, y0)) {
      assert x0[b2] == y0[b2];
    }
  }

  /** The merge step when the two texts part before the shorter length. */
  lemma MergeStepParts(lead: CodeUnit -> bool, trail: CodeUnit -> bool, x0: Text, L1: nat, b1: nat, y0: Text, L2: nat, b2: nat)
    requires L1 <= |x0| && L1 - 1 <= b1 <= L1 && 0 < b1
    requires L2 <= |y0| && L2 - 1 <= b2 <= L2 && b2 <= |y0|
    requires Lcp(x0, y0[..b2]) == Min(Lcp(x0, y0), b2) < Min(b1, b2)
    ensures var p, M, m := y0[..b2], Min(Min(L1, L2), Lcp(x0, y0)), Lcp(x0, y0[..b2]);
      var r := if m > 0 && lead(p[m - 1]) && (trail(p[m]) || trail(x0[m])) then m - 1 else m;
      M - 1 <= r <= M && (r < M ==> lead(x0[r]))
  {
    var p, m := y0[..b2], Lcp(x0, y0[..b2]);
    if m > 0 {
      assert p[m - 1] == y0[m - 1] == x0[m - 1];
    }
  }

  /** Merging the states of two partitions keeps what the states know. */
  lemma PrefixMergeInv(lead: CodeUnit -> bool, trail: CodeUnit -> bool, xs: seq<Text>, ys: seq<Text>, x: AffixState, y: AffixState)
    requires PrefixInv(lead, xs, x) && PrefixInv(lead, ys, y)
    ensures PrefixInv(lead, xs + ys, PrefixCollector(lead, trail).merge(x, y))
  {
    if |xs| == 0 {
      assert xs + ys == ys;
    } else if |ys| == 0 {
      assert xs + ys == xs;
    } else {
      CommonLenAppend(xs, ys);
      assert (xs + ys)[0] == xs[0];
      PrefixMergeStep(lead, trail, xs[0], CommonLen(xs), x.b, ys[0], CommonLen(ys), y.b);
    }
  }

  /** The promise about a result `r` for inputs `S`: empty for an empty input;
      otherwise a prefix of every input that is the longest common one, or one
      unit shorter when that ends on a `lead` unit. */
  ghost predicate IsCommonPrefixResult(lead: CodeUnit -> bool, S: seq<Text>, r: Text)
  {
    && (|S| == 0 ==> r == [])
    && (|S| > 0 ==>
      && (forall j :: 0 <= j < |S| ==> |r| <= |S[j]| && S[j][..|r|] == r)
      && CommonLen(S) - 1 <= |r| <= CommonLen(S)
      && (|r| < CommonLen(S) ==> lead(S[0][|r|])))
  }

  /** What a state that knows `S` promises about its result. */
  lemma PrefixInvResult(lead: CodeUnit -> bool, trail: CodeUnit -> bool, S: seq<Text>, acc: AffixState)
    requires PrefixInv(lead, S, acc)
    ensures IsCommonPrefixResult(lead, S, PrefixCollector(lead, trail).finish(acc))
  {
    if |S| > 0 {
      CommonLenIsLongest(S);
      var r, L := PrefixCollector(lead, trail).finish(acc), CommonLen(S);
      forall j | 0 <= j < |S| ensures |r| <= |S[j]| && S[j][..|r|] == r {
        assert S[j][..L][..|r|] == S[0][..L][..|r|];
      }
    }
  }

  /** The result of `commonPrefix()`: empty for an empty input; otherwise a
      prefix of every input that is the longest common one, or one unit
      shorter when that ends on a high surrogate. */
  lemma CommonPrefixCollect(xs: seq<Text>)
    ensures var r := Collect(CommonPrefix(), xs);
      && (|xs| == 0 ==> r == [])
      && (|xs| > 0 ==>
        && (forall j :: 0 <= j < |xs| ==> |r| <= |xs[j]| && xs[j][..|r|] == r)
        && CommonLen(xs) - 1 <= |r| <= CommonLen(xs)
        && (|r| < CommonLen(xs) ==> IsHighSurrogate(xs[0][|r|])))
  {
    PrefixFoldInv(IsHighSurrogate, IsLowSurrogate, xs);
    PrefixInvResult(IsHighSurrogate, IsLowSurrogate, xs, FoldAll(CommonPrefix(), xs));
  }

  /** The pull-back applies only where two inputs disagree: when the other input
      differs in the low surrogate the pair is dropped whole, but when it simply
      ends after the high surrogate the result keeps that half of the pair. */
  lemma CommonPrefixPairExamples()
    ensures var u: Text, v: Text, w: Text := [0x61, 0xD800, 0xDC00], [0x61, 0xD800, 0xDC01], [0x61, 0xD800];
      && Collect(CommonPrefix(), [u, v]) == [0x61]
      && Collect(CommonPrefix(), [u, w]) == [0x61, 0xD800]
  {
    var u: Text, v: Text, w: Text := [0x61, 0xD800, 0xDC00], [0x61, 0xD800, 0xDC01], [0x61, 0xD800];
    var c := CommonPrefix();
    FoldFromSnoc(c, c.create, [], u);
    assert [] + [u] == [u];
    assert FoldAll(c, [u]) == AffixBox(Some(u), 3);
    FoldFromSnoc(c, c.create, [u], v);
    assert [u] + [v] == [u, v];
    assert FoldAll(c, [u, v]) == AffixBox(Some(u), 1);
    FoldFromSnoc(c, c.create, [u], w);
    assert [u] + [w] == [u, w];
    assert FoldAll(c, [u, w]) == AffixBox(Some(u), 2);
  }

  /** A mismatch straight after a high surrogate is pulled back only when one of
      the two disagreeing units is a low surrogate. So the result depends on the
      order of the inputs, although the collector is declared UNORDERED: read
      "\uD800x", "\uD800y", "\uD800\uDC00" in that order it keeps the lone high
      surrogate, while the pair read first drops it. */
  lemma CommonPrefixOrderDependent()
    ensures var u: Text, v: Text, w: Text := [0xD800, 0x78], [0xD800, 0x79], [0xD800, 0xDC00];
      && Collect(CommonPrefix(), [u, v, w]) == [0xD800]
      && Collect(CommonPrefix(), [w, u, v]) == []
  {
    var u: Text, v: Text, w: Text := [0xD800, 0x78], [0xD800, 0x79], [0xD800, 0xDC00];
    var c := CommonPrefix();
    FoldFromSnoc(c, c.create, [], u);
    assert [] + [u] == [u];
    assert FoldAll(c, [u]) == AffixBox(Some(u), 2);
    FoldFromSnoc(c, c.create, [u], v);
    assert [u] + [v] == [u, v];
    assert FoldAll(c, [u, v]) == AffixBox(Some(u), 1);
    FoldFromSnoc(c, c.create, [u, v], w);
    assert [u, v] + [w] == [u, v, w];
    assert FoldAll(c, [u, v, w]) == AffixBox(Some(u), 1);
    FoldFromSnoc(c, c.create, [], w);
    assert [] + [w] == [w];
    assert FoldAll(c, [w]) == AffixBox(Some(w), 2);
    FoldFromSnoc(c, c.create, [w], u);
    assert [w] + [u] == [w, u];
    assert FoldAll(c, [w, u]) == AffixBox(Some(w), 0);
    FoldFromSnoc(c, c.create, [w, u], v);
    assert [w, u] + [v] == [w, u, v];
    assert FoldAll(c, [w, u, v]) == AffixBox(Some(w), 0);
  }

  /** Evaluated on two partitions and merged, `commonPrefix()` keeps the same promise. */
  lemma CommonPrefixMerged(xs: seq<Text>, ys: seq<Text>)
    ensures var c := CommonPrefix();
      var r := c.finish(c.merge(FoldAll(c, xs), FoldAll(c, ys)));
      var S := xs + ys;
      && (|S| == 0 ==> r == [])
      && (|S| > 0 ==>
        && (forall j :: 0 <= j < |S| ==> |r| <= |S[j]| && S[j][..|r|] == r)
        && CommonLen(S) - 1 <= |r| <= CommonLen(S)
        && (|r| < CommonLen(S) ==> IsHighSurrogate(S[0][|r|])))
  {
    var c := CommonPrefix();
    PrefixFoldInv(IsHighSurrogate, IsLowSurrogate, xs);
    PrefixFoldInv(IsHighSurrogate, IsLowSurrogate, ys);
    PrefixMergeInv(IsHighSurrogate, IsLowSurrogate, xs, ys, FoldAll(c, xs), FoldAll(c, ys));
    PrefixInvResult(IsHighSurrogate, IsLowSurrogate, xs + ys, c.merge(FoldAll(c, xs), FoldAll(c, ys)));
  }

  /** An empty common prefix is final: it stays finished under folding and
      merging and its result no longer changes, so the input may be cut short. */
  lemma PrefixShortCircuit(lead: CodeUnit -> bool, trail: CodeUnit -> bool)
    ensures FoldKeepsFinished(PrefixCollector(lead, trail))
    ensures MergeKeepsFinished(PrefixCollector(lead, trail))
    ensures FinishedIsFinal(PrefixCollector(lead, trail))
  {
  }

  // ---------------------------------------------------------------- the suffix collector

  /** `s` read backwards. */
  function Rev(s: Text): (r: Text)
    ensures |r| == |s|
    ensures forall i :: 0 <= i < |s| ==> r[i] == s[|s| - 1 - i]
  {
    seq(|s|, i requires 0 <= i < |s| => s[|s| - 1 - i])
  }

  lemma RevRev(s: Text)
    ensures Rev(Rev(s)) == s
  {
  }

  /** The last `k` units, reversed, are the first `k` units of the reversal. */
  lemma RevSuffix(s: Text, k: nat)
    requires k <= |s|
    ensures Rev(s[|s| - k..]) == Rev(s)[..k]
  {
  }

  /** The suffix loop as written, comparing from the ends of both sequences. */
  function SuffixScan(a: Text, t: Text, i: nat, bound: nat): (r: nat)
    requires i <= bound <= |a| && bound <= |t|
    ensures r <= bound
    decreases bound - i
  {
    if i == bound then bound
    else if a[|a| - 1 - i] != t[|t| - 1 - i] then
      if i > 0 && IsLowSurrogate(t[|t| - i]) && (IsHighSurrogate(t[|t| - 1 - i]) || IsHighSurrogate(a[|a| - 1 - i]))
      then i - 1 else i
    else SuffixScan(a, t, i + 1, bound)
  }

  /** Comparing from the ends is the prefix loop on the reversed sequences with
      the roles of the two surrogate halves swapped. */
  lemma {:induction false} SuffixScanIsReversed(a: Text, t: Text, i: nat, bound: nat)
    requires i <= bound <= |a| && bound <= |t|
    ensures SuffixScan(a, t, i, bound) == Scan(IsLowSurrogate, IsHighSurrogate, Rev(a), Rev(t), i, bound)
    decreases bound - i
  {
    if i < bound && a[|a| - 1 - i] == t[|t| - 1 - i] {
      SuffixScanIsReversed(a, t, i + 1, bound);
    }
  }

  function SuffixStep(acc: AffixState, t: Text): AffixState
  {
    if acc.b == -1 then AffixBox(Some(t), |t|)
    else if acc.b > 0 then
      var bound := if |t| < acc.b then |t| else acc.b;
      AffixBox(acc.a, SuffixScan(acc.a.value, t, 0, bound))
    else acc
  }

  /** The suffix counterpart of `PrefixStepNeverGrows`. */
  lemma SuffixStepNeverGrows(acc: AffixState, t: Text)
    ensures acc.b >= 0 ==> SuffixStep(acc, t).b <= acc.b
    ensures SuffixStep(acc, t).a == if acc.b == -1 then Some(t) else acc.a
  {
  }

  /** `commonSuffix()`: a merge feeds the right side's common suffix to the left
      side's state; finished once the common suffix is empty. */
  function CommonSuffix(): (c: Collector<Text, AffixState, Text>)
    ensures c.chars == {Unordered}
    ensures forall x :: IsFinished(c, x) <==> x.b == 0
  {
    Collector<Text, AffixState, Text>.Collector(AffixBox(None, -1),
      (acc: AffixState, t: Text) => SuffixStep(acc, t),
      (x: AffixState, y: AffixState) =>
        if x.b == -1 then y
        else if y.b != -1 then SuffixStep(x, y.a.value[|y.a.value| - y.b..])
        else x,
      (x: AffixState) => if x.a.None? then [] else x.a.value[|x.a.value| - x.b..],
      Some((x: AffixState) => x.b == 0),
      {Unordered})
  }

  /** The state with its stored sequence reversed. */
  function RevState(x: AffixState): AffixState
  {
    if x.a.None? then x else AffixBox(Some(Rev(x.a.value)), x.b)
  }

  function RevAll(S: seq<Text>): (r: seq<Text>)
    ensures |r| == |S| && forall j :: 0 <= j < |S| ==> r[j] == Rev(S[j])
  {
    Seqs.Map(Rev, S)
  }

  /** Folding from the end is the prefix fold on reversed sequences, with the
      surrogate halves swapped. */
  lemma SuffixFoldIsReversed(x: AffixState, t: Text)
    ensures RevState(CommonSuffix().fold(x, t)) == PrefixCollector(IsLowSurrogate, IsHighSurrogate).fold(RevState(x), Rev(t))
  {
    if x.b > 0 {
      var bound := if |t| < x.b then |t| else x.b;
      SuffixScanIsReversed(x.a.value, t, 0, bound);
    }
  }

  lemma SuffixMergeIsReversed(x: AffixState, y: AffixState)
    ensures RevState(CommonSuffix().merge(x, y)) == PrefixCollector(IsLowSurrogate, IsHighSurrogate).merge(RevState(x), RevState(y))
  {
    if x.b != -1 && y.b != -1 {
      RevSuffix(y.a.value, y.b);
      SuffixFoldIsReversed(x, y.a.value[|y.a.value| - y.b..]);
    }
  }

  lemma SuffixFinishIsReversed(x: AffixState)
    ensures CommonSuffix().finish(x) == Rev(PrefixCollector(IsLowSurrogate, IsHighSurrogate).finish(RevState(x)))
  {
    if x.a.Some? {
      RevSuffix(x.a.value, x.b);
      RevRev(x.a.value[|x.a.value| - x.b..]);
    }
  }

  lemma {:induction false} SuffixFoldAll(xs: seq<Text>)
    ensures RevState(FoldAll(CommonSuffix(), xs)) == FoldAll(PrefixCollector(IsLowSurrogate, IsHighSurrogate), RevAll(xs))
    decreases |xs|
  {
    if |xs| > 0 {
      var xs' := xs[..|xs| - 1];
      SuffixFoldAll(xs');
      assert RevAll(xs)[..|xs| - 1] == RevAll(xs');
      SuffixFoldIsReversed(FoldAll(CommonSuffix(), xs'), xs[|xs| - 1]);
    }
  }

  /** A suffix of `s` read backwards is a prefix of `s` read backwards. */
  lemma SuffixOfReversed(s: Text, r: Text)
    requires |r| <= |s| && Rev(s)[..|r|] == r
    ensures s[|s| - |r|..] == Rev(r)
  {
    RevSuffix(s, |r|);
    RevRev(s[|s| - |r|..]);
  }

  /** The promise of `commonSuffix()` about a result `r` for inputs `S`: empty for
      an empty input; otherwise a suffix of every input that is the longest common
      one, or one unit shorter when that starts on a low surrogate. */
  ghost predicate IsCommonSuffixResult(S: seq<Text>, r: Text)
  {
    && (|S| == 0 ==> r == [])
    && (|S| > 0 ==>
      && (forall j :: 0 <= j < |S| ==> |r| <= |S[j]| && S[j][|S[j]| - |r|..] == r)
      && CommonLen(RevAll(S)) - 1 <= |r| <= CommonLen(RevAll(S))
      && (|r| < CommonLen(RevAll(S)) ==> IsLowSurrogate(S[0][|S[0]| - 1 - |r|])))
  }

  /** A state of the reversed prefix collector that knows the reversed inputs
      finishes, once reversed back, to a result `commonSuffix()` promises. */
  lemma SuffixResultFromPrefix(S: seq<Text>, acc: AffixState)
    requires PrefixInv(IsLowSurrogate, RevAll(S), acc)
    ensures IsCommonSuffixResult(S, Rev(PrefixCollector(IsLowSurrogate, IsHighSurrogate).finish(acc)))
  {
    var rp := PrefixCollector(IsLowSurrogate, IsHighSurrogate).finish(acc);
    PrefixInvResult(IsLowSurrogate, IsHighSurrogate, RevAll(S), acc);
    SuffixResultFromPrefixResult(S, rp);
  }

  /** A prefix result for the reversed inputs is, reversed, a suffix result. */
  lemma SuffixResultFromPrefixResult(S: seq<Text>, rp: Text)
    requires IsCommonPrefixResult(IsLowSurrogate, RevAll(S), rp)
    ensures IsCommonSuffixResult(S, Rev(rp))
  {
    if |S| > 0 {
      SuffixesOfAll(S, rp);
      if |rp| < CommonLen(RevAll(S)) {
        RevAllAt(S, |rp|);
      }
    }
  }

  lemma RevAllAt(S: seq<Text>, k: nat)
    requires |S| > 0 && k < |RevAll(S)[0]|
    ensures RevAll(S)[0][k] == S[0][|S[0]| - 1 - k]
  {
  }

  lemma SuffixesOfAll(S: seq<Text>, rp: Text)
    requires forall j :: 0 <= j < |S| ==> |rp| <= |RevAll(S)[j]| && RevAll(S)[j][..|rp|] == rp
    ensures forall j :: 0 <= j < |S| ==> |Rev(rp)| <= |S[j]| && S[j][|S[j]| - |Rev(rp)|..] == Rev(rp)
  {
    var R := RevAll(S);
    forall j | 0 <= j < |S| ensures |rp| <= |S[j]| && S[j][|S[j]| - |rp|..] == Rev(rp) {
      assert R[j] == Rev(S[j]);
      SuffixOfReversed(S[j], rp);
    }
  }

  lemma RevAllAppend(xs: seq<Text>, ys: seq<Text>)
    ensures RevAll(xs + ys) == RevAll(xs) + RevAll(ys)
  {
  }

  /** The suffix state, reversed, knows the reversed inputs. */
  lemma SuffixFoldInv(xs: seq<Text>)
    ensures PrefixInv(IsLowSurrogate, RevAll(xs), RevState(FoldAll(CommonSuffix(), xs)))
  {
    SuffixFoldAll(xs);
    PrefixFoldInv(IsLowSurrogate, IsHighSurrogate, RevAll(xs));
  }

  /** The result of `commonSuffix()` keeps its promise. */
  lemma CommonSuffixCollect(xs: seq<Text>)
    ensures IsCommonSuffixResult(xs, Collect(CommonSuffix(), xs))
  {
    var x := FoldAll(CommonSuffix(), xs);
    SuffixFoldInv(xs);
    SuffixFinishIsReversed(x);
    SuffixResultFromPrefix(xs, RevState(x));
  }

  /** Evaluated on two partitions and merged, `commonSuffix()` keeps the same promise. */
  lemma CommonSuffixMerged(xs: seq<Text>, ys: seq<Text>)
    ensures var c := CommonSuffix();
      IsCommonSuffixResult(xs + ys, c.finish(c.merge(FoldAll(c, xs), FoldAll(c, ys))))
  {
    var c := CommonSuffix();
    var x, y := FoldAll(c, xs), FoldAll(c, ys);
    var z := c.merge(x, y);
    SuffixFoldInv(xs);
    SuffixFoldInv(ys);
    SuffixMergeIsReversed(x, y);
    PrefixMergeInv(IsLowSurrogate, IsHighSurrogate, RevAll(xs), RevAll(ys), RevState(x), RevState(y));
    RevAllAppend(xs, ys);
    SuffixFinishIsReversed(z);
    SuffixResultFromPrefix(xs + ys, RevState(z));
  }

  /** An empty common suffix is final, as for the prefix. */
  lemma SuffixShortCircuit()
    ensures FoldKeepsFinished(CommonSuffix())
    ensures MergeKeepsFinished(CommonSuffix())
    ensures FinishedIsFinal(CommonSuffix())
  {
  }
}
