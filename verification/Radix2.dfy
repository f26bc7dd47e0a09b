/** The in-place radix-2 transform. */
module Radix2 {
  import opened Bits
  import opened Complex
  import opened Fourier
  import opened BitReversal

  /** SIZE_MAX / sizeof(double) on the 64-bit target. */
  const MAX_DOUBLES: nat := 0xFFFF_FFFF_FFFF_FFFF / 8

  ghost function Signal(re: seq<real>, im: seq<real>): (x: seq<C>)
    requires |re| == |im|
    ensures |x| == |re| && forall k | 0 <= k < |x| :: x[k] == C(re[k], im[k])
  {
    seq(|re|, k requires 0 <= k < |re| => C(re[k], im[k]))
  }

  /**
   What position q holds once blocks of 2^p points are done: block b is the 2^p-point transform
   of the subsequence with stride 2^(L-p) that starts at the reversed bits of b.
   */
  ghost function Expect(t: Trig, x: seq<C>, L: nat, p: nat, q: nat): C
    requires p <= L
  {
    Strided(t, x, Pow2(L - p), Rev(Quot(q, Pow2(p)), L - p), Pow2(p), Rem(q, Pow2(p)))
  }

  ghost predicate LevelDone(t: Trig, x: seq<C>, L: nat, p: nat, y: seq<C>)
    requires p <= L
  {
    && |y| == |x| == Pow2(L)
    && forall q | 0 <= q < |y| :: y[q] == Expect(t, x, L, p, q)
  }

  lemma FirstLevel(t: Trig, x: seq<C>, y: seq<C>, L: nat)
    requires IsTrig(t) && |x| == |y| == Pow2(L)
    requires forall q | 0 <= q < |y| :: y[q] == x[Rev(q, L)]
    ensures LevelDone(t, x, L, 0, y)
  {
    forall q | 0 <= q < |y|
      ensures y[q] == Expect(t, x, L, 0, q)
    {
      StridedOne(t, x, Pow2(L), Rev(q, L));
    }
  }

  lemma LastLevel(t: Trig, x: seq<C>, y: seq<C>, L: nat)
    requires LevelDone(t, x, L, L, y)
    ensures y == DftSeq(t, x)
  {
    hide Dft, Strided;
    forall q | 0 <= q < |y|
      ensures y[q] == Dft(t, x, q)
    {
      QuotRemUnique(q, Pow2(L), 0, q);
      StridedWhole(t, x, q);
    }
  }

  /** Positions j = 2hb + u and j + h of a block of 2h = 2^(p+1) points, merged. */
  lemma MergePair(t: Trig, x: seq<C>, L: nat, p: nat, b: nat, u: nat)
    requires IsTrig(t) && p < L && u < Pow2(p)
    ensures var h, j := Pow2(p), b * Pow2(p + 1) + u;
            var e, d, w := Expect(t, x, L, p, j), Expect(t, x, L, p, j + h), W(t, 2 * h, u);
            && Expect(t, x, L, p + 1, j) == Add(e, Mul(d, w))
            && Expect(t, x, L, p + 1, j + h) == Sub(e, Mul(d, w))
  {
    hide *;
    var h, j, s, o := Pow2(p), b * Pow2(p + 1) + u, Pow2(L - p - 1), Rev(b, L - p - 1);
    Pow2Succ(p);
    Pow2Succ(L - p - 1);
    assert b * (2 * h) == (2 * b) * h && (2 * b + 1) * h == (2 * b) * h + h;
    ExpectAt(t, x, L, p, j, 2 * b, u);
    ExpectAt(t, x, L, p, j + h, 2 * b + 1, u);
    ExpectAt(t, x, L, p + 1, j, b, u);
    ExpectAt(t, x, L, p + 1, j + h, b, u + h);
    RevPair(b, L - p - 1);
    Butterfly(t, x, s, o, h, u);
  }

  lemma Pow2Succ(n: nat)
    ensures Pow2(n + 1) == 2 * Pow2(n)
  {}

  lemma RevPair(b: nat, n: nat)
    ensures Rev(2 * b, n + 1) == Rev(b, n) && Rev(2 * b + 1, n + 1) == Rev(b, n) + Pow2(n)
  {}

  lemma ExpectAt(t: Trig, x: seq<C>, L: nat, p: nat, q: nat, b: nat, u: nat)
    requires p <= L && u < Pow2(p) && q == b * Pow2(p) + u
    ensures Expect(t, x, L, p, q) == Strided(t, x, Pow2(L - p), Rev(b, L - p), Pow2(p), u)
  {
    QuotRemUnique(q, Pow2(p), b, u);
    hide Quot, Rem, Strided;
  }

  /** Multiplication by the conjugate root c - i s, in the source's own arithmetic. */
  ghost function Turn(d: C, c: real, s: real): C {
    C(d.re * c + d.im * s, -d.re * s + d.im * c)
  }

  lemma TurnIsMul(d: C, c: real, s: real)
    ensures Turn(d, c, s) == Mul(d, C(c, -s))
  {}

  /** The innermost statement group: one butterfly between positions j and l. */
  method ButterflyStep(re: array<real>, im: array<real>, j: nat, l: nat, c: real, s: real)
    requires re != im && re.Length == im.Length && j < l < re.Length
    modifies re, im
    ensures var y := old(Signal(re[..], im[..]));
            Signal(re[..], im[..]) == y[j := Add(y[j], Turn(y[l], c, s))][l := Sub(y[j], Turn(y[l], c, s))]
  {
    ghost var y := Signal(re[..], im[..]);
    var tpre := re[l] * c + im[l] * s;
    var tpim := -re[l] * s + im[l] * c;
    assert Turn(y[l], c, s) == C(tpre, tpim);
    hide Turn;
    re[l] := re[j] - tpre;
    im[l] := im[j] - tpim;
    re[j] := re[j] + tpre;
    im[j] := im[j] + tpim;
  }

  /** The tables of an n-point transform. */
  ghost predicate Tables(t: Trig, cosTable: array<real>, sinTable: array<real>, n: nat)
    reads cosTable, sinTable
  {
    && cosTable.Length == sinTable.Length == n / 2
    && forall i | 0 <= i < n / 2 :: cosTable[i] == t.cos(n, i) && sinTable[i] == t.sin(n, i)
  }

  /** The innermost loop: all butterflies of the block that starts at i. */
  method ButterflyBlock(ghost t: Trig, re: array<real>, im: array<real>, cosTable: array<real>, sinTable: array<real>,
                        i: nat, halfsize: nat, tablestep: nat,
                        ghost x: seq<C>, ghost L: nat, ghost p: nat, ghost b: nat)
    requires IsTrig(t) && p < L && halfsize == Pow2(p) && tablestep == Pow2(L - p - 1)
    requires re != im && re.Length == im.Length == tablestep * (2 * halfsize)
    requires {cosTable, sinTable} !! {re, im} && Tables(t, cosTable, sinTable, re.Length)
    requires i == b * Pow2(p + 1) && (b + 1) * Pow2(p + 1) <= re.Length
    requires Mixed(t, x, L, p, i, 0, Signal(re[..], im[..]))
    modifies re, im
    ensures Mixed(t, x, L, p, i, halfsize, Signal(re[..], im[..]))
  {
    hide Pow2, Mixed, W, Turn, Add, Sub;
    Pow2Succ(p);
    BlockFits(b, halfsize, re.Length);
    var j, k := i, 0;
    while j < i + halfsize
      invariant i <= j <= i + halfsize && k == (j - i) * tablestep
      invariant Mixed(t, x, L, p, i, j - i, Signal(re[..], im[..]))
    {
      var l := j + halfsize;
      MixedLength(t, x, L, p, i, j - i, Signal(re[..], im[..]));
      TableIndex(t, re.Length, tablestep, halfsize, j - i);
      PairStep(t, x, L, p, b, j - i, Signal(re[..], im[..]), cosTable[k], sinTable[k]);
      ButterflyStep(re, im, j, l, cosTable[k], sinTable[k]);
      assert k + tablestep == (j + 1 - i) * tablestep;
      j, k := j + 1, k + tablestep;
    }
  }

  lemma MixedLength(t: Trig, x: seq<C>, L: nat, p: nat, i: nat, u: nat, y: seq<C>)
    requires p < L && Mixed(t, x, L, p, i, u, y)
    ensures |y| == Pow2(L)
  {}

  /** One pass over all blocks of `size` points. */
  method ButterflyPass(ghost t: Trig, re: array<real>, im: array<real>, cosTable: array<real>, sinTable: array<real>,
                       size: nat, ghost x: seq<C>, ghost L: nat, ghost p: nat)
    requires IsTrig(t) && p < L && size == Pow2(p + 1)
    requires re != im && re.Length == im.Length == Pow2(L)
    requires {cosTable, sinTable} !! {re, im} && Tables(t, cosTable, sinTable, re.Length)
    requires LevelDone(t, x, L, p, Signal(re[..], im[..]))
    modifies re, im
    ensures LevelDone(t, x, L, p + 1, Signal(re[..], im[..]))
  {
    var n := re.Length;
    var halfsize, tablestep := size / 2, n / size;
    Pow2Add(p + 1, L - p - 1);
    Pow2Succ(p);
    hide Pow2, Expect;
    ghost var blocks := Pow2(L - p - 1);
    DivModUnique(n, size, blocks, 0);
    var i := 0;
    ghost var b := 0;
    while i < n
      invariant 0 <= b <= blocks && i == b * size
      invariant Mixed(t, x, L, p, i, 0, Signal(re[..], im[..]))
      decreases n - i
    {
      NextBlock(b, blocks, size);
      ButterflyBlock(t, re, im, cosTable, sinTable, i, halfsize, tablestep, x, L, p, b);
      BlockDone(t, x, L, p, i, Signal(re[..], im[..]));
      i, b := i + size, b + 1;
    }
  }

  lemma NextBlock(b: nat, blocks: nat, size: nat)
    requires b <= blocks && b * size < blocks * size
    ensures b < blocks && (b + 1) * size == b * size + size <= blocks * size
  {}

  /** Blocks below i are merged; inside the block at i the first u pairs are. */
  ghost predicate Mixed(t: Trig, x: seq<C>, L: nat, p: nat, i: nat, u: nat, y: seq<C>)
    requires p < L
  {
    && |y| == |x| == Pow2(L)
    && var h := Pow2(p);
       forall q | 0 <= q < |y| ::
         y[q] == if q < i || i <= q < i + u || i + h <= q < i + h + u then Expect(t, x, L, p + 1, q)
                 else Expect(t, x, L, p, q)
  }

  lemma BlockDone(t: Trig, x: seq<C>, L: nat, p: nat, i: nat, y: seq<C>)
    requires p < L && Mixed(t, x, L, p, i, Pow2(p), y)
    ensures Mixed(t, x, L, p, i + Pow2(p + 1), 0, y)
  {
    hide Expect;
  }

  lemma PairStep(t: Trig, x: seq<C>, L: nat, p: nat, b: nat, u: nat, y: seq<C>, c: real, s: real)
    requires IsTrig(t) && p < L && u < Pow2(p) && (b + 1) * Pow2(p + 1) <= Pow2(L)
    requires Mixed(t, x, L, p, b * Pow2(p + 1), u, y)
    requires C(c, -s) == W(t, Pow2(p + 1), u)
    ensures var j := b * Pow2(p + 1) + u;
            var l := j + Pow2(p);
            && l < |y|
            && Mixed(t, x, L, p, b * Pow2(p + 1), u + 1,
                     y[j := Add(y[j], Turn(y[l], c, s))][l := Sub(y[j], Turn(y[l], c, s))])
  {
    hide *;
    var h, i := Pow2(p), b * Pow2(p + 1);
    Pow2Succ(p);
    BlockFits(b, h, Pow2(L));
    MixedAt(t, x, L, p, i, u, y);
    MergePair(t, x, L, p, b, u);
    var d := y[i + u + h];
    TurnIsMul(d, c, s);
    MixedStep(t, x, L, p, i, u, y, Add(y[i + u], Turn(d, c, s)), Sub(y[i + u], Turn(d, c, s)));
  }

  lemma BlockFits(b: nat, h: nat, n: nat)
    requires (b + 1) * (2 * h) <= n
    ensures b * (2 * h) + 2 * h <= n
  {}

  lemma MixedAt(t: Trig, x: seq<C>, L: nat, p: nat, i: nat, u: nat, y: seq<C>)
    requires p < L && Mixed(t, x, L, p, i, u, y) && u < Pow2(p) && i + 2 * Pow2(p) <= Pow2(L)
    ensures |y| == Pow2(L)
    ensures y[i + u] == Expect(t, x, L, p, i + u)
    ensures y[i + u + Pow2(p)] == Expect(t, x, L, p, i + u + Pow2(p))
  {
    hide Expect;
  }

  lemma MixedStep(t: Trig, x: seq<C>, L: nat, p: nat, i: nat, u: nat, y: seq<C>, v: C, w: C)
    requires p < L && Mixed(t, x, L, p, i, u, y) && u < Pow2(p) && i + 2 * Pow2(p) <= |y|
    requires v == Expect(t, x, L, p + 1, i + u)
    requires w == Expect(t, x, L, p + 1, i + u + Pow2(p))
    ensures Mixed(t, x, L, p, i, u + 1, y[i + u := v][i + u + Pow2(p) := w])
  {
    hide Expect;
  }

  /** Stepping through the table of the n-th roots by n / size gives the size-th roots. */
  lemma TableIndex(t: Trig, n: nat, blocks: nat, h: nat, u: nat)
    requires IsTrig(t) && n == blocks * (2 * h) && blocks > 0 && u < h
    ensures 0 <= u * blocks < n / 2
    ensures C(t.cos(n, u * blocks), -t.sin(n, u * blocks)) == W(t, 2 * h, u)
  {
    WReduce(t, 2 * h, blocks, u);
    assert (2 * h) * blocks == n;
    assert n / 2 == blocks * h by {
      assert n == 2 * (blocks * h);
    }
    assert u * blocks < h * blocks;
  }

  lemma PowBelow(p: nat, levels: nat)
    requires p <= levels
    ensures p < levels <==> 2 * Pow2(p) <= Pow2(levels)
    ensures p == 0 ==> Pow2(p) == 1
  {
    if p < levels {
      Pow2Mono(p, levels);
    }
  }

  method FloorLog2(n: nat) returns (levels: nat)
    ensures n > 0 ==> Pow2(levels) <= n < 2 * Pow2(levels)
    ensures n == 0 ==> levels == 0
  {
    levels := 0;
    var temp := n;
    while temp > 1
      invariant n > 0 ==> temp > 0 && Pow2(levels) * temp <= n < Pow2(levels) * (temp + 1)
      invariant n == 0 ==> temp == 0 && levels == 0
    {
      HalfStep(n, Pow2(levels), temp);
      temp, levels := temp / 2, levels + 1;
    }
  }

  lemma HalfStep(n: nat, p: nat, temp: nat)
    requires p * temp <= n < p * (temp + 1)
    ensures (2 * p) * (temp / 2) <= n < (2 * p) * (temp / 2 + 1)
  {
    assert p * (2 * (temp / 2)) <= p * temp;
    assert p * (temp + 1) <= p * (2 * (temp / 2) + 2);
  }

  lemma FloorLog2Exact(n: nat, levels: nat)
    requires n > 0 && Pow2(levels) <= n < 2 * Pow2(levels)
    ensures IsPow2(n) <==> Pow2(levels) == n
  {
    Pow2IsPow2(levels);
    if IsPow2(n) {
      var l := Log2(n);
      if l < levels {
        Pow2Mono(l, levels);
      } else if levels < l {
        Pow2Mono(levels, l);
      }
    }
  }

  method MakeTables(t: Trig, n: nat) returns (cosTable: array<real>, sinTable: array<real>)
    ensures fresh(cosTable) && fresh(sinTable) && Tables(t, cosTable, sinTable, n)
  {
    cosTable, sinTable := new real[n / 2], new real[n / 2];
    var i := 0;
    while i < n / 2
      invariant 0 <= i <= n / 2
      invariant forall k | 0 <= k < i :: cosTable[k] == t.cos(n, k) && sinTable[k] == t.sin(n, k)
    {
      cosTable[i], sinTable[i] := t.cos(n, i), t.sin(n, i);
      i := i + 1;
    }
  }

  /** The outer loop over doubling block sizes. */
  method AllPasses(ghost t: Trig, re: array<real>, im: array<real>, cosTable: array<real>, sinTable: array<real>,
                   ghost x: seq<C>, ghost levels: nat)
    requires IsTrig(t) && re != im && re.Length == im.Length == Pow2(levels)
    requires {cosTable, sinTable} !! {re, im} && Tables(t, cosTable, sinTable, re.Length)
    requires LevelDone(t, x, levels, 0, Signal(re[..], im[..]))
    modifies re, im
    ensures LevelDone(t, x, levels, levels, Signal(re[..], im[..]))
  {
    hide LevelDone, IsTrig;
    var n, size := re.Length, 2;
    ghost var p := 0;
    PowBelow(0, levels);
    while size <= n
      invariant p <= levels && size == 2 * Pow2(p)
      invariant LevelDone(t, x, levels, p, Signal(re[..], im[..]))
      decreases 2 * n - size
    {
      PowBelow(p, levels);
      Pow2Succ(p);
      ButterflyPass(t, re, im, cosTable, sinTable, size, x, levels, p);
      p := p + 1;
      PowBelow(p, levels);
      if size == n {
        break;
      }
      size := size * 2;
    }
    PowBelow(p, levels);
  }

  /** Replaces the signal by its discrete Fourier transform, in place. */
  method TransformRadix2(t: Trig, re: array<real>, im: array<real>) returns (ok: bool)
    requires IsTrig(t) && re != im && re.Length == im.Length
    modifies re, im
    ensures ok <==> IsPow2(re.Length) && re.Length / 2 <= MAX_DOUBLES
    ensures ok ==> Signal(re[..], im[..]) == DftSeq(t, old(Signal(re[..], im[..])))
    ensures !ok ==> re[..] == old(re[..]) && im[..] == old(im[..])
  {
    var n := re.Length;
    ghost var x := Signal(re[..], im[..]);
    var levels := FloorLog2(n);
    if n > 0 {
      FloorLog2Exact(n, levels);
    }
    if Pow2(levels) != n {
      return false;
    }
    if MAX_DOUBLES < n / 2 {
      return false;
    }
    var cosTable, sinTable := MakeTables(t, n);
    Permute(re, im, levels);
    FirstLevel(t, x, Signal(re[..], im[..]), levels);
    AllPasses(t, re, im, cosTable, sinTable, x, levels);
    LastLevel(t, x, Signal(re[..], im[..]), levels);
    ok := true;
  }
}
