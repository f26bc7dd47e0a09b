/** Transforms of any length, their inverse, and convolution by transforms. */
module Fft {
  import opened Bits
  import opened Complex
  import opened Fourier
  import opened Chirp
  import opened Radix2

  const SIZE_MAX: nat := 0xFFFF_FFFF_FFFF_FFFF
  /** Chirp transforms of this length need a padded array that cannot be allocated. */
  const CHIRP_LIMIT: nat := 0x800_0000_0000_0000

  /** The chirp table: i * i is reduced to 64 bits before it is reduced modulo 2n. */
  ghost function CodeTable(t: Trig, n: nat): (T: seq<C>)
    requires n > 0
    ensures |T| == n && forall i | 0 <= i < n :: T[i] == W(t, 2 * n, ((i * i) % TWO64) % (2 * n))
  {
    seq(n, i => W(t, 2 * n, ((i * i) % TWO64) % (2 * n)))
  }

  predicate Radix2Length(n: nat) { n == 0 || IsPow2(n) }

  /** The lengths for which storage can be allocated. */
  predicate Fits(n: nat) {
    if Radix2Length(n) then n / 2 <= MAX_DOUBLES else n < CHIRP_LIMIT
  }

  /** The lengths for which no table entry is wrong. */
  predicate Exact(n: nat) { Radix2Length(n) || n <= TWO32 }

  ghost function ChirpSeq(T: seq<C>, x: seq<C>): (y: seq<C>)
    ensures |y| == |x| && forall k | 0 <= k < |x| :: y[k] == ChirpOut(T, x, k)
  {
    seq(|x|, k => ChirpOut(T, x, k))
  }

  /** What the program computes. */
  ghost function TransformSpec(t: Trig, x: seq<C>): (y: seq<C>)
    ensures |y| == |x|
  {
    if Radix2Length(|x|) then DftSeq(t, x) else ChirpSeq(CodeTable(t, |x|), x)
  }

  // ----- when the computed transform is the Fourier transform

  lemma CodeTableEntry(t: Trig, n: nat, i: nat)
    requires IsTrig(t) && i < n && i <= TWO32
    ensures i < TWO32 ==> CodeTable(t, n)[i] == Ideal(t, n, i)
    ensures i == TWO32 ==> CodeTable(t, n)[i] == W(t, 2 * n, 0)
  {
    if i < TWO32 {
      SquareBound(i);
      WMod(t, 2 * n, i * i);
    }
  }

  lemma SquareBound(i: nat)
    requires i < TWO32
    ensures i * i < TWO64
  {
    TimesMono(i, i, TWO32 - 1);
    TimesMono(TWO32 - 1, i, TWO32 - 1);
  }

  lemma TimesMono(z: nat, x: nat, y: nat)
    requires x <= y
    ensures z * x <= z * y
  {}

  /** Up to 2^32 points, and for powers of two, the program computes the Fourier transform. */
  lemma ExactIsDft(t: Trig, x: seq<C>)
    requires IsTrig(t) && Exact(|x|)
    ensures TransformSpec(t, x) == DftSeq(t, x)
  {
    if !Radix2Length(|x|) {
      var n, T := |x|, CodeTable(t, |x|);
      forall i | 0 <= i < n
        ensures T[i] == Ideal(t, n, i)
      {
        CodeTableEntry(t, n, i);
      }
      forall k | 0 <= k < n
        ensures ChirpSeq(T, x)[k] == Dft(t, x, k)
      {
        IdealIsDft(t, T, x, k);
      }
    }
  }

  lemma {:induction false} DivisorOfPow2(d: nat, q: nat, l: nat)
    requires d * q == Pow2(l)
    ensures IsPow2(d)
    decreases l
  {
    ProductParity(d, q);
    if l == 0 {
      ProductOne(d, q);
    } else if d % 2 == 0 {
      DivisorOfPow2(d / 2, q, l - 1);
    } else {
      DivisorOfPow2(d, q / 2, l - 1);
    }
  }

  lemma ProductOne(d: nat, q: nat)
    requires d * q == 1
    ensures d == 1
  {
    assert q >= 1 ==> d * q >= d;
  }

  lemma ProductParity(d: nat, q: nat)
    ensures d % 2 == 0 ==> d * q == 2 * ((d / 2) * q)
    ensures q % 2 == 0 ==> d * q == 2 * (d * (q / 2))
    ensures d % 2 == 1 && q % 2 == 1 ==> (d * q) % 2 == 1
  {
    var a, b := d / 2, q / 2;
    assert d % 2 == 0 ==> d == 2 * a;
    assert q % 2 == 0 ==> q == 2 * b;
    assert (2 * a + 1) * (2 * b + 1) == 2 * (2 * a * b + a + b) + 1;
  }

  lemma FullTurnOf64(t: Trig, n: nat)
    requires IsTrig(t) && n > 0 && W(t, 2 * n, 0) == W(t, 2 * n, TWO64)
    ensures IsPow2(n)
  {
    hide W, IsTrig;
    WOne(t, 2 * n, 0);
    WOne(t, 2 * n, TWO64);
    Pow2Of64();
    DivisorOfPow2(n, 2 * (TWO64 / (2 * n)), 64) by {
      Exactly(TWO64, n);
    }
  }

  lemma Exactly(x: nat, n: nat)
    requires n > 0 && x % (2 * n) == 0
    ensures n * (2 * (x / (2 * n))) == x
  {
    var q := x / (2 * n);
    assert x == q * (2 * n);
    assert q * (2 * n) == n * (2 * q);
  }

  lemma RightPulse(t: Trig, n: nat, k: nat)
    requires IsTrig(t) && k == TWO32 < n
    requires ChirpSeq(CodeTable(t, n), Delta(n, 1)) == DftSeq(t, Delta(n, 1))
    ensures IsPow2(n)
  {
    assert k > 2;
    hide *;
    var x, T := Delta(n, 1), CodeTable(t, n);
    CodeTableEntry(t, n, 1);
    CodeTableEntry(t, n, k - 1);
    CodeTableEntry(t, n, k);
    IdealAt32(t, n);
    PulseAt(t, T, k);
    WrongEntryShows(t, T, k);
    FullTurnOf64(t, n);
  }

  lemma PulseAt(t: Trig, T: seq<C>, k: nat)
    requires k < |T| && ChirpSeq(T, Delta(|T|, 1)) == DftSeq(t, Delta(|T|, 1))
    ensures ChirpOut(T, Delta(|T|, 1), k) == Dft(t, Delta(|T|, 1), k)
  {
    hide ChirpOut, Dft;
    var x := Delta(|T|, 1);
    assert |x| == |T|;
    assert ChirpSeq(T, x)[k] == DftSeq(t, x)[k];
  }

  /** For longer, non-power-of-two lengths a pulse at 1 comes out wrong. */
  lemma WrappedSquareShows(t: Trig, n: nat)
    requires IsTrig(t) && !Exact(n)
    ensures TransformSpec(t, Delta(n, 1)) != DftSeq(t, Delta(n, 1))
  {
    hide CodeTable, ChirpSeq, DftSeq, IsPow2, IsTrig;
    if TransformSpec(t, Delta(n, 1)) == DftSeq(t, Delta(n, 1)) {
      RightPulse(t, n, TWO32);
    }
  }

  lemma IdealAt32(t: Trig, n: nat)
    ensures Ideal(t, n, TWO32) == W(t, 2 * n, TWO64)
  {}

  /** The transform is right on every signal of n points if and only if n passes the test. */
  lemma RightExactly(t: Trig, n: nat)
    requires IsTrig(t)
    ensures (forall x: seq<C> | |x| == n :: TransformSpec(t, x) == DftSeq(t, x)) <==> Exact(n)
  {
    if Exact(n) {
      forall x: seq<C> | |x| == n
        ensures TransformSpec(t, x) == DftSeq(t, x)
      {
        ExactIsDft(t, x);
      }
    } else {
      WrappedSquareShows(t, n);
      assert |Delta(n, 1)| == n;
    }
  }

  // ----- the program

  /** The transform, in place. */
  method Transform(t: Trig, re: array<real>, im: array<real>) returns (ok: bool)
    requires IsTrig(t) && re != im && re.Length == im.Length
    modifies re, im
    ensures ok <==> Fits(re.Length)
    ensures ok ==> Signal(re[..], im[..]) == TransformSpec(t, old(Signal(re[..], im[..])))
    ensures !ok ==> re[..] == old(re[..]) && im[..] == old(im[..])
    decreases if Radix2Length(re.Length) then 0 else 3, 0
  {
    var n := re.Length;
    if n == 0 {
      return true;
    }
    ClearLowestBit(n);
    if And(n, n - 1) == 0 {
      ok := TransformRadix2(t, re, im);
    } else {
      ok := TransformBluestein(t, re, im);
    }
  }

  /** Real and imaginary parts trade places. */
  method InverseTransform(t: Trig, re: array<real>, im: array<real>) returns (ok: bool)
    requires IsTrig(t) && re != im && re.Length == im.Length
    modifies re, im
    ensures ok <==> Fits(re.Length)
    ensures ok && Exact(re.Length) ==>
              forall k | 0 <= k < re.Length ::
                Signal(re[..], im[..])[k] == InverseDft(t, old(Signal(re[..], im[..])), k)
    ensures !ok ==> re[..] == old(re[..]) && im[..] == old(im[..])
    decreases if Radix2Length(re.Length) then 0 else 3, 1
  {
    ghost var x, y := Signal(re[..], im[..]), Signal(im[..], re[..]);
    ok := Transform(t, im, re);
    if ok && Exact(re.Length) {
      ExactIsDft(t, y);
      forall k | 0 <= k < re.Length
        ensures Signal(re[..], im[..])[k] == InverseDft(t, x, k)
      {
        SwappedIsInverse(t, x, y, k);
        assert Signal(im[..], re[..])[k] == Dft(t, y, k);
      }
    }
  }

  /** The smallest power of two above 2n, unless it does not fit a machine word. */
  method PaddedLength(n: nat) returns (ok: bool, m: nat, ghost l: nat)
    ensures ok ==> m == Pow2(l) && 2 * n < m <= if n == 0 then 2 else 4 * n
    ensures !ok ==> n >= CHIRP_LIMIT
  {
    m, l := 1, 0;
    while m / 2 <= n
      invariant m == Pow2(l) && (m == 1 || m / 4 <= n)
      decreases 2 * n + 2 - m
    {
      if m > SIZE_MAX / 2 {
        return false, m, l;
      }
      m, l := m * 2, l + 1;
    }
    ok := true;
    if l >= 2 {
      assert m == 4 * Pow2(l - 2);
    }
  }

  lemma PaddedTooLong(m: nat, l: nat, n: nat)
    requires m == Pow2(l) && 2 * n < m && n >= CHIRP_LIMIT
    ensures m > MAX_DOUBLES
  {
    Pow2Of64();
    Pow2Add(61, 3);
    assert Pow2(3) == 8;
    if l <= 60 {
      Pow2Mono(l, 61);
    } else if l > 61 {
      Pow2Mono(61, l);
    }
  }

  method ChirpTables(t: Trig, n: nat) returns (cosTable: array<real>, sinTable: array<real>)
    requires n > 0
    ensures fresh(cosTable) && fresh(sinTable) && cosTable != sinTable
    ensures ChirpTable(t, cosTable, sinTable, n)
  {
    cosTable, sinTable := new real[n], new real[n];
    var i := 0;
    while i < n
      invariant 0 <= i <= n
      invariant forall k | 0 <= k < i ::
                  C(cosTable[k], -sinTable[k]) == W(t, 2 * n, ((k * k) % TWO64) % (2 * n))
    {
      var temp := (i * i) % TWO64;
      temp := temp % (2 * n);
      cosTable[i], sinTable[i] := t.cos(2 * n, temp), t.sin(2 * n, temp);
      i := i + 1;
    }
  }

  ghost predicate ChirpTable(t: Trig, cosTable: array<real>, sinTable: array<real>, n: nat)
    requires n > 0
    reads cosTable, sinTable
  {
    && cosTable.Length == sinTable.Length == n
    && forall i | 0 <= i < n :: C(cosTable[i], -sinTable[i]) == CodeTable(t, n)[i]
  }

  /** Multiplies the first n entries of (re, im) by the chirp, into the first n entries of (outRe, outIm). */
  method Modulate(re: array<real>, im: array<real>, cosTable: array<real>, sinTable: array<real>,
                  outRe: array<real>, outIm: array<real>, n: nat)
    requires re.Length == im.Length >= n && outRe.Length == outIm.Length >= n
    requires cosTable.Length == sinTable.Length == n && outRe != outIm
    requires {outRe, outIm} !! {re, im, cosTable, sinTable}
    modifies outRe, outIm
    ensures forall i | 0 <= i < n ::
              C(outRe[i], outIm[i]) == Mul(C(re[i], im[i]), C(cosTable[i], -sinTable[i]))
    ensures forall i | n <= i < outRe.Length :: outRe[i] == old(outRe[i]) && outIm[i] == old(outIm[i])
  {
    hide Mul;
    var i := 0;
    while i < n
      invariant 0 <= i <= n
      invariant forall k | 0 <= k < i ::
                  C(outRe[k], outIm[k]) == Mul(C(re[k], im[k]), C(cosTable[k], -sinTable[k]))
      invariant forall k | n <= k < outRe.Length :: outRe[k] == old(outRe[k]) && outIm[k] == old(outIm[k])
    {
      TurnIsMul(C(re[i], im[i]), cosTable[i], sinTable[i]);
      outRe[i] := re[i] * cosTable[i] + im[i] * sinTable[i];
      outIm[i] := -re[i] * sinTable[i] + im[i] * cosTable[i];
      i := i + 1;
    }
  }

  method Mirror(cosTable: array<real>, sinTable: array<real>, bre: array<real>, bim: array<real>)
    requires 0 < cosTable.Length == sinTable.Length && 2 * cosTable.Length < bre.Length == bim.Length
    requires bre != bim && {bre, bim} !! {cosTable, sinTable}
    modifies bre, bim
    ensures var n, m := cosTable.Length, bre.Length;
            && (forall i | 0 <= i < n :: bre[i] == cosTable[i] && bim[i] == sinTable[i])
            && (forall i | 0 < i < n :: bre[m - i] == cosTable[i] && bim[m - i] == sinTable[i])
  {
    var n, m := cosTable.Length, bre.Length;
    bre[0], bim[0] := cosTable[0], sinTable[0];
    var i := 1;
    while i < n
      invariant 1 <= i <= n
      invariant forall k | 0 <= k < i :: bre[k] == cosTable[k] && bim[k] == sinTable[k]
      invariant forall k | 0 < k < i :: bre[m - k] == cosTable[k] && bim[m - k] == sinTable[k]
    {
      bre[i] := cosTable[i];
      bre[m - i] := cosTable[i];
      bim[i] := sinTable[i];
      bim[m - i] := sinTable[i];
      i := i + 1;
    }
  }

  /** The chirp transform with padded length m, once the tables are built. */
  method ChirpTransform(t: Trig, re: array<real>, im: array<real>, cosTable: array<real>, sinTable: array<real>, m: nat)
    requires IsTrig(t) && re != im && re.Length == im.Length > 0
    requires {cosTable, sinTable} !! {re, im} && ChirpTable(t, cosTable, sinTable, re.Length)
    requires IsPow2(m) && 2 * re.Length < m <= MAX_DOUBLES
    modifies re, im
    ensures Signal(re[..], im[..]) == ChirpSeq(CodeTable(t, re.Length), old(Signal(re[..], im[..])))
    decreases 2, 0
  {
    var n := re.Length;
    ghost var x, T := Signal(re[..], im[..]), CodeTable(t, n);
    hide CodeTable, IsTrig, Mul, IsModulated, IsMirrored, ChirpSeq, ConvolutionSeq, Fits;
    var are, aim, bre, bim := PrepareChirp(t, re, im, cosTable, sinTable, m);
    ghost var a, b := Signal(are[..], aim[..]), Signal(bre[..], bim[..]);
    var cre, cim := new real[m], new real[m];
    PowerLength(m);
    var ok := ConvolveComplex(t, are, aim, bre, bim, cre, cim);
    ghost var c := Signal(cre[..], cim[..]);
    Modulate(cre, cim, cosTable, sinTable, re, im, n);
    ghost var z := Signal(re[..], im[..]);
    forall k | 0 <= k < n
      ensures z[k] == Mul(c[k], T[k])
    {
      assert z[k] == C(re[k], im[k]) && c[k] == C(cre[k], cim[k]);
      assert T[k] == C(cosTable[k], -sinTable[k]);
    }
    FinalOutputs(T, x, a, b, c, z);
  }

  lemma PowerLength(m: nat)
    requires IsPow2(m) && m <= MAX_DOUBLES
    ensures Fits(m) && Exact(m) && Radix2Length(m)
  {}

  method PrepareChirp(ghost t: Trig, re: array<real>, im: array<real>, cosTable: array<real>, sinTable: array<real>,
                      m: nat)
    returns (are: array<real>, aim: array<real>, bre: array<real>, bim: array<real>)
    requires re.Length == im.Length > 0 && 2 * re.Length < m
    requires ChirpTable(t, cosTable, sinTable, re.Length)
    ensures fresh(are) && fresh(aim) && fresh(bre) && fresh(bim)
    ensures are.Length == aim.Length == bre.Length == bim.Length == m
    ensures IsModulated(CodeTable(t, re.Length), Signal(re[..], im[..]), Signal(are[..], aim[..]))
    ensures IsMirrored(CodeTable(t, re.Length), Signal(bre[..], bim[..]))
  {
    hide CodeTable, Mul, IsModulated, IsMirrored, Signal;
    are, aim := PrepareData(t, re, im, cosTable, sinTable, m);
    bre, bim := PrepareMirror(t, cosTable, sinTable, re.Length, m);
  }

  method PrepareData(ghost t: Trig, re: array<real>, im: array<real>, cosTable: array<real>, sinTable: array<real>,
                     m: nat)
    returns (are: array<real>, aim: array<real>)
    requires re.Length == im.Length > 0 && 2 * re.Length < m
    requires ChirpTable(t, cosTable, sinTable, re.Length)
    ensures fresh(are) && fresh(aim) && are.Length == aim.Length == m
    ensures IsModulated(CodeTable(t, re.Length), Signal(re[..], im[..]), Signal(are[..], aim[..]))
  {
    hide CodeTable, Mul, IsModulated;
    are, aim := new real[m](_ => 0.0), new real[m](_ => 0.0);
    Modulate(re, im, cosTable, sinTable, are, aim, re.Length);
    ModulatedInput(CodeTable(t, re.Length), Signal(re[..], im[..]), cosTable[..], sinTable[..],
                   Signal(are[..], aim[..]));
  }

  method PrepareMirror(ghost t: Trig, cosTable: array<real>, sinTable: array<real>, n: nat, m: nat)
    returns (bre: array<real>, bim: array<real>)
    requires 0 < n && 2 * n < m && ChirpTable(t, cosTable, sinTable, n)
    ensures fresh(bre) && fresh(bim) && bre.Length == bim.Length == m
    ensures IsMirrored(CodeTable(t, n), Signal(bre[..], bim[..]))
  {
    hide CodeTable, IsMirrored;
    bre, bim := new real[m](_ => 0.0), new real[m](_ => 0.0);
    Mirror(cosTable, sinTable, bre, bim);
    MirroredInput(CodeTable(t, n), cosTable[..], sinTable[..], Signal(bre[..], bim[..]));
  }

  /** A transform of any length through one convolution of power-of-two length. */
  method TransformBluestein(t: Trig, re: array<real>, im: array<real>) returns (ok: bool)
    requires IsTrig(t) && re != im && re.Length == im.Length > 0
    modifies re, im
    ensures ok <==> re.Length < CHIRP_LIMIT
    ensures ok ==> Signal(re[..], im[..]) == ChirpSeq(CodeTable(t, re.Length), old(Signal(re[..], im[..])))
    ensures !ok ==> re[..] == old(re[..]) && im[..] == old(im[..])
    decreases 2, 1
  {
    var n := re.Length;
    var fits, m, l := PaddedLength(n);
    if !fits {
      return false;
    }
    if n >= CHIRP_LIMIT {
      PaddedTooLong(m, l, n);
    }
    if MAX_DOUBLES < n || MAX_DOUBLES < m {
      return false;
    }
    Pow2IsPow2(l);
    var cosTable, sinTable := ChirpTables(t, n);
    ChirpTransform(t, re, im, cosTable, sinTable, m);
    ok := true;
  }

  lemma ModulatedInput(T: seq<C>, x: seq<C>, cs: seq<real>, sn: seq<real>, a: seq<C>)
    requires |T| == |x| == |cs| == |sn| <= |a|
    requires forall i | 0 <= i < |T| :: C(cs[i], -sn[i]) == T[i]
    requires forall i | 0 <= i < |T| :: a[i] == Mul(x[i], C(cs[i], -sn[i]))
    requires forall i | |T| <= i < |a| :: a[i] == Zero
    ensures IsModulated(T, x, a)
  {
    hide Mul;
  }

  lemma MirroredInput(T: seq<C>, cs: seq<real>, sn: seq<real>, b: seq<C>)
    requires |T| == |cs| == |sn| && 2 * |T| < |b|
    requires forall i | 0 <= i < |T| :: C(cs[i], -sn[i]) == T[i]
    requires forall i | 0 <= i < |T| :: b[i] == C(cs[i], sn[i])
    requires forall i | 0 < i < |T| :: b[|b| - i] == C(cs[i], sn[i])
    ensures IsMirrored(T, b)
  {
    forall i | 0 <= i < |T|
      ensures C(cs[i], sn[i]) == Conj(T[i])
    {
      assert T[i] == C(cs[i], -sn[i]);
    }
  }

  lemma FinalOutputs(T: seq<C>, x: seq<C>, a: seq<C>, b: seq<C>, c: seq<C>, z: seq<C>)
    requires |T| == |x| == |z| > 0 && |a| == |b| == |c| >= |x| && IsModulated(T, x, a) && IsMirrored(T, b)
    requires c == ConvolutionSeq(a, b)
    requires forall k | 0 <= k < |z| :: z[k] == Mul(c[k], T[k])
    ensures z == ChirpSeq(T, x)
  {
    hide *;
    forall k | 0 <= k < |z|
      ensures z[k] == ChirpOut(T, x, k)
    {
      AtIs(T, k);
      ConvolutionIsChirp(T, x, a, b, k);
    }
    assert z == ChirpSeq(T, x);
  }

  method Duplicate(src: array<real>) returns (dest: array<real>)
    ensures fresh(dest) && dest[..] == src[..]
  {
    dest := new real[src.Length];
    var i := 0;
    while i < src.Length
      invariant 0 <= i <= src.Length && dest[..i] == src[..i]
    {
      dest[i] := src[i];
      i := i + 1;
    }
  }

  /** Circular convolution through three transforms. */
  method ConvolveComplex(t: Trig, xre: array<real>, xim: array<real>, yre: array<real>, yim: array<real>,
                         outRe: array<real>, outIm: array<real>) returns (ok: bool)
    requires IsTrig(t) && outRe != outIm
    requires xre.Length == xim.Length == yre.Length == yim.Length == outRe.Length == outIm.Length
    modifies outRe, outIm
    ensures ok <==> Fits(outRe.Length) && outRe.Length <= MAX_DOUBLES
    ensures ok && outRe.Length > 0 && Exact(outRe.Length) ==>
              Signal(outRe[..], outIm[..]) ==
              ConvolutionSeq(old(Signal(xre[..], xim[..])), old(Signal(yre[..], yim[..])))
    ensures !ok ==> outRe[..] == old(outRe[..]) && outIm[..] == old(outIm[..])
    decreases if Radix2Length(outRe.Length) then 1 else 4, 0
  {
    var n := outRe.Length;
    ghost var x, y := Signal(xre[..], xim[..]), Signal(yre[..], yim[..]);
    if MAX_DOUBLES < n {
      return false;
    }
    var xr := Duplicate(xre);
    var xi := Duplicate(xim);
    var yr := Duplicate(yre);
    var yi := Duplicate(yim);
    ok := Transform(t, xr, xi);
    if !ok {
      return;
    }
    ok := Transform(t, yr, yi);
    assert ok;
    ghost var X, Y := Signal(xr[..], xi[..]), Signal(yr[..], yi[..]);
    PointwiseProduct(xr, xi, yr, yi);
    ghost var P := Signal(xr[..], xi[..]);
    ok := InverseTransform(t, xr, xi);
    assert ok;
    ScaleDown(xr, xi, outRe, outIm);
    if n > 0 && Exact(n) {
      ProductIsConvolution(t, x, y, X, Y, P);
      ScaledInverse(t, x, y, P, Signal(xr[..], xi[..]), Signal(outRe[..], outIm[..]));
    }
  }

  lemma ScaledInverse(t: Trig, x: seq<C>, y: seq<C>, P: seq<C>, Z: seq<C>, out: seq<C>)
    requires IsTrig(t) && |x| == |y| == |P| == |Z| == |out| > 0
    requires P == DftSeq(t, ConvolutionSeq(x, y))
    requires forall k | 0 <= k < |x| :: Z[k] == InverseDft(t, P, k)
    requires forall k | 0 <= k < |x| :: out[k] == Divided(Z[k], |x| as real)
    ensures out == ConvolutionSeq(x, y)
  {
    hide InverseDft, Convolution, Scale, Divided, IsTrig;
    forall k | 0 <= k < |x|
      ensures out[k] == Convolution(x, y, k)
    {
      Inversion(t, ConvolutionSeq(x, y), k);
      Unscale(|x| as real, Convolution(x, y, k));
    }
  }

  ghost function Divided(a: C, r: real): C
    requires r != 0.0
  {
    C(a.re / r, a.im / r)
  }

  lemma Unscale(r: real, a: C)
    requires r != 0.0
    ensures Divided(Scale(r, a), r) == a
  {}

  lemma MulParts(a: C, b: C)
    ensures Mul(a, b) == C(a.re * b.re - a.im * b.im, a.im * b.re + a.re * b.im)
  {}

  method PointwiseProduct(xr: array<real>, xi: array<real>, yr: array<real>, yi: array<real>)
    requires xr != xi && {xr, xi} !! {yr, yi} && xr.Length == xi.Length == yr.Length == yi.Length
    modifies xr, xi
    ensures forall k | 0 <= k < xr.Length ::
              C(xr[k], xi[k]) == Mul(C(old(xr[k]), old(xi[k])), C(yr[k], yi[k]))
  {
    hide Mul;
    var i := 0;
    while i < xr.Length
      invariant 0 <= i <= xr.Length
      invariant forall k | 0 <= k < i ::
                  C(xr[k], xi[k]) == Mul(C(old(xr[k]), old(xi[k])), C(yr[k], yi[k]))
      invariant forall k | i <= k < xr.Length :: xr[k] == old(xr[k]) && xi[k] == old(xi[k])
    {
      MulParts(C(xr[i], xi[i]), C(yr[i], yi[i]));
      var temp := xr[i] * yr[i] - xi[i] * yi[i];
      xi[i] := xi[i] * yr[i] + xr[i] * yi[i];
      xr[i] := temp;
      i := i + 1;
    }
  }

  /** The inverse transform leaves a factor n; divide it out. */
  method ScaleDown(xr: array<real>, xi: array<real>, outRe: array<real>, outIm: array<real>)
    requires outRe != outIm && {outRe, outIm} !! {xr, xi}
    requires xr.Length == xi.Length == outRe.Length == outIm.Length
    modifies outRe, outIm
    ensures forall k | 0 <= k < xr.Length ::
              C(outRe[k], outIm[k]) == Divided(C(xr[k], xi[k]), xr.Length as real)
  {
    var n := xr.Length;
    var i := 0;
    while i < n
      invariant 0 <= i <= n
      invariant forall k | 0 <= k < i :: C(outRe[k], outIm[k]) == Divided(C(xr[k], xi[k]), n as real)
    {
      outRe[i] := xr[i] / n as real;
      outIm[i] := xi[i] / n as real;
      i := i + 1;
    }
  }

  lemma ProductIsConvolution(t: Trig, x: seq<C>, y: seq<C>, X: seq<C>, Y: seq<C>, P: seq<C>)
    requires IsTrig(t) && |x| == |y| > 0 && Exact(|x|)
    requires X == TransformSpec(t, x) && Y == TransformSpec(t, y)
    requires |P| == |x| && forall k | 0 <= k < |x| :: P[k] == Mul(X[k], Y[k])
    ensures P == DftSeq(t, ConvolutionSeq(x, y))
  {
    ExactIsDft(t, x);
    ExactIsDft(t, y);
    forall k | 0 <= k < |x|
      ensures P[k] == Dft(t, ConvolutionSeq(x, y), k)
    {
      ConvolutionTheorem(t, x, y, k);
    }
  }
}
