/**
 The discrete Fourier transform as a plain double sum, over exact arithmetic, and the algebra
 that the fast algorithms use: decimation in time, inversion, the convolution theorem and the
 chirp identity.
 */
module Fourier {
  import opened Complex

  /** Cosine and sine of 2 pi k / n, exact, for every whole n > 0 and every whole k. */
  datatype Trig = Trig(cos: (nat, int) -> real, sin: (nat, int) -> real)

  ghost predicate AngleSum(t: Trig, n: nat, j: int, k: int) {
    && t.cos(n, j + k) == t.cos(n, j) * t.cos(n, k) - t.sin(n, j) * t.sin(n, k)
    && t.sin(n, j + k) == t.cos(n, j) * t.sin(n, k) + t.sin(n, j) * t.cos(n, k)
  }

  ghost predicate SameAngle(t: Trig, n: nat, d: nat, k: int) {
    t.cos(n * d, k * d) == t.cos(n, k) && t.sin(n * d, k * d) == t.sin(n, k)
  }

  ghost predicate Parity(t: Trig, n: nat, k: int) {
    t.cos(n, -k) == t.cos(n, k) && t.sin(n, -k) == -t.sin(n, k)
  }

  ghost predicate FullTurns(t: Trig, n: nat, k: int)
    requires n > 0
  {
    t.cos(n, k) == 1.0 && t.sin(n, k) == 0.0 <==> k % n == 0
  }

  /** The textbook laws of cosine and sine on rational multiples of a turn. */
  ghost predicate IsTrig(t: Trig) {
    && (forall n: nat, j, k | n > 0 :: AngleSum(t, n, j, k))
    && (forall n: nat, d: nat, k | n > 0 && d > 0 :: SameAngle(t, n, d, k))
    && (forall n: nat, k | n > 0 :: Parity(t, n, k))
    && (forall n: nat, k | n > 0 :: FullTurns(t, n, k))
    && t.cos(2, 1) == -1.0 && t.sin(2, 1) == 0.0
  }

  /** exp(-2 pi i k / n) */
  ghost function W(t: Trig, n: nat, k: int): C {
    C(t.cos(n, k), -t.sin(n, k))
  }

  // ----- roots of unity

  lemma WAdd(t: Trig, n: nat, j: int, k: int)
    requires IsTrig(t) && n > 0
    ensures W(t, n, j + k) == Mul(W(t, n, j), W(t, n, k))
  {
    assert AngleSum(t, n, j, k);
  }

  lemma WReduce(t: Trig, n: nat, d: nat, k: int)
    requires IsTrig(t) && n > 0 && d > 0
    ensures W(t, n * d, k * d) == W(t, n, k)
  {
    assert SameAngle(t, n, d, k);
  }

  lemma WOne(t: Trig, n: nat, k: int)
    requires IsTrig(t) && n > 0
    ensures W(t, n, k) == One <==> k % n == 0
  {
    assert FullTurns(t, n, k);
  }

  lemma WConj(t: Trig, n: nat, k: int)
    requires IsTrig(t) && n > 0
    ensures Conj(W(t, n, k)) == W(t, n, -k)
  {
    assert Parity(t, n, k);
  }

  lemma WHalf(t: Trig, h: nat)
    requires IsTrig(t) && h > 0
    ensures W(t, 2 * h, h) == C(-1.0, 0.0)
  {
    WReduce(t, 2, h, 1);
  }

  lemma MultipleMod(n: nat, q: int)
    requires n > 0
    ensures (n * q) % n == 0
  {
    var r := (n * q) % n;
    var p := (n * q) / n;
    assert n * (q - p) == r;
    assert q - p >= 1 ==> n * (q - p) >= n;
    assert q - p <= -1 ==> n * (p - q) >= n;
  }

  /** Whole turns do not matter. */
  lemma WPeriod(t: Trig, n: nat, k: int, q: int)
    requires IsTrig(t) && n > 0
    ensures W(t, n, k + n * q) == W(t, n, k)
  {
    hide Mul;
    WAdd(t, n, k, n * q);
    MultipleMod(n, q);
    WOne(t, n, n * q);
    MulOne(W(t, n, k));
  }

  lemma WMod(t: Trig, n: nat, k: int)
    requires IsTrig(t) && n > 0
    ensures W(t, n, k % n) == W(t, n, k)
  {
    WPeriod(t, n, k % n, k / n);
  }

  lemma WInverse(t: Trig, n: nat, k: int)
    requires IsTrig(t) && n > 0
    ensures Mul(W(t, n, k), W(t, n, -k)) == One
  {
    WAdd(t, n, k, -k);
    WOne(t, n, 0);
  }

  // ----- the transform

  ghost function At(x: seq<C>, j: int): C {
    if 0 <= j < |x| then x[j] else Zero
  }

  ghost function DftTerm(t: Trig, x: seq<C>, k: int): int -> C {
    j => Mul(At(x, j), W(t, |x|, j * k))
  }

  /** X[k] = sum over j of x[j] exp(-2 pi i j k / n) */
  ghost function Dft(t: Trig, x: seq<C>, k: int): C {
    Sum(|x|, DftTerm(t, x, k))
  }

  ghost function DftSeq(t: Trig, x: seq<C>): (r: seq<C>)
    ensures |r| == |x| && forall k | 0 <= k < |x| :: r[k] == Dft(t, x, k)
  {
    seq(|x|, k => Dft(t, x, k))
  }

  ghost function InverseTerm(t: Trig, x: seq<C>, k: int): int -> C {
    j => Mul(At(x, j), W(t, |x|, -(j * k)))
  }

  /** sum over j of x[j] exp(+2 pi i j k / n) */
  ghost function InverseDft(t: Trig, x: seq<C>, k: int): C {
    Sum(|x|, InverseTerm(t, x, k))
  }

  // ----- decimation in time

  ghost function StridedTerm(t: Trig, x: seq<C>, s: nat, o: int, m: nat, k: int): int -> C {
    j => Mul(At(x, o + j * s), W(t, m, j * k))
  }

  /** The m-point transform of the subsequence x[o], x[o + s], x[o + 2s], ... */
  ghost function Strided(t: Trig, x: seq<C>, s: nat, o: int, m: nat, k: int): C {
    Sum(m, StridedTerm(t, x, s, o, m, k))
  }

  lemma StridedWhole(t: Trig, x: seq<C>, k: int)
    ensures Strided(t, x, 1, 0, |x|, k) == Dft(t, x, k)
  {
    SumEq(|x|, StridedTerm(t, x, 1, 0, |x|, k), DftTerm(t, x, k));
  }

  lemma StridedOne(t: Trig, x: seq<C>, s: nat, o: int)
    requires IsTrig(t)
    ensures Strided(t, x, s, o, 1, 0) == At(x, o)
  {
    WOne(t, 1, 0);
    MulOne(At(x, o));
    var f := StridedTerm(t, x, s, o, 1, 0);
    assert Sum(1, f) == Add(Sum(0, f), f(0));
  }

  lemma StridedPeriod(t: Trig, x: seq<C>, s: nat, o: int, m: nat, k: int)
    requires IsTrig(t) && m > 0
    ensures Strided(t, x, s, o, m, k + m) == Strided(t, x, s, o, m, k)
  {
    var f, g := StridedTerm(t, x, s, o, m, k + m), StridedTerm(t, x, s, o, m, k);
    forall j | 0 <= j < m
      ensures f(j) == g(j)
    {
      assert j * (k + m) == j * k + m * j;
      WPeriod(t, m, j * k, j);
    }
    SumEq(m, f, g);
  }

  lemma EvenTerm(t: Trig, x: seq<C>, s: nat, o: int, m: nat, k: int, j: int)
    requires IsTrig(t) && m > 0
    ensures StridedTerm(t, x, s, o, 2 * m, k)(2 * j) == StridedTerm(t, x, 2 * s, o, m, k)(j)
  {
    assert o + 2 * j * s == o + j * (2 * s);
    assert 2 * j * k == (j * k) * 2;
    WReduce(t, m, 2, j * k);
    assert m * 2 == 2 * m;
  }

  lemma OddTerm(t: Trig, x: seq<C>, s: nat, o: int, m: nat, k: int, j: int)
    requires IsTrig(t) && m > 0
    ensures StridedTerm(t, x, s, o, 2 * m, k)(2 * j + 1)
         == Mul(W(t, 2 * m, k), StridedTerm(t, x, 2 * s, o + s, m, k)(j))
  {
    hide Mul, W, IsTrig;
    assert o + (2 * j + 1) * s == o + s + j * (2 * s);
    assert (2 * j + 1) * k == (j * k) * 2 + k;
    assert m * 2 == 2 * m;
    WReduce(t, m, 2, j * k);
    WAdd(t, 2 * m, (j * k) * 2, k);
    var a, v, w := At(x, o + s + j * (2 * s)), W(t, m, j * k), W(t, 2 * m, k);
    MulAssoc(a, v, w);
    MulComm(Mul(a, v), w);
  }

  /** One transform of 2m points from two of m points: the even and the odd positions. */
  lemma StridedSplit(t: Trig, x: seq<C>, s: nat, o: int, m: nat, k: int)
    requires IsTrig(t) && m > 0
    ensures Strided(t, x, s, o, 2 * m, k)
         == Add(Strided(t, x, 2 * s, o, m, k),
                Mul(W(t, 2 * m, k), Strided(t, x, 2 * s, o + s, m, k)))
  {
    hide *;
    StridedIs(t, x, s, o, 2 * m, k);
    StridedIs(t, x, 2 * s, o, m, k);
    StridedIs(t, x, 2 * s, o + s, m, k);
    var f, w := StridedTerm(t, x, s, o, 2 * m, k), W(t, 2 * m, k);
    var e, d := StridedTerm(t, x, 2 * s, o, m, k), StridedTerm(t, x, 2 * s, o + s, m, k);
    var p, q := (j: int) => f(2 * j), (j: int) => f(2 * j + 1);
    forall j | 0 <= j < m
      ensures p(j) == e(j) && q(j) == Mul(w, d(j))
    {
      EvenTerm(t, x, s, o, m, k, j);
      OddTerm(t, x, s, o, m, k, j);
    }
    SumEvenOdd(m, f);
    SumEq(m, p, e);
    SumMultiple(m, w, d, q);
  }

  lemma StridedIs(t: Trig, x: seq<C>, s: nat, o: int, m: nat, k: int)
    ensures Strided(t, x, s, o, m, k) == Sum(m, StridedTerm(t, x, s, o, m, k))
  {}

  /** The butterfly: both halves of a merged transform from its even and odd parts. */
  lemma Butterfly(t: Trig, x: seq<C>, s: nat, o: int, m: nat, k: int)
    requires IsTrig(t) && m > 0
    ensures var e, d := Strided(t, x, 2 * s, o, m, k), Strided(t, x, 2 * s, o + s, m, k);
            && Strided(t, x, s, o, 2 * m, k) == Add(e, Mul(d, W(t, 2 * m, k)))
            && Strided(t, x, s, o, 2 * m, k + m) == Sub(e, Mul(d, W(t, 2 * m, k)))
  {
    hide *;
    var e, d := Strided(t, x, 2 * s, o, m, k), Strided(t, x, 2 * s, o + s, m, k);
    StridedSplit(t, x, s, o, m, k);
    StridedSplit(t, x, s, o, m, k + m);
    StridedPeriod(t, x, 2 * s, o, m, k);
    StridedPeriod(t, x, 2 * s, o + s, m, k);
    WAdd(t, 2 * m, k, m);
    WHalf(t, m);
    var w := W(t, 2 * m, k);
    MulComm(w, d);
    MinusOne(w, d, e);
  }

  lemma MinusOne(w: C, d: C, e: C)
    ensures Add(e, Mul(Mul(w, C(-1.0, 0.0)), d)) == Sub(e, Mul(d, w))
  {
    assert Mul(w, C(-1.0, 0.0)) == C(-w.re, -w.im);
  }

  // ----- inversion

  ghost function PowerTerm(t: Trig, n: nat, d: int): int -> C {
    f => W(t, n, f * d)
  }

  /** The powers of a root of unity other than one sum to zero. */
  lemma Orthogonal(t: Trig, n: nat, d: int)
    requires IsTrig(t) && n > 0 && d % n != 0
    ensures Sum(n, PowerTerm(t, n, d)) == Zero
  {
    hide Mul, Add, W;
    var f := PowerTerm(t, n, d);
    var g := (k: int) => Mul(W(t, n, d), f(k));
    forall k | 0 <= k < n
      ensures g(k) == if k < n - 1 then f(k + 1) else f(0)
    {
      WAdd(t, n, d, k * d);
      assert d + k * d == (k + 1) * d;
      if k == n - 1 {
        WPeriod(t, n, 0, d);
        assert (k + 1) * d == 0 + n * d && 0 * d == 0;
      }
    }
    SumCyclic(n, n - 1, f, g);
    SumMul(n, W(t, n, d), f);
    SumEq(n, g, k => Mul(W(t, n, d), f(k)));
    WOne(t, n, d);
    FixedByMul(W(t, n, d), Sum(n, f));
  }

  lemma FixedByMul(w: C, s: C)
    requires Mul(w, s) == s && w != One
    ensures s == Zero
  {
    assert Mul(Sub(w, One), s) == Sub(Mul(w, s), s);
    NoZeroDivisors(Sub(w, One), s);
  }

  lemma {:induction false} SumOnes(n: nat, f: int -> C)
    requires forall k :: 0 <= k < n ==> f(k) == One
    ensures Sum(n, f) == C(n as real, 0.0)
  {
    if n > 0 {
      SumOnes(n - 1, f);
    }
  }

  ghost function InversionEntry(t: Trig, x: seq<C>, k: int): (int, int) -> C {
    (f, j) => Mul(At(x, j), PowerTerm(t, |x|, j - k)(f))
  }

  /** Transforming back gives n times the input. */
  lemma Inversion(t: Trig, x: seq<C>, k: int)
    requires IsTrig(t) && 0 <= k < |x|
    ensures InverseDft(t, DftSeq(t, x), k) == Scale(|x| as real, x[k])
  {
    hide Mul, Add, W, Scale, Sum, InversionEntry, IsTrig;
    var n, X, h := |x|, DftSeq(t, x), InversionEntry(t, x, k);
    var g, c := (f: int) => Sum(n, j => h(f, j)), (j: int) => Sum(n, f => h(f, j));
    forall f | 0 <= f < n
      ensures InverseTerm(t, X, k)(f) == g(f)
    {
      InversionRow(t, x, k, f);
    }
    SumEq(n, InverseTerm(t, X, k), g);
    SumSwap(n, n, h);
    forall j | 0 <= j < n
      ensures c(j) == if j == k then Scale(n as real, x[k]) else Zero
    {
      InversionColumn(t, x, k, j);
    }
    SumSingle(n, c, k);
  }

  lemma InversionColumn(t: Trig, x: seq<C>, k: int, j: int)
    requires IsTrig(t) && 0 <= k < |x| && 0 <= j < |x|
    ensures Sum(|x|, f => InversionEntry(t, x, k)(f, j)) == if j == k then Scale(|x| as real, x[k]) else Zero
  {
    hide Mul, Add, W, Scale, Sum, IsTrig;
    var n, p := |x|, PowerTerm(t, |x|, j - k);
    SumMul(n, At(x, j), p);
    var g, q := (f: int) => InversionEntry(t, x, k)(f, j), (f: int) => Mul(At(x, j), p(f));
    forall f | 0 <= f < n
      ensures g(f) == q(f)
    {
      assert g(f) == InversionEntry(t, x, k)(f, j);
      assert q(f) == Mul(At(x, j), p(f));
      assert InversionEntry(t, x, k)(f, j) == Mul(At(x, j), PowerTerm(t, |x|, j - k)(f));
    }
    SumEq(n, g, q);
    if j == k {
      forall f | 0 <= f < n
        ensures p(f) == One
      {
        assert f * 0 == 0;
        WOne(t, n, 0);
      }
      SumOnes(n, p);
      ScaleIsMul(n as real, x[k]);
    } else {
      SmallNotMultiple(n, j - k);
      Orthogonal(t, n, j - k);
      MulOne(At(x, j));
    }
  }

  lemma ScaleIsMul(r: real, a: C)
    ensures Mul(a, C(r, 0.0)) == Scale(r, a)
  {}

  lemma SmallNotMultiple(n: int, d: int)
    requires -n < d < n && d != 0
    ensures d % n != 0
  {
    if d < 0 {
      assert d + n == 0 + 1 * (d + n);
      assert (d + n) / n == 0 && d == -1 * n + (d + n);
    }
  }

  lemma InversionRow(t: Trig, x: seq<C>, k: int, f: int)
    requires IsTrig(t) && 0 <= f < |x|
    ensures InverseTerm(t, DftSeq(t, x), k)(f) == Sum(|x|, j => InversionEntry(t, x, k)(f, j))
  {
    hide Mul, Add, W, Sum, IsTrig;
    var n, w, d := |x|, W(t, |x|, -(f * k)), DftTerm(t, x, f);
    SumMul(n, w, d);
    MulComm(Dft(t, x, f), w);
    forall j | 0 <= j < n
      ensures Mul(w, d(j)) == InversionEntry(t, x, k)(f, j)
    {
      MulComm(w, d(j));
      MulAssoc(At(x, j), W(t, n, j * f), w);
      WAdd(t, n, j * f, -(f * k));
      assert j * f + -(f * k) == f * (j - k);
    }
    SumEq(n, j => Mul(w, d(j)), j => InversionEntry(t, x, k)(f, j));
  }

  /** A transform with real and imaginary parts exchanged on the way in and out is the inverse. */
  lemma SwappedIsInverse(t: Trig, x: seq<C>, y: seq<C>, k: int)
    requires IsTrig(t) && |y| == |x| > 0
    requires forall j | 0 <= j < |x| :: y[j] == Swap(x[j])
    ensures Swap(Dft(t, y, k)) == InverseDft(t, x, k)
  {
    hide Mul, Add, W;
    var n := |x|;
    var d := DftTerm(t, y, k);
    SumSwapParts(n, d);
    forall j | 0 <= j < n
      ensures Swap(d(j)) == InverseTerm(t, x, k)(j)
    {
      SwapMul(y[j], W(t, n, j * k));
      WConj(t, n, j * k);
    }
    SumEq(n, j => Swap(d(j)), InverseTerm(t, x, k));
  }

  // ----- circular convolution

  ghost function Wrap(i: int, n: int): int
    requires n > 0
  {
    i % n
  }

  ghost function ConvTerm(x: seq<C>, y: seq<C>, k: int): int -> C
    requires |x| > 0
  {
    j => Mul(At(x, j), At(y, Wrap(k - j, |x|)))
  }

  /** sum over j of x[j] y[(k - j) mod n] */
  ghost function Convolution(x: seq<C>, y: seq<C>, k: int): C
    requires |x| > 0
  {
    Sum(|x|, ConvTerm(x, y, k))
  }

  ghost function ConvolutionSeq(x: seq<C>, y: seq<C>): (r: seq<C>)
    requires |x| > 0
    ensures |r| == |x| && forall k | 0 <= k < |x| :: r[k] == Convolution(x, y, k)
  {
    seq(|x|, k requires 0 <= k < |x| => Convolution(x, y, k))
  }

  ghost function ConvEntry(t: Trig, x: seq<C>, y: seq<C>, f: int): (int, int) -> C
    requires |x| > 0
  {
    (k, j) => Mul(Mul(At(x, j), At(y, Wrap(k - j, |x|))), W(t, |x|, k * f))
  }

  /** The transform of a circular convolution is the product of the transforms. */
  lemma ConvolutionTheorem(t: Trig, x: seq<C>, y: seq<C>, f: int)
    requires IsTrig(t) && |x| == |y| > 0
    ensures Dft(t, ConvolutionSeq(x, y), f) == Mul(Dft(t, x, f), Dft(t, y, f))
  {
    hide Mul, Add, W, Sum, ConvEntry, IsTrig;
    var n, z, h := |x|, ConvolutionSeq(x, y), ConvEntry(t, x, y, f);
    var r, c := (k: int) => Sum(n, j => h(k, j)), (j: int) => Sum(n, k => h(k, j));
    forall k | 0 <= k < n
      ensures DftTerm(t, z, f)(k) == r(k)
    {
      ConvolutionRow(t, x, y, f, k, j => h(k, j));
    }
    SumEq(n, DftTerm(t, z, f), r);
    SumSwap(n, n, h);
    var Y, d := Dft(t, y, f), DftTerm(t, x, f);
    forall j | 0 <= j < n
      ensures c(j) == Mul(Y, d(j))
    {
      ConvolutionColumn(t, x, y, f, j, k => h(k, j));
    }
    SumEq(n, c, j => Mul(Y, d(j)));
    SumMul(n, Y, d);
    MulComm(Y, Dft(t, x, f));
  }

  lemma ConvolutionRow(t: Trig, x: seq<C>, y: seq<C>, f: int, k: int, g: int -> C)
    requires 0 <= k < |x|
    requires forall j :: 0 <= j < |x| ==> g(j) == ConvEntry(t, x, y, f)(k, j)
    ensures DftTerm(t, ConvolutionSeq(x, y), f)(k) == Sum(|x|, g)
  {
    hide *;
    var n, w, c := |x|, W(t, |x|, k * f), ConvTerm(x, y, k);
    ConvolutionAt(t, x, y, f, k);
    forall j | 0 <= j < n
      ensures g(j) == Mul(w, c(j))
    {
      ConvEntryIs(t, x, y, f, k, j);
      MulComm(w, c(j));
    }
    SumMultiple(n, w, c, g);
    MulComm(w, Sum(n, c));
  }

  lemma ConvolutionAt(t: Trig, x: seq<C>, y: seq<C>, f: int, k: int)
    requires 0 <= k < |x|
    ensures DftTerm(t, ConvolutionSeq(x, y), f)(k) == Mul(Sum(|x|, ConvTerm(x, y, k)), W(t, |x|, k * f))
  {
    hide Mul, Sum, W, ConvTerm, At;
    AtIs(ConvolutionSeq(x, y), k);
  }

  lemma ConvEntryIs(t: Trig, x: seq<C>, y: seq<C>, f: int, k: int, j: int)
    requires |x| > 0
    ensures ConvEntry(t, x, y, f)(k, j) == Mul(ConvTerm(x, y, k)(j), W(t, |x|, k * f))
  {
    hide Mul, At, W, Wrap;
  }

  lemma AtIs(x: seq<C>, j: int)
    requires 0 <= j < |x|
    ensures At(x, j) == x[j]
  {}

  lemma WSplitMod(t: Trig, n: nat, f: int, j: int, k: int)
    requires IsTrig(t) && n > 0
    ensures W(t, n, k * f) == Mul(W(t, n, j * f), W(t, n, Wrap(k - j, n) * f))
  {
    WSplit(t, n, f, j, Wrap(k - j, n), k, (k - j) / n);
  }

  /** A product of angles splits along k = j + r modulo n. */
  lemma WSplit(t: Trig, n: nat, f: int, j: int, r: int, k: int, q: int)
    requires IsTrig(t) && n > 0 && k == j + r + q * n
    ensures W(t, n, k * f) == Mul(W(t, n, j * f), W(t, n, r * f))
  {
    hide Mul, W, IsTrig;
    WAdd(t, n, j * f, r * f);
    WPeriod(t, n, j * f + r * f, q * f);
    assert k * f == (j * f + r * f) + n * (q * f);
  }

  lemma ConvolutionEntryTerms(t: Trig, x: seq<C>, y: seq<C>, f: int, j: int, k: int, r: int)
    requires |x| == |y| > 0 && r == Wrap(k - j, |x|)
    ensures ConvEntry(t, x, y, f)(k, j) == Mul(Mul(At(x, j), At(y, r)), W(t, |x|, k * f))
    ensures DftTerm(t, x, f)(j) == Mul(At(x, j), W(t, |x|, j * f))
    ensures DftTerm(t, y, f)(r) == Mul(At(y, r), W(t, |x|, r * f))
  {
    hide Mul, W, At, Wrap;
  }

  lemma ConvolutionEntry(t: Trig, x: seq<C>, y: seq<C>, f: int, j: int, k: int, r: int)
    requires IsTrig(t) && |x| == |y| > 0 && r == Wrap(k - j, |x|)
    ensures ConvEntry(t, x, y, f)(k, j) == Mul(DftTerm(t, x, f)(j), DftTerm(t, y, f)(r))
  {
    hide *;
    var n := |x|;
    ConvolutionEntryTerms(t, x, y, f, j, k, r);
    WSplitMod(t, n, f, j, k);
    MulInterchange(At(x, j), At(y, r), W(t, n, j * f), W(t, n, r * f));
  }

  lemma ConvolutionColumn(t: Trig, x: seq<C>, y: seq<C>, f: int, j: int, g: int -> C)
    requires IsTrig(t) && |x| == |y| > 0 && 0 <= j < |x|
    requires forall k :: 0 <= k < |x| ==> g(k) == ConvEntry(t, x, y, f)(k, j)
    ensures Sum(|x|, g) == Mul(Dft(t, y, f), DftTerm(t, x, f)(j))
  {
    var n, a, d := |x|, DftTerm(t, x, f)(j), DftTerm(t, y, f);
    hide Mul, Add, W, Sum, IsTrig, ConvEntry, DftTerm, Wrap, At;
    var s := Shifted(n, j, d);
    forall k: int | 0 <= k < n
      ensures g(k) == Mul(a, s(k))
    {
      ConvolutionEntry(t, x, y, f, j, k, Wrap(k - j, n));
    }
    SumMultiple(n, a, s, g);
    ShiftedSum(n, j, d);
    MulComm(a, Dft(t, y, f));
  }

  ghost function Shifted(n: nat, j: nat, d: int -> C): int -> C
    requires n > 0
  {
    k => d(Wrap(k - j, n))
  }

  lemma ShiftedSum(n: nat, j: nat, d: int -> C)
    requires j < n
    ensures Sum(n, Shifted(n, j, d)) == Sum(n, d)
  {
    hide Sum;
    var s := Shifted(n, j, d);
    forall k: int | 0 <= k < n
      ensures s(k) == if k < j then d(n - j + k) else d(k - j)
    {
      ShiftMod(k - j, n);
      assert s(k) == d(Wrap(k - j, n));
    }
    SumCyclic(n, j, d, s);
  }

  lemma ShiftMod(d: int, n: int)
    requires -n < d < n
    ensures Wrap(d, n) == if d < 0 then d + n else d
  {
    assert d < 0 ==> d == -1 * n + (d + n) && d / n == -1;
  }
}
