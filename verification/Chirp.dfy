/**
 The chirp transform: a transform of any length n as one circular convolution of a longer,
 power-of-two length m. The chirp is read from a table, as the program does.
 */
module Chirp {
  import opened Complex
  import opened Fourier

  /** exp(-pi i j^2 / n) */
  ghost function Ideal(t: Trig, n: nat, i: int): C {
    W(t, 2 * n, i * i)
  }

  ghost predicate IdealTable(t: Trig, T: seq<C>) {
    forall i | 0 <= i < |T| :: T[i] == Ideal(t, |T|, i)
  }

  function Abs(i: int): int { if i < 0 then -i else i }

  ghost function ChirpTerm(T: seq<C>, x: seq<C>, k: int): int -> C {
    j => Mul(Mul(At(x, j), At(T, j)), Conj(At(T, Abs(k - j))))
  }

  /** What the chirp transform computes from a table T, for an output index k. */
  ghost function ChirpOut(T: seq<C>, x: seq<C>, k: int): C {
    Mul(Sum(|x|, ChirpTerm(T, x, k)), At(T, k))
  }

  // ----- the chirp identity

  /** j k = (j^2 + k^2 - (k - j)^2) / 2, on the unit circle. */
  lemma ChirpIdentity(t: Trig, n: nat, j: int, k: int)
    requires IsTrig(t) && n > 0
    ensures Mul(Mul(Ideal(t, n, j), Conj(Ideal(t, n, Abs(k - j)))), Ideal(t, n, k)) == W(t, n, j * k)
  {
    hide Mul, W, IsTrig;
    var N := 2 * n;
    var d := k - j;
    assert Abs(d) * Abs(d) == d * d;
    WConj(t, N, d * d);
    WAdd(t, N, j * j, -(d * d));
    WAdd(t, N, j * j + -(d * d), k * k);
    assert j * j + -(d * d) + k * k == (j * k) * 2;
    assert n * 2 == N;
    WReduce(t, n, 2, j * k);
  }

  /** With the ideal table the chirp transform is the discrete Fourier transform. */
  lemma IdealIsDft(t: Trig, T: seq<C>, x: seq<C>, k: int)
    requires IsTrig(t) && |T| == |x| > 0 && IdealTable(t, T) && 0 <= k < |x|
    ensures ChirpOut(T, x, k) == Dft(t, x, k)
  {
    hide Mul, W, IsTrig, Sum, ChirpTerm, DftTerm;
    var n, c, f, g := |x|, T[k], ChirpTerm(T, x, k), DftTerm(t, x, k);
    forall j | 0 <= j < n
      ensures g(j) == Mul(c, f(j))
    {
      ChirpTermIsDftTerm(t, T, x, k, j);
    }
    SumMultiple(n, c, f, g);
    MulComm(c, Sum(n, f));
  }

  lemma ChirpTermIsDftTerm(t: Trig, T: seq<C>, x: seq<C>, k: int, j: int)
    requires IsTrig(t) && |T| == |x| > 0 && IdealTable(t, T) && 0 <= k < |x| && 0 <= j < |x|
    ensures DftTerm(t, x, k)(j) == Mul(T[k], ChirpTerm(T, x, k)(j))
  {
    hide *;
    TableTerms(t, T, x, k, j);
    var a, p, q, c := x[j], T[j], Conj(T[Abs(k - j)]), T[k];
    ChirpIdentity(t, |x|, j, k);
    Regroup(a, p, q, c, W(t, |x|, j * k));
  }

  lemma TableTerms(t: Trig, T: seq<C>, x: seq<C>, k: int, j: int)
    requires |T| == |x| > 0 && IdealTable(t, T) && 0 <= k < |x| && 0 <= j < |x|
    ensures 0 <= Abs(k - j) < |T|
    ensures T[j] == Ideal(t, |x|, j) && T[k] == Ideal(t, |x|, k) && T[Abs(k - j)] == Ideal(t, |x|, Abs(k - j))
    ensures DftTerm(t, x, k)(j) == Mul(x[j], W(t, |x|, j * k))
    ensures ChirpTerm(T, x, k)(j) == Mul(Mul(x[j], T[j]), Conj(T[Abs(k - j)]))
  {
    hide Mul, Conj, W, Ideal;
  }

  lemma Regroup(a: C, p: C, q: C, c: C, w: C)
    requires Mul(Mul(p, q), c) == w
    ensures Mul(a, w) == Mul(c, Mul(Mul(a, p), q))
  {
    hide Mul;
    MulComm(c, Mul(Mul(a, p), q));
    MulAssoc(a, p, q);
    MulAssoc(a, Mul(p, q), c);
  }

  // ----- the circular convolution inside

  /** x[j] T[j], padded with zeros to length m. */
  ghost predicate IsModulated(T: seq<C>, x: seq<C>, a: seq<C>) {
    && |T| == |x| <= |a|
    && (forall j | 0 <= j < |x| :: a[j] == Mul(x[j], T[j]))
    && (forall j | |x| <= j < |a| :: a[j] == Zero)
  }

  /** The conjugated table and its mirror image at the far end. */
  ghost predicate IsMirrored(T: seq<C>, b: seq<C>) {
    && 2 * |T| < |b|
    && (forall i | 0 <= i < |T| :: b[i] == Conj(T[i]))
    && (forall i | 0 < i < |T| :: b[|b| - i] == Conj(T[i]))
  }

  lemma PaddingVanishes(T: seq<C>, x: seq<C>, a: seq<C>, b: seq<C>, k: int, i: int)
    requires |T| == |x| > 0 && IsModulated(T, x, a)
    requires |x| <= i < |a|
    ensures ConvTerm(a, b, k)(i) == Zero
  {
    hide Mul, Wrap;
    MulOne(At(b, Wrap(k - i, |a|)));
  }

  lemma MirroredAt(T: seq<C>, b: seq<C>, d: int)
    requires IsMirrored(T, b) && -|T| < d < |T|
    ensures At(b, Wrap(d, |b|)) == Conj(At(T, Abs(d)))
  {
    hide Conj, Wrap;
    ShiftMod(d, |b|);
    if d < 0 {
      assert b[|b| - (-d)] == Conj(T[-d]);
    }
  }

  lemma InsideTerm(T: seq<C>, x: seq<C>, a: seq<C>, b: seq<C>, k: int, j: int)
    requires |T| == |x| > 0 && |a| == |b| && IsModulated(T, x, a) && IsMirrored(T, b)
    requires 0 <= k < |x| && 0 <= j < |x|
    ensures ConvTerm(a, b, k)(j) == ChirpTerm(T, x, k)(j)
  {
    MirroredAt(T, b, k - j);
    assert At(a, j) == Mul(At(x, j), At(T, j)) by {
      hide Mul;
    }
    hide Mul, Wrap, Conj, At, Abs, IsMirrored, IsModulated;
  }

  lemma ConvolutionUnpadded(T: seq<C>, x: seq<C>, a: seq<C>, b: seq<C>, k: int)
    requires 0 < |T| == |x| <= |a| && IsModulated(T, x, a)
    ensures Convolution(a, b, k) == Sum(|x|, ConvTerm(a, b, k))
  {
    hide Mul, Sum, ConvTerm, IsModulated;
    var f := ConvTerm(a, b, k);
    forall i | |x| <= i < |a|
      ensures f(i) == Zero
    {
      PaddingVanishes(T, x, a, b, k, i);
    }
    SumPadded(|x|, |a|, f);
  }

  lemma UnpaddedIsChirp(T: seq<C>, x: seq<C>, a: seq<C>, b: seq<C>, k: int)
    requires 0 < |T| == |x| <= |a| == |b| && IsModulated(T, x, a) && IsMirrored(T, b)
    requires 0 <= k < |x|
    ensures Sum(|x|, ConvTerm(a, b, k)) == Sum(|x|, ChirpTerm(T, x, k))
  {
    hide *;
    var f, g := ConvTerm(a, b, k), ChirpTerm(T, x, k);
    forall j | 0 <= j < |x|
      ensures f(j) == g(j)
    {
      InsideTerm(T, x, a, b, k, j);
    }
    SumEq(|x|, f, g);
  }

  lemma ConvolutionIsChirp(T: seq<C>, x: seq<C>, a: seq<C>, b: seq<C>, k: int)
    requires |T| == |x| > 0 && |a| == |b| > 0 && IsModulated(T, x, a) && IsMirrored(T, b)
    requires 0 <= k < |x|
    ensures Mul(Convolution(a, b, k), At(T, k)) == ChirpOut(T, x, k)
  {
    assert |x| <= |a|;
    hide Mul, Sum, Convolution, ConvTerm, ChirpTerm, IsModulated, IsMirrored, At;
    ConvolutionUnpadded(T, x, a, b, k);
    UnpaddedIsChirp(T, x, a, b, k);
  }

  lemma {:induction false} SumPadded(n: nat, m: nat, f: int -> C)
    requires n <= m && forall i | n <= i < m :: f(i) == Zero
    ensures Sum(m, f) == Sum(n, f)
  {
    if n < m {
      SumPadded(n, m - 1, f);
    }
  }

  // ----- a wrong table entry is visible

  ghost function Delta(n: nat, p: nat): seq<C> {
    seq(n, j => if j == p then One else Zero)
  }

  lemma DftOfDelta(t: Trig, n: nat, p: nat, k: int)
    requires IsTrig(t) && p < n
    ensures Dft(t, Delta(n, p), k) == W(t, n, p * k)
  {
    hide Mul, W, IsTrig, Sum;
    var x := Delta(n, p);
    var f := DftTerm(t, x, k);
    forall j | 0 <= j < n
      ensures f(j) == if j == p then W(t, n, p * k) else Zero
    {
      MulOne(W(t, n, j * k));
    }
    SumSingle(n, f, p);
  }

  lemma DeltaTerm(T: seq<C>, n: nat, p: nat, k: int, j: int)
    requires |T| == n && p < n && 0 <= j < n
    ensures ChirpTerm(T, Delta(n, p), k)(j) == if j == p then Mul(At(T, p), Conj(At(T, Abs(k - p)))) else Zero
  {
    hide Mul, Conj, Abs, At;
    var u, v := At(T, j), Conj(At(T, Abs(k - j)));
    MulOne(u);
    MulOne(v);
    AtIs(Delta(n, p), j);
  }

  lemma ChirpOfDelta(T: seq<C>, n: nat, p: nat, k: int)
    requires |T| == n && p < n
    ensures ChirpOut(T, Delta(n, p), k) == Mul(Mul(At(T, p), Conj(At(T, Abs(k - p)))), At(T, k))
  {
    hide Mul, Sum, ChirpTerm, Conj, Abs, At;
    var f := ChirpTerm(T, Delta(n, p), k);
    forall j | 0 <= j < n
      ensures f(j) == if j == p then Mul(At(T, p), Conj(At(T, Abs(k - p)))) else Zero
    {
      DeltaTerm(T, n, p, k, j);
    }
    SumSingle(n, f, p);
  }

  /** If entry k is wrong and entries 1 and k - 1 are right, the response to a pulse at 1 is wrong. */
  lemma WrongEntryShows(t: Trig, T: seq<C>, k: int)
    requires IsTrig(t) && 1 < k < |T|
    requires T[1] == Ideal(t, |T|, 1) && T[k - 1] == Ideal(t, |T|, k - 1)
    requires ChirpOut(T, Delta(|T|, 1), k) == Dft(t, Delta(|T|, 1), k)
    ensures T[k] == Ideal(t, |T|, k)
  {
    hide Mul, W, IsTrig, Ideal;
    var n := |T|;
    DftOfDelta(t, n, 1, k);
    ChirpOfDelta(T, n, 1, k);
    ChirpIdentity(t, n, 1, k);
    var u, v := Ideal(t, n, 1), Ideal(t, n, k - 1);
    assert Mul(Mul(u, Conj(v)), T[k]) == Mul(Mul(u, Conj(v)), Ideal(t, n, k));
    UnitIdeal(t, n, 1);
    UnitIdeal(t, n, k - 1);
    CancelUnits(u, v, T[k], Ideal(t, n, k));
  }

  lemma UnitIdeal(t: Trig, n: nat, i: int)
    requires IsTrig(t) && n > 0
    ensures Mul(Ideal(t, n, i), Conj(Ideal(t, n, i))) == One
  {
    hide Mul, W;
    WInverse(t, 2 * n, i * i);
    WConj(t, 2 * n, i * i);
  }

  lemma CancelUnits(u: C, v: C, a: C, b: C)
    requires Mul(u, Conj(u)) == One && Mul(v, Conj(v)) == One
    requires Mul(Mul(u, Conj(v)), a) == Mul(Mul(u, Conj(v)), b)
    ensures a == b
  {
    hide Mul;
    var r, s := Mul(u, Conj(v)), Mul(Conj(u), v);
    MulInterchange(Conj(u), v, u, Conj(v));
    MulComm(Conj(u), u);
    MulOne(One);
    assert Mul(s, r) == One;
    MulAssoc(s, r, a);
    MulAssoc(s, r, b);
    MulOne(a);
    MulOne(b);
  }
}
