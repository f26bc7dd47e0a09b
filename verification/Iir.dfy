/** The direct-form filter of the IIR test, over exact reals. */
module Iir {

  /** A signal with zeros before its start. */
  function At(s: seq<real>, i: int): real {
    if 0 <= i < |s| then s[i] else 0.0
  }

  function Times(x: real, y: real): real { x * y }

  /** The first n taps of a convolution: c[0]·s[m] + … + c[n-1]·s[m-n+1]. */
  function Taps(c: seq<real>, s: seq<real>, m: int, n: nat): real
    requires n <= |c|
  {
    if n == 0 then 0.0 else Taps(c, s, m, n - 1) + Times(c[n - 1], At(s, m - (n - 1)))
  }

  /** The difference equation at sample m: a * y = b * x. */
  ghost predicate Balanced(b: seq<real>, a: seq<real>, x: seq<real>, y: seq<real>, m: int)
    requires |a| == |b|
  {
    Taps(a, y, m, |a|) == Taps(b, x, m, |b|)
  }

  /** The filter's output: one value per input sample, satisfying the difference equation from rest. */
  ghost predicate Filters(b: seq<real>, a: seq<real>, x: seq<real>, y: seq<real>)
    requires |a| == |b|
  {
    |x| == |y| && forall m | 0 <= m < |x| :: Balanced(b, a, x, y, m)
  }

  // ----- the implementation

  /** All but the leading tap of the feedback. */
  function Past(a: seq<real>, y: seq<real>, m: int, n: nat): real
    requires 1 <= n <= |a|
    decreases n
  {
    if n == 1 then 0.0 else Past(a, y, m, n - 1) + Times(At(y, m - (n - 1)), a[n - 1])
  }

  method DoFilter(b: array<real>, a: array<real>, filterLength: nat, input: array<real>, out: array<real>, length: nat)
    requires 1 <= filterLength <= a.Length && filterLength <= b.Length && a[0] != 0.0
    requires length <= input.Length && length <= out.Length && out != input && out != a && out != b
    modifies out
    ensures Filters(b[..filterLength], a[..filterLength], input[..length], out[..length])
    ensures out[length..] == old(out[length..])
  {
    var a0, aEnd := a[0], filterLength - 1;
    ghost var bs, as_, xs := b[..filterLength], a[..filterLength], input[..length];
    hide Balanced, Times;
    for m := 0 to length
      invariant a[0] == a0 && b[..filterLength] == bs && a[..filterLength] == as_ && input[..length] == xs
      invariant out[length..] == old(out[length..])
      invariant forall j | 0 <= j < m :: Balanced(bs, as_, xs, out[..m], j)
    {
      var bMacc, inMacc, aMacc, outMacc := 0, m, 1, m - 1;
      var bAcc := Times(input[inMacc], b[bMacc]);
      inMacc, bMacc := inMacc - 1, bMacc + 1;
      var aAcc := 0.0;
      ghost var ys := out[..m];
      FirstTap(bs, xs, m);
      while aMacc <= aEnd && outMacc >= 0
        invariant 1 <= aMacc <= filterLength && bMacc == aMacc && inMacc == outMacc == m - aMacc && outMacc >= -1
        invariant out[..m] == ys && out[length..] == old(out[length..])
        invariant bAcc == Taps(bs, xs, m, aMacc) && aAcc == Past(as_, ys, m, aMacc)
        decreases filterLength - aMacc
      {
        NextTap(bs, xs, m, aMacc);
        assert out[outMacc] == ys[outMacc] == At(ys, m - aMacc) && a[aMacc] == as_[aMacc];
        bAcc := bAcc + Times(input[inMacc], b[bMacc]);
        inMacc, bMacc := inMacc - 1, bMacc + 1;
        aAcc := aAcc + Times(out[outMacc], a[aMacc]);
        outMacc, aMacc := outMacc - 1, aMacc + 1;
      }
      NothingBefore(bs, xs, as_, ys, m, aMacc, filterLength);
      out[m] := (bAcc - aAcc) / a0;
      Settles(bs, as_, xs, ys, (bAcc - aAcc) / a0, m);
      assert out[..m + 1] == ys + [(bAcc - aAcc) / a0];
    }
  }

  lemma {:induction false} Commutes(x: real, y: real)
    ensures Times(x, y) == Times(y, x)
  {}

  lemma {:induction false} FirstTap(c: seq<real>, s: seq<real>, m: nat)
    requires |c| >= 1 && m < |s|
    ensures Taps(c, s, m, 1) == Times(s[m], c[0])
  {
    Commutes(c[0], s[m]);
    assert Taps(c, s, m, 0) == 0.0;
    hide Times;
  }

  lemma {:induction false} NextTap(c: seq<real>, s: seq<real>, m: nat, n: nat)
    requires n < |c| && 0 <= m - n && m < |s|
    ensures Taps(c, s, m, n + 1) == Taps(c, s, m, n) + Times(s[m - n], c[n])
  {
    Commutes(c[n], s[m - n]);
    hide Times;
  }

  /** Taps that reach before the start of the signal add nothing. */
  lemma {:induction false} NothingBefore(b: seq<real>, x: seq<real>, a: seq<real>, y: seq<real>, m: nat, n: nat,
                                         length: nat)
    requires 1 <= n <= length == |b| == |a| && (n < length ==> n > m)
    ensures Taps(b, x, m, length) == Taps(b, x, m, n) && Past(a, y, m, length) == Past(a, y, m, n)
    decreases length - n
  {
    if n < length {
      NothingBefore(b, x, a, y, m, n + 1, length);
      assert At(x, m - n) == 0.0 == At(y, m - n);
    }
  }

  lemma {:induction false} PastIsTaps(a: seq<real>, y: seq<real>, m: int, n: nat)
    requires 1 <= n <= |a|
    ensures Taps(a, y, m, n) == Times(a[0], At(y, m)) + Past(a, y, m, n)
  {
    if n == 1 {
      assert Taps(a, y, m, 0) == 0.0;
      hide Times;
    } else {
      PastIsTaps(a, y, m, n - 1);
      Commutes(a[n - 1], At(y, m - (n - 1)));
      hide Times;
    }
  }

  /** What lies after sample m does not matter to its taps, nor what lies at m to its past. */
  lemma {:induction false} Causal(c: seq<real>, s: seq<real>, t: seq<real>, m: int, n: nat)
    requires n <= |c| && forall i | i <= m :: At(s, i) == At(t, i)
    ensures Taps(c, s, m, n) == Taps(c, t, m, n)
  {
    if n > 0 {
      Causal(c, s, t, m, n - 1);
      hide Times;
    }
  }

  lemma {:induction false} PastCausal(c: seq<real>, s: seq<real>, t: seq<real>, m: int, n: nat)
    requires 1 <= n <= |c| && forall i | i < m :: At(s, i) == At(t, i)
    ensures Past(c, s, m, n) == Past(c, t, m, n)
  {
    if n > 1 {
      PastCausal(c, s, t, m, n - 1);
      hide Times;
    }
  }

  lemma {:induction false} Divides(n: real, d: real)
    requires d != 0.0
    ensures Times(d, n / d) == n
  {}

  /** The computed sample balances the equation and leaves the earlier ones balanced. */
  lemma {:induction false} Settles(b: seq<real>, a: seq<real>, x: seq<real>, y: seq<real>, v: real, m: nat)
    requires |a| == |b| >= 1 && a[0] != 0.0 && m == |y| && forall j | 0 <= j < m :: Balanced(b, a, x, y, j)
    requires v == (Taps(b, x, m, |b|) - Past(a, y, m, |a|)) / a[0]
    ensures forall j | 0 <= j < m + 1 :: Balanced(b, a, x, y + [v], j)
  {
    var y' := y + [v];
    Divides(Taps(b, x, m, |b|) - Past(a, y, m, |a|), a[0]);
    PastIsTaps(a, y', m, |a|);
    PastCausal(a, y, y', m, |a|);
    hide Times, Taps, Past;
    forall j | 0 <= j < m
      ensures Balanced(b, a, x, y', j)
    {
      assert Balanced(b, a, x, y, j);
      Causal(a, y, y', j, |a|);
    }
  }

  // ----- what the filter is

  /** The equation and rest before the start determine the output. */
  lemma {:induction false} OutputUnique(b: seq<real>, a: seq<real>, x: seq<real>, y: seq<real>, z: seq<real>, m: nat)
    requires |a| == |b| >= 1 && a[0] != 0.0 && Filters(b, a, x, y) && Filters(b, a, x, z) && m < |x|
    ensures y[m] == z[m]
    decreases m
  {
    forall i | i < m
      ensures At(y, i) == At(z, i)
    {
      if i >= 0 {
        OutputUnique(b, a, x, y, z, i);
      }
    }
    assert Balanced(b, a, x, y, m) && Balanced(b, a, x, z, m);
    PastIsTaps(a, y, m, |a|);
    PastIsTaps(a, z, m, |a|);
    PastCausal(a, y, z, m, |a|);
    hide Taps, Past, Times, Filters;
    Cancels(a[0], y[m], z[m]);
  }

  lemma {:induction false} Cancels(d: real, y: real, z: real)
    requires d != 0.0
    ensures Times(d, y) == Times(d, z) ==> y == z
  {
    assert Times(d, y) / d == y && Times(d, z) / d == z;
  }

  /** Causal: inputs that agree up to sample m give outputs that agree up to sample m. */
  lemma {:induction false} FilterCausal(b: seq<real>, a: seq<real>, x: seq<real>, x': seq<real>, y: seq<real>,
                                        y': seq<real>, m: nat)
    requires |a| == |b| >= 1 && a[0] != 0.0 && Filters(b, a, x, y) && Filters(b, a, x', y') && m < |x| && m < |x'|
    requires forall i | 0 <= i <= m :: x[i] == x'[i]
    ensures y[m] == y'[m]
    decreases m
  {
    forall i | i < m
      ensures At(y, i) == At(y', i)
    {
      if i >= 0 {
        FilterCausal(b, a, x, x', y, y', i);
      }
    }
    assert Balanced(b, a, x, y, m) && Balanced(b, a, x', y', m);
    Causal(b, x, x', m, |b|);
    PastIsTaps(a, y, m, |a|);
    PastIsTaps(a, y', m, |a|);
    PastCausal(a, y, y', m, |a|);
    hide Taps, Past, Times, Filters;
    Cancels(a[0], y[m], y'[m]);
  }

  /** A linear combination of two signals. */
  function Mix(p: real, s: seq<real>, q: real, t: seq<real>): (r: seq<real>)
    requires |s| == |t|
    ensures |r| == |s|
  {
    seq(|s|, i requires 0 <= i < |s| => Times(p, s[i]) + Times(q, t[i]))
  }

  lemma {:induction false} Distributes(c: real, p: real, u: real, q: real, v: real)
    ensures Times(c, Times(p, u) + Times(q, v)) == Times(p, Times(c, u)) + Times(q, Times(c, v))
  {
    assert c * (p * u + q * v) == c * (p * u) + c * (q * v);
    assert c * (p * u) == p * (c * u) && c * (q * v) == q * (c * v);
  }

  lemma {:induction false} TimesAdds(p: real, u: real, v: real)
    ensures Times(p, u + v) == Times(p, u) + Times(p, v) && Times(p, 0.0) == 0.0
  {}

  lemma {:induction false} TapsMix(c: seq<real>, p: real, s: seq<real>, q: real, t: seq<real>, m: int, n: nat)
    requires n <= |c| && |s| == |t|
    ensures Taps(c, Mix(p, s, q, t), m, n) == Times(p, Taps(c, s, m, n)) + Times(q, Taps(c, t, m, n))
  {
    TimesAdds(p, 0.0, 0.0);
    TimesAdds(q, 0.0, 0.0);
    if n > 0 {
      var i, k := m - (n - 1), c[n - 1];
      TapsMix(c, p, s, q, t, m, n - 1);
      assert At(Mix(p, s, q, t), i) == Times(p, At(s, i)) + Times(q, At(t, i));
      hide Times, At, Mix;
      Distributes(k, p, At(s, i), q, At(t, i));
      TimesAdds(p, Taps(c, s, m, n - 1), Times(k, At(s, i)));
      TimesAdds(q, Taps(c, t, m, n - 1), Times(k, At(t, i)));
    }
  }

  /** Linear: the output for a combination of inputs is the combination of the outputs. */
  lemma {:induction false} FilterLinear(b: seq<real>, a: seq<real>, x: seq<real>, x': seq<real>, y: seq<real>,
                                        y': seq<real>,
                                        p: real, q: real, z: seq<real>)
    requires |a| == |b| >= 1 && a[0] != 0.0 && |x| == |x'| && Filters(b, a, x, y) && Filters(b, a, x', y')
    requires Filters(b, a, Mix(p, x, q, x'), z)
    ensures z == Mix(p, y, q, y')
  {
    var u, w := Mix(p, x, q, x'), Mix(p, y, q, y');
    forall m | 0 <= m < |u|
      ensures Balanced(b, a, u, w, m)
    {
      assert Balanced(b, a, x, y, m) && Balanced(b, a, x', y', m);
      hide Taps, Times, Mix, Filters;
      TapsMix(a, p, y, q, y', m, |a|);
      TapsMix(b, p, x, q, x', m, |b|);
    }
    assert Filters(b, a, u, w);
    hide Balanced, Filters, Mix, Times;
    forall m | 0 <= m < |u|
      ensures z[m] == w[m]
    {
      OutputUnique(b, a, u, z, w, m);
    }
  }

  // ----- pulses

  /** One, and then nothing. */
  function Pulse(n: nat): seq<real> {
    seq(n, i => if i == 0 then 1.0 else 0.0)
  }

  /** Without feedback a pulse brings out the forward coefficients, divided by the leading one. */
  lemma {:induction false} PulseShowsTaps(b: seq<real>, a: seq<real>, n: nat, y: seq<real>, m: nat)
    requires |a| == |b| >= 1 && a[0] != 0.0 && (forall k | 1 <= k < |a| :: a[k] == 0.0)
    requires Filters(b, a, Pulse(n), y) && m < n
    ensures a[0] * y[m] == if m < |b| then b[m] else 0.0
  {
    assert Balanced(b, a, Pulse(n), y, m);
    TapsOfPulse(b, n, m, |b|);
    OnlyFirstTap(a, y, m, |a|);
  }

  lemma {:induction false} TapsOfPulse(c: seq<real>, n: nat, m: nat, k: nat)
    requires k <= |c| && m < n
    ensures Taps(c, Pulse(n), m, k) == if m < k then c[m] else 0.0
  {
    if k > 0 {
      TapsOfPulse(c, n, m, k - 1);
      assert At(Pulse(n), m - (k - 1)) == if m == k - 1 then 1.0 else 0.0;
    }
  }

  lemma {:induction false} OnlyFirstTap(a: seq<real>, y: seq<real>, m: nat, k: nat)
    requires 1 <= k <= |a| && m < |y| && forall j | 1 <= j < |a| :: a[j] == 0.0
    ensures Taps(a, y, m, k) == a[0] * y[m]
  {
    if k > 1 {
      OnlyFirstTap(a, y, m, k - 1);
    } else {
      assert Taps(a, y, m, 0) == 0.0;
    }
  }

  function Power(r: real, m: nat): real {
    if m == 0 then 1.0 else r * Power(r, m - 1)
  }

  /** With one feedback coefficient -r a pulse brings out the powers of r. */
  lemma {:induction false} FeedbackDecays(r: real, n: nat, y: seq<real>, m: nat)
    requires Filters([1.0, 0.0], [1.0, -r], Pulse(n), y) && m < n
    ensures y[m] == Power(r, m)
  {
    var b, a := [1.0, 0.0], [1.0, -r];
    assert Balanced(b, a, Pulse(n), y, m);
    TapsOfPulse(b, n, m, 2);
    assert Taps(a, y, m, 2) == Taps(a, y, m, 1) + Times(-r, At(y, m - 1));
    assert Taps(a, y, m, 1) == Taps(a, y, m, 0) + Times(1.0, At(y, m));
    if m > 0 {
      FeedbackDecays(r, n, y, m - 1);
    }
  }
}
