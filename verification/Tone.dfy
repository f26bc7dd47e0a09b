/** What a transform is for: a pure tone has all its strength at its own frequency. */
module Tone {
  import opened Complex
  import opened Fourier

  /** cos + i sin of 2 pi g j / n, for j from 0 to n - 1. */
  ghost function ToneOf(t: Trig, n: nat, g: int): (x: seq<C>)
    ensures |x| == n
  {
    seq(n, j requires 0 <= j < n => C(t.cos(n, g * j), t.sin(n, g * j)))
  }

  lemma {:induction false} ToneTerm(t: Trig, n: nat, g: int, f: int, j: int)
    requires IsTrig(t) && 0 <= j < n
    ensures DftTerm(t, ToneOf(t, n, g), f)(j) == PowerTerm(t, n, f - g)(j)
  {
    var x := ToneOf(t, n, g);
    assert At(x, j) == C(t.cos(n, g * j), t.sin(n, g * j));
    assert Parity(t, n, g * j);
    assert C(t.cos(n, g * j), t.sin(n, g * j)) == W(t, n, -(g * j));
    WAdd(t, n, -(g * j), j * f);
    assert -(g * j) + j * f == j * (f - g);
    hide IsTrig, Mul;
  }

  /**
   The tone of frequency g transforms to n at g, and at frequencies that differ by multiples of n, and to zero
   elsewhere.
   */
  lemma {:induction false} ToneTransforms(t: Trig, n: nat, g: int, f: int)
    requires IsTrig(t) && n > 0
    ensures Dft(t, ToneOf(t, n, g), f) == if (f - g) % n == 0 then C(n as real, 0.0) else Zero
  {
    hide ToneOf, DftTerm, PowerTerm, IsTrig, W, Sum;
    forall j | 0 <= j < n
      ensures DftTerm(t, ToneOf(t, n, g), f)(j) == PowerTerm(t, n, f - g)(j)
    {
      ToneTerm(t, n, g, f, j);
    }
    SumEq(n, DftTerm(t, ToneOf(t, n, g), f), PowerTerm(t, n, f - g));
    if (f - g) % n == 0 {
      var p := PowerTerm(t, n, f - g);
      forall j | 0 <= j < n
        ensures p(j) == One
      {
        WholeTurns(t, n, f - g, j);
      }
      SumOnes(n, p);
    } else {
      Orthogonal(t, n, f - g);
    }
  }

  lemma {:induction false} WholeTurns(t: Trig, n: nat, d: int, j: int)
    requires IsTrig(t) && n > 0 && d % n == 0
    ensures PowerTerm(t, n, d)(j) == One
  {
    var q := d / n;
    assert d == n * q;
    assert j * d == n * (j * q) by {
      assert j * (n * q) == n * (j * q);
    }
    MultipleMod(n, j * q);
    WOne(t, n, j * d);
    hide IsTrig;
  }
}
