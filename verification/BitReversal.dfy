/** The bit-reversed addressing that precedes an in-place decimation-in-time transform. */
module BitReversal {
  import opened Bits

  /** The lowest n bits of x in reverse order. */
  ghost function Rev(x: nat, n: nat): (r: nat)
    ensures r < Pow2(n)
  {
    if n == 0 then 0 else (if x % 2 == 1 then Pow2(n - 1) else 0) + Rev(x / 2, n - 1)
  }

  /** Reversal moves the top bit to the bottom. */
  lemma {:induction false} RevTop(y: nat, top: bool, n: nat)
    requires y < Pow2(n)
    ensures Rev((if top then Pow2(n) else 0) + y, n + 1) == 2 * Rev(y, n) + if top then 1 else 0
  {
    if n > 0 {
      RevTop(y / 2, top, n - 1);
    }
  }

  /** Reversing twice is the identity on [0, 2^n). */
  lemma {:induction false} Involution(x: nat, n: nat)
    requires x < Pow2(n)
    ensures Rev(Rev(x, n), n) == x
  {
    if n > 0 {
      Involution(x / 2, n - 1);
      RevTop(Rev(x / 2, n - 1), x % 2 == 1, n - 1);
    }
  }

  /** The source's loop: shift bits out of x at the bottom and into result at the bottom. */
  method ReverseBits(x: nat, n: nat) returns (result: nat)
    ensures result == Rev(x, n)
  {
    result := 0;
    var y := x;
    var i := 0;
    while i < n
      invariant 0 <= i <= n
      invariant result * Pow2(n - i) + Rev(y, n - i) == Rev(x, n)
    {
      ShiftIn(result, y, n - i - 1);
      result := 2 * result + y % 2;
      i, y := i + 1, y / 2;
    }
  }

  lemma ShiftIn(result: nat, y: nat, m: nat)
    ensures (2 * result + y % 2) * Pow2(m) + Rev(y / 2, m) == result * Pow2(m + 1) + Rev(y, m + 1)
  {
    assert (2 * result + y % 2) * Pow2(m) == result * (2 * Pow2(m)) + (y % 2) * Pow2(m);
  }

  /** The swap pass over two parallel arrays: afterwards position k holds what was at Rev(k). */
  method Permute(re: array<real>, im: array<real>, levels: nat)
    requires re != im && re.Length == im.Length == Pow2(levels)
    modifies re, im
    ensures forall k | 0 <= k < re.Length ::
              re[k] == old(re[Rev(k, levels)]) && im[k] == old(im[Rev(k, levels)])
  {
    var n := re.Length;
    ghost var r := Reversal(levels);
    ghost var re0, im0 := re[..], im[..];
    hide Rev;
    var i := 0;
    while i < n
      invariant 0 <= i <= n
      invariant PartlySwapped(re0, re[..], r, i) && PartlySwapped(im0, im[..], r, i)
    {
      var j := ReverseBits(i, levels);
      SwapStep(re0, re[..], r, i);
      SwapStep(im0, im[..], r, i);
      if j > i {
        re[i], re[j] := re[j], re[i];
        im[i], im[j] := im[j], im[i];
      }
      i := i + 1;
    }
  }

  /** The pass before its i-th step: pairs with a member below i are exchanged. */
  ghost predicate PartlySwapped(a0: seq<real>, a: seq<real>, r: seq<nat>, i: nat) {
    && |a0| == |a| == |r|
    && (forall k | 0 <= k < |r| :: r[k] < |r| && r[r[k]] == k)
    && (forall k | 0 <= k < |r| :: a[k] == if k < i || r[k] < i then a0[r[k]] else a0[k])
  }

  lemma SwapStep(a0: seq<real>, a: seq<real>, r: seq<nat>, i: nat)
    requires PartlySwapped(a0, a, r, i) && i < |r|
    ensures PartlySwapped(a0, if r[i] > i then a[i := a[r[i]]][r[i] := a[i]] else a, r, i + 1)
  {}

  /** The whole permutation; it is its own inverse. */
  ghost function Reversal(levels: nat): (r: seq<nat>)
    ensures |r| == Pow2(levels)
    ensures forall k | 0 <= k < |r| :: r[k] == Rev(k, levels) < |r| && r[r[k]] == k
  {
    var r := seq(Pow2(levels), (k: nat) => Rev(k, levels));
    assert forall k | 0 <= k < |r| :: r[r[k]] == k by {
      forall k | 0 <= k < |r|
        ensures r[r[k]] == k
      {
        Involution(k, levels);
      }
    }
    r
  }
}
