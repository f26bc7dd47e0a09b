/**
 The twelve-stage shift registers behind the GPS precision code: a 12-bit machine word that
 is shifted left, and the register of the interface specification, a row of stages numbered
 1 to 12 with an exclusive-or feedback into stage 1 and its output at stage 12.
 */
module Lfsr {

  // ----- the program's register

  const X1A_POLYNOMIAL: bv12 := 0xCA0
  const X1B_POLYNOMIAL: bv12 := 0xF93
  const X2A_POLYNOMIAL: bv12 := 0xFDD
  const X2B_POLYNOMIAL: bv12 := 0x98E

  /** True if an odd number of bits is set. */
  function XorBits(x: bv12): bool {
    var a := x ^ (x >> 6);
    var b := a ^ (a >> 3);
    ((b ^ (b >> 1) ^ (b >> 2)) & 1) == 1
  }

  /** The register after one shift. */
  function Shift(poly: bv12, x: bv12): bv12 {
    (x << 1) + (if XorBits(x & poly) then 1 else 0)
  }

  /** The chip a shift delivers: the leftmost bit before it. */
  function TopBit(x: bv12): bool {
    (x >> 11) & 1 == 1
  }

  function Shifted(poly: bv12, x: bv12, n: nat): bv12 {
    if n == 0 then x else Shift(poly, Shifted(poly, x, n - 1))
  }

  // ----- the register of the interface specification

  /** Stage k is at index k - 1. */
  type Stages = s: seq<bool> | |s| == 12 witness seq(12, _ => false)

  /** Exclusive or of the tapped stages among the first k. */
  ghost function Feedback(s: Stages, taps: set<nat>, k: nat): bool
    requires k <= 12
  {
    if k == 0 then false else (k in taps && s[k - 1]) != Feedback(s, taps, k - 1)
  }

  ghost function Clock(s: Stages, taps: set<nat>): Stages {
    [Feedback(s, taps, 12)] + s[..11]
  }

  ghost function Clocked(s: Stages, taps: set<nat>, n: nat): Stages {
    if n == 0 then s else Clock(Clocked(s, taps, n - 1), taps)
  }

  ghost function Output(s: Stages): bool { s[11] }

  // Exponents of the generator polynomials in section 3.3.2.2 of IS-GPS-200.
  ghost const X1A_TAPS: set<nat> := {6, 8, 11, 12}
  ghost const X1B_TAPS: set<nat> := {1, 2, 5, 8, 9, 10, 11, 12}
  ghost const X2A_TAPS: set<nat> := {1, 3, 4, 5, 7, 8, 9, 10, 11, 12}
  ghost const X2B_TAPS: set<nat> := {2, 3, 4, 8, 9, 12}

  // ----- the two agree

  ghost function Weight(k: nat): (m: bv12)
    requires k < 12
    ensures m & (m - 1) == 0
  {
    if k < 4 then (if k == 0 then 1 else if k == 1 then 2 else if k == 2 then 4 else 8)
    else if k < 8 then (if k == 4 then 16 else if k == 5 then 32 else if k == 6 then 64 else 128)
    else (if k == 8 then 256 else if k == 9 then 512 else if k == 10 then 1024 else 2048)
  }

  ghost predicate Bit(x: bv12, k: nat)
    requires k < 12
  {
    x & Weight(k) != 0
  }

  ghost function StagesOf(x: bv12): (s: Stages)
    ensures forall k | 0 <= k < 12 :: s[k] == Bit(x, k)
  {
    seq(12, k requires 0 <= k < 12 => Bit(x, k))
  }

  /** The mask has a bit for exactly the tapped stages. */
  ghost predicate Selects(poly: bv12, taps: set<nat>) {
    forall k | 1 <= k <= 12 :: StagesOf(poly)[k - 1] <==> k in taps
  }

  lemma MasksSelectTaps()
    ensures Selects(X1A_POLYNOMIAL, X1A_TAPS) && Selects(X1B_POLYNOMIAL, X1B_TAPS)
    ensures Selects(X2A_POLYNOMIAL, X2A_TAPS) && Selects(X2B_POLYNOMIAL, X2B_TAPS)
  {
    MaskX1A();
    MaskX1B();
    MaskX2A();
    MaskX2B();
    hide Selects;
  }

  lemma MaskX1A()
    ensures Selects(X1A_POLYNOMIAL, X1A_TAPS)
  {}

  lemma MaskX1B()
    ensures Selects(X1B_POLYNOMIAL, X1B_TAPS)
  {}

  lemma MaskX2A()
    ensures Selects(X2A_POLYNOMIAL, X2A_TAPS)
  {}

  lemma MaskX2B()
    ensures Selects(X2B_POLYNOMIAL, X2B_TAPS)
  {}

  /** Exclusive or of twelve truth values. */
  ghost function Xor12(b: Stages): bool {
    b[11] != (b[10] != (b[9] != (b[8] != (b[7] != (b[6] != (b[5] != (b[4] != (b[3] != (b[2] != (b[1] != b[0]))))))))))
  }

  lemma ParityIsXor(y: bv12)
    ensures XorBits(y) == (Bit(y, 11) != (Bit(y, 10) != (Bit(y, 9) != (Bit(y, 8) != (Bit(y, 7) != (Bit(y, 6) != 
            (Bit(y, 5) != (Bit(y, 4) != (Bit(y, 3) != (Bit(y, 2) != (Bit(y, 1) != Bit(y, 0))))))))))))
  {}

  /** Masking acts on every bit alone; m is the weight of the bit. */
  lemma MaskedWeight(x: bv12, poly: bv12, m: bv12)
    requires m & (m - 1) == 0
    ensures (x & poly) & m != 0 <==> x & m != 0 && poly & m != 0
  {}

  lemma MaskedBit(x: bv12, poly: bv12, k: nat)
    requires k < 12
    ensures Bit(x & poly, k) == (Bit(x, k) && Bit(poly, k))
  {
    hide Weight;
    MaskedWeight(x, poly, Weight(k));
  }

  lemma ParityOfMasked(x: bv12, poly: bv12)
    ensures XorBits(x & poly) == Xor12(StagesOf(x & poly))
    ensures forall k | 0 <= k < 12 :: StagesOf(x & poly)[k] == (StagesOf(x)[k] && StagesOf(poly)[k])
  {
    hide XorBits, Bit;
    ParityIsXor(x & poly);
    forall k: nat | k < 12
      ensures Bit(x & poly, k) == (Bit(x, k) && Bit(poly, k))
    {
      MaskedBit(x, poly, k);
    }
  }

  lemma FeedbackUnrolled(s: Stages, taps: set<nat>, b: Stages)
    requires forall k | 1 <= k <= 12 :: b[k - 1] == (k in taps && s[k - 1])
    ensures Feedback(s, taps, 12) == Xor12(b)
  {
    FeedbackPrefix(s, taps, b, 12);
    assert XorPrefix(b, 1) == (b[0] != XorPrefix(b, 0));
    assert XorPrefix(b, 2) == (b[1] != XorPrefix(b, 1));
    assert XorPrefix(b, 3) == (b[2] != XorPrefix(b, 2));
    assert XorPrefix(b, 4) == (b[3] != XorPrefix(b, 3));
    assert XorPrefix(b, 5) == (b[4] != XorPrefix(b, 4));
    assert XorPrefix(b, 6) == (b[5] != XorPrefix(b, 5));
    assert XorPrefix(b, 7) == (b[6] != XorPrefix(b, 6));
    assert XorPrefix(b, 8) == (b[7] != XorPrefix(b, 7));
    assert XorPrefix(b, 9) == (b[8] != XorPrefix(b, 8));
    assert XorPrefix(b, 10) == (b[9] != XorPrefix(b, 9));
    assert XorPrefix(b, 11) == (b[10] != XorPrefix(b, 10));
    assert XorPrefix(b, 12) == (b[11] != XorPrefix(b, 11));
  }

  ghost function XorPrefix(b: Stages, k: nat): bool
    requires k <= 12
  {
    if k == 0 then false else b[k - 1] != XorPrefix(b, k - 1)
  }

  lemma {:induction false} FeedbackPrefix(s: Stages, taps: set<nat>, b: Stages, k: nat)
    requires k <= 12 && forall k | 1 <= k <= 12 :: b[k - 1] == (k in taps && s[k - 1])
    ensures Feedback(s, taps, k) == XorPrefix(b, k)
  {
    if k > 0 {
      FeedbackPrefix(s, taps, b, k - 1);
    }
  }

  /** One shift of the word is one clock of the stages. */
  lemma ShiftIsClock(poly: bv12, taps: set<nat>, x: bv12)
    requires Selects(poly, taps)
    ensures StagesOf(Shift(poly, x)) == Clock(StagesOf(x), taps)
    ensures TopBit(x) == Output(StagesOf(x))
  {
    hide XorBits, StagesOf, TopBit, Feedback, Xor12;
    ParityOfMasked(x, poly);
    FeedbackUnrolled(StagesOf(x), taps, StagesOf(x & poly));
    ShiftedStages(x, XorBits(x & poly));
    TopBitIsOutput(x);
  }

  lemma ShiftedBit(x: bv12, lsb: bool, k: nat)
    requires k < 12
    ensures Bit((x << 1) + (if lsb then 1 else 0), k) == if k == 0 then lsb else Bit(x, k - 1)
  {}

  lemma ShiftedStages(x: bv12, lsb: bool)
    ensures StagesOf((x << 1) + (if lsb then 1 else 0)) == [lsb] + StagesOf(x)[..11]
  {
    hide Bit;
    var y := (x << 1) + (if lsb then 1 else 0);
    forall k: nat | k < 12
      ensures Bit(y, k) == if k == 0 then lsb else Bit(x, k - 1)
    {
      ShiftedBit(x, lsb, k);
    }
  }

  lemma TopBitIsOutput(x: bv12)
    ensures TopBit(x) == Output(StagesOf(x))
  {}

  /** The program's register follows the specification's for any number of clocks. */
  lemma {:induction false} ShiftedIsClocked(poly: bv12, taps: set<nat>, x: bv12, n: nat)
    requires Selects(poly, taps)
    ensures StagesOf(Shifted(poly, x, n)) == Clocked(StagesOf(x), taps, n)
    ensures TopBit(Shifted(poly, x, n)) == Output(Clocked(StagesOf(x), taps, n))
  {
    hide StagesOf, Shift, TopBit, Clock, Selects;
    ShiftIsClock(poly, taps, Shifted(poly, x, n));
    if n > 0 {
      ShiftedIsClocked(poly, taps, x, n - 1);
      ShiftIsClock(poly, taps, Shifted(poly, x, n - 1));
    }
  }
}
