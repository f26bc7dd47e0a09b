/** The coarse-acquisition code (section 3.3.2.3 of IS-GPS-200): two recurrences and the tap pairs. */
module CaCode {
  import opened Bits

  /** Stage 10 of the G1 register after n clocks; generator 1 + X^3 + X^10, all stages start at one. */
  function G1(n: nat): (b: bv8)
    ensures b == 0 || b == 1
  {
    if n < 10 then 1 else G1(n - 3) ^ G1(n - 10)
  }

  /** The same for G2; generator 1 + X^2 + X^3 + X^6 + X^8 + X^9 + X^10. */
  function G2(n: nat): (b: bv8)
    ensures b == 0 || b == 1
  {
    if n < 10 then 1
    else G2(n - 2) ^ G2(n - 3) ^ G2(n - 6) ^ G2(n - 8) ^ G2(n - 9) ^ G2(n - 10)
  }

  /** The two G2 stages whose sum a satellite adds to G1; no satellite outside 1..37. */
  function Taps(svNum: int): (t: (nat, nat))
    requires 1 <= svNum <= 37
    ensures 1 <= t.0 < t.1 <= 10
  {
    match svNum
      case 1 => (2, 6)
      case 2 => (3, 7)
      case 3 => (4, 8)
      case 4 => (5, 9)
      case 5 => (1, 9)
      case 6 => (2, 10)
      case 7 => (1, 8)
      case 8 => (2, 9)
      case 9 => (3, 10)
      case 10 => (2, 3)
      case 11 => (3, 4)
      case 12 => (5, 6)
      case 13 => (6, 7)
      case 14 => (7, 8)
      case 15 => (8, 9)
      case 16 => (9, 10)
      case 17 => (1, 4)
      case 18 => (2, 5)
      case 19 => (3, 6)
      case 20 => (4, 7)
      case 21 => (5, 8)
      case 22 => (6, 9)
      case 23 => (1, 3)
      case 24 => (4, 6)
      case 25 => (5, 7)
      case 26 => (6, 8)
      case 27 => (7, 9)
      case 28 => (8, 10)
      case 29 => (1, 6)
      case 30 => (2, 7)
      case 31 => (3, 8)
      case 32 => (4, 9)
      case 33 => (5, 10)
      case 34 => (4, 10)
      case 35 => (1, 7)
      case 36 => (2, 8)
      case 37 => (4, 10)
  }

  ghost function Chip(svNum: int, n: nat): (b: bv8)
    ensures b == 0 || b == 1
  {
    if 1 <= svNum <= 37 then
      var t := Taps(svNum);
      G1(n) ^ G2(n + 10 - t.0) ^ G2(n + 10 - t.1)
    else 0
  }

  /** The next `count` chips as a number, first chip leading. */
  ghost function Word(svNum: int, n: nat, count: nat): (w: nat)
  {
    if count == 0 then 0
    else 2 * Word(svNum, n, count - 1) + if Chip(svNum, n + count - 1) == 1 then 1 else 0
  }

  lemma {:induction false} WordBound(svNum: int, n: nat, count: nat)
    ensures Word(svNum, n, count) < Pow2(count)
  {
    if count > 0 {
      WordBound(svNum, n, count - 1);
    }
  }

  lemma Recurrences(n: nat)
    ensures G1(n + 10) == G1(n + 7) ^ G1(n)
    ensures G2(n + 10) == G2(n + 8) ^ G2(n + 7) ^ G2(n + 4) ^ G2(n + 2) ^ G2(n + 1) ^ G2(n)
  {}

  class CaGenerator {
    const g1: array<bv8>
    const g2: array<bv8>
    var mExpCaCode0: nat
    var mExpCaCode1: nat

    ghost predicate Valid() {
      g1.Length == 11 && g2.Length == 11 && g1 != g2
    }

    /** Stage k of either register shows the sequence 10 - k clocks ahead of stage 10. */
    ghost predicate Clocked(n: nat)
      reads g1, g2
    {
      && Valid()
      && forall k | 1 <= k <= 10 :: g1[k] == G1(n + 10 - k) && g2[k] == G2(n + 10 - k)
    }

    constructor ()
      ensures Valid() && fresh(g1) && fresh(g2)
    {
      g1, g2 := new bv8[11], new bv8[11];
      mExpCaCode0, mExpCaCode1 := 0, 0;
    }

    method Reset()
      requires Valid()
      modifies g1, g2
      ensures Clocked(0)
    {
      var i := 0;
      while i < 11
        invariant 0 <= i <= 11
        invariant forall k | 0 <= k < i :: g1[k] == 1 && g2[k] == 1
      {
        g1[i], g2[i] := 1, 1;
        i := i + 1;
      }
    }

    /** One clock of both registers; entry 0 holds the fed-back bit. */
    method Shift(ghost n: nat)
      requires Clocked(n)
      modifies g1, g2
      ensures Clocked(n + 1)
    {
      Recurrences(n);
      hide G1, G2;
      g1[0] := g1[3] ^ g1[10];
      g2[0] := g2[2] ^ g2[3] ^ g2[6] ^ g2[8] ^ g2[9] ^ g2[10];
      var j := 10;
      while j > 0
        invariant 0 <= j <= 10
        invariant forall k | 0 <= k <= j :: g1[k] == G1(n + 10 - k) && g2[k] == G2(n + 10 - k)
        invariant forall k | j < k <= 10 :: g1[k] == G1(n + 11 - k) && g2[k] == G2(n + 11 - k)
      {
        g1[j] := g1[j - 1];
        g2[j] := g2[j - 1];
        j := j - 1;
      }
    }

    /**
     Thirteen chips. The driver keeps bits 0 to 7 and bits 16 to 23 of the word: the second
     byte is always zero and the first five of the thirteen chips are dropped.
     */
    method Generate(svNum: int, ghost n: nat)
      requires Clocked(n)
      modifies g1, g2, this
      ensures Clocked(n + 13)
      ensures mExpCaCode0 == Word(svNum, n + 5, 8)
      ensures mExpCaCode1 == 0
    {
      hide G1, G2, Word;
      var caCode := 0;
      WordStep(svNum, n, 0);
      var i := 0;
      while i < 13
        invariant 0 <= i <= 13
        invariant Clocked(n + i)
        invariant caCode == Word(svNum, n, i)
      {
        var chip := NextChip(svNum, n + i);
        WordStep(svNum, n, i);
        caCode := 2 * caCode + if chip & 1 == 1 then 1 else 0;
        Shift(n + i);
        i := i + 1;
      }
      KeptBits(svNum, n);
      mExpCaCode0 := caCode % 256;
      mExpCaCode1 := (caCode / 0x1_0000) % 256;
    }

    /** The chip the switch over satellites selects. */
    method NextChip(svNum: int, ghost n: nat) returns (chip: bv8)
      requires Clocked(n)
      ensures chip == Chip(svNum, n) && (chip == 0 || chip == 1)
    {
      hide G1, G2;
      chip := 0;
      if 1 <= svNum <= 37 {
        var t := Taps(svNum);
        chip := g1[10] ^ g2[t.0] ^ g2[t.1];
      }
    }
  }

  lemma WordStep(svNum: int, n: nat, i: nat)
    ensures Word(svNum, n, 0) == 0
    ensures Word(svNum, n, i + 1) == 2 * Word(svNum, n, i) + if Chip(svNum, n + i) == 1 then 1 else 0
  {}

  lemma KeptBits(svNum: int, n: nat)
    ensures Word(svNum, n, 13) % 256 == Word(svNum, n + 5, 8) && Word(svNum, n, 13) < 8192
  {
    WordTail(svNum, n, 5, 8);
    WordBound(svNum, n, 13);
    WordBound(svNum, n + 5, 8);
    assert Pow2(8) == 256;
    assert Pow2(13) == 8192;
    hide Word;
  }

  /** The word splits into a leading and a trailing part. */
  lemma {:induction false} WordTail(svNum: int, n: nat, head: nat, count: nat)
    ensures Word(svNum, n, head + count) == Word(svNum, n, head) * Pow2(count) + Word(svNum, n + head, count)
  {
    hide Word, Chip;
    WordStep(svNum, n + head, 0);
    if count == 0 {
      assert Pow2(0) == 1;
    } else {
      WordTail(svNum, n, head, count - 1);
      WordStep(svNum, n, head + count - 1);
      WordStep(svNum, n + head, count - 1);
      Doubled(Word(svNum, n, head), Pow2(count - 1));
    }
  }

  lemma Doubled(w: nat, p: nat)
    ensures w * (2 * p) == 2 * (w * p)
  {}
}
