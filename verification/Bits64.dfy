/** 64-bit words, wrapped so that reasoning about what is stored where does not look at their bits. */
module Bits64 {

  datatype Word = Word(bits: bv64)

  /** The bits selected by a mask. */
  function Masked(d: Word, msk: Word): Word { Word(AndBits(d.bits, msk.bits)) }

  function AndBits(x: bv64, y: bv64): bv64 { x & y }

  function Or64(x: Word, y: Word): Word { Word(x.bits | y.bits) }

  function Not64(x: Word): Word { Word(!x.bits) }

  function Add64(x: Word, y: Word): Word { Word(x.bits + y.bits) }

  /** Where two words differ under a mask. */
  function Differ(w: Word, r: Word, m: Word): Word { Word(DifferBits(w.bits, r.bits, m.bits)) }

  function DifferBits(w: bv64, r: bv64, m: bv64): bv64 { (w ^ r) & m }

  function Shl64(x: Word): Word { Word(x.bits << 1) }

  /** A one shifted in from the right. */
  function Push1(x: Word): Word { Word((x.bits << 1) | 1) }

  function Push8(x: Word): Word { Word((x.bits << 8) | 0xFF) }

  /** n ones. */
  function Ones(n: nat): Word {
    if n == 0 then Word(0) else Push1(Ones(n - 1))
  }

  function Nat64(x: Word): nat { x.bits as nat }

  function Word64(n: nat): Word
    requires n < 0x1_0000_0000_0000_0000
  {
    Word(n as bv64)
  }

  lemma {:induction false} PushEight(x: Word)
    ensures Push1(Push1(Push1(Push1(Push1(Push1(Push1(Push1(x)))))))) == Push8(x)
  {}

  lemma {:induction false} ShiftOr(x: Word, y: Word)
    ensures Or64(Push1(x), Shl64(y)) == Push1(Or64(x, y))
  {}

  lemma {:induction false} OrUnseen(x: Word, y: Word, z: Word)
    requires Masked(x, y) == Word(0) && Masked(x, z) == Word(0)
    ensures Masked(x, Or64(y, z)) == Word(0)
  {}

  lemma {:induction false} NoDifference(w: bv64, r: bv64, m: bv64)
    requires (w ^ r) & m == 0
    ensures w & m == r & m
  {}

  lemma {:induction false} Difference(w: bv64, r: bv64, m: bv64)
    requires w & m == r & m
    ensures (w ^ r) & m == 0
  {}

  lemma {:induction false} SameUnder(w: bv64, r: bv64, m: bv64)
    ensures (w ^ r) & m == 0 <==> r & m == w & m
  {
    if (w ^ r) & m == 0 {
      NoDifference(w, r, m);
    }
    if r & m == w & m {
      Difference(w, r, m);
    }
  }

  lemma {:induction false} SameBits(w: bv64, r: bv64, m: bv64)
    ensures DifferBits(w, r, m) == 0 <==> AndBits(r, m) == AndBits(w, m)
  {
    assert DifferBits(w, r, m) == (w ^ r) & m && AndBits(w, m) == w & m && AndBits(r, m) == r & m;
    hide *;
    SameUnder(w, r, m);
  }

  /** Words differ under a mask exactly when their masked values differ. */
  lemma {:induction false} DifferUnder(w: Word, r: Word, m: Word)
    ensures Differ(w, r, m) == Word(0) <==> Masked(r, m) == Masked(w, m)
  {
    hide DifferBits, AndBits;
    SameBits(w.bits, r.bits, m.bits);
  }

  lemma {:induction false} MaskTwice(r: bv64, m: bv64)
    ensures (r & m) & m == r & m
  {}

  lemma {:induction false} AndTwice(r: bv64, m: bv64)
    ensures AndBits(AndBits(r, m), m) == AndBits(r, m)
  {
    assert AndBits(AndBits(r, m), m) == (r & m) & m && AndBits(r, m) == r & m;
    hide *;
    MaskTwice(r, m);
  }

  lemma {:induction false} MaskedTwice(r: Word, m: Word)
    ensures Masked(Masked(r, m), m) == Masked(r, m)
  {
    hide AndBits;
    AndTwice(r.bits, m.bits);
  }

  lemma {:induction false} MaskedByAll(x: Word)
    ensures Masked(x, Word(0xFFFF_FFFF_FFFF_FFFF)) == x
  {}

  lemma {:induction false} MaskedByNone(x: Word)
    ensures Masked(x, Word(0)) == Word(0)
  {}

  /** The low 31 bits, and bit 31 with everything above. */
  lemma {:induction false} LowAndHigh(x: Word)
    requires Masked(x, Word(0x7FFF_FFFF)) == Word(0) && Masked(x, Word(0xFFFF_FFFF_8000_0000)) == Word(0)
    ensures x == Word(0)
  {}

  lemma {:induction false} NoneDiffer(w: Word, r: Word)
    ensures Differ(w, r, Word(0)) == Word(0)
  {}
}
