/** The memory-test engine: pattern setters, the compare, and the tests over one memory. */
module MemTest {
  import opened Bits
  import opened Bits64
  import opened MemAccess
  import opened MemPatterns
  import opened MemRuns
  import opened MemTheorems
  import opened Wrappers

  lemma {:induction false} OnesNext(n: nat)
    ensures Ones(n + 1) == Push1(Ones(n))
  {
    hide Push1;
  }

  lemma {:induction false} OnesByte(n: nat)
    ensures Ones(n + 8) == Push8(Ones(n))
  {
    hide *;
    OnesNext(n);
    OnesNext(n + 1);
    OnesNext(n + 2);
    OnesNext(n + 3);
    OnesNext(n + 4);
    OnesNext(n + 5);
    OnesNext(n + 6);
    OnesNext(n + 7);
    PushEight(Ones(n));
  }

  lemma {:induction false} OnesIsMask(c: Config)
    requires c.Valid()
    ensures Ones(c.datSize) == Mask(c)
  {
    assert Ones(0) == Word(0);
    hide Ones;
    OnesByte(0);
    OnesByte(8);
    OnesByte(16);
    OnesByte(24);
    OnesByte(32);
    OnesByte(40);
    OnesByte(48);
    OnesByte(56);
  }

  // ----- the compare looks at 32 single bits, the last one widened with its sign

  lemma {:induction false} Shl1Next(n: nat)
    requires 0 < n < 31
    ensures Shl1(n) == Shl64(Shl1(n - 1))
  {}

  lemma {:induction false} OnesShl1(n: nat)
    requires n < 31
    ensures Or64(Ones(n), Shl1(n)) == Ones(n + 1)
  {
    if n == 0 {
      assert Ones(0) == Word(0) && Ones(1) == Word(1) && Shl1(0) == Word(1);
      hide Ones, Shl1;
    } else {
      hide *;
      OnesShl1(n - 1);
      OnesNext(n);
      OnesNext(n - 1);
      Shl1Next(n);
      ShiftOr(Ones(n - 1), Shl1(n - 1));
    }
  }

  lemma {:induction false} BitsSeen(x: Word, n: nat)
    requires n <= 31 && forall b | 0 <= b < n :: Masked(x, Shl1(b)) == Word(0)
    ensures Masked(x, Ones(n)) == Word(0)
  {
    if n == 0 {
      assert Ones(0) == Word(0);
      hide *;
      MaskedByNone(x);
    } else {
      hide *;
      BitsSeen(x, n - 1);
      OnesShl1(n - 1);
      OrUnseen(x, Ones(n - 1), Shl1(n - 1));
    }
  }

  lemma {:induction false} Ones31()
    ensures Ones(31) == Word(0x7FFF_FFFF)
  {
    assert Ones(7) == Word(0x7F);
    hide Ones;
    OnesByte(7);
    OnesByte(15);
    OnesByte(23);
  }

  /** The 32 single-bit tests miss no bit of a 64-bit word. */
  lemma {:induction false} AllBitsSeen(x: Word)
    requires forall b | 0 <= b < 32 :: Masked(x, Shl1(b)) == Word(0)
    ensures x == Word(0)
  {
    assert Masked(x, Shl1(31)) == Word(0);
    assert Shl1(31) == Word(0xFFFF_FFFF_8000_0000);
    hide *;
    BitsSeen(x, 31);
    Ones31();
    LowAndHigh(x);
  }

  /** The bits of a datSize-wide word that fall into its i-th 64-bit part. */
  function PartBits(datSize: nat, i: nat): nat {
    if datSize <= 64 * i then 0 else if datSize >= 64 * i + 64 then 64 else datSize - 64 * i
  }

  lemma {:induction false} FullOnes()
    ensures Ones(0) == Word(0) && Ones(64) == Word(0xFFFF_FFFF_FFFF_FFFF)
  {
    assert Ones(0) == Word(0);
    OnesIsMask(Config(0, 64, 1, Word(0), Word(0), 0));
    hide Ones;
  }

  /** The conversion to the type of the access. */
  function Truncated(datSize: nat, x: Word): Word {
    if datSize == 8 then Masked(x, Word(0xFF)) else if datSize == 16 then Masked(x, Word(0xFFFF))
    else if datSize == 32 then Masked(x, Word(0xFFFF_FFFF)) else x
  }

  /** An access of the configured width carries the masked word. */
  lemma {:induction false} WidthIs(c: Config, x: Word)
    requires c.Valid()
    ensures Masked(x, Mask(c)) == Truncated(c.datSize, x)
  {
    MaskedByAll(x);
    hide Masked;
  }

  ghost function RandomValue(seed: nat, n: nat): Word {
    Word64(Random(seed, n + 1))
  }

  /** The first position written, the position of the i-th value, and the value that lands in word 0. */
  function FirstSlot(seed: nat): (k: nat)
    ensures k < 15
  {
    seed % 15
  }

  function Slot(first: nat, i: nat): (k: nat)
    ensures k < 16
  {
    (first + i) % 16
  }

  function WordZero(first: nat): (k: nat)
    ensures k < 16
  {
    (16 - first % 16) % 16
  }

  lemma {:induction false} RandomWordIs(s: nat)
    ensures RandomWord(s) == RandomValue(s, WordZero(FirstSlot(s)))
  {
    assert (16 - s % 15) % 16 == WordZero(FirstSlot(s));
    hide Word64, NextRandom;
  }

  lemma {:induction false} NoRandom(s: nat)
    ensures Random(s, 0) == s
  {}

  lemma {:induction false} RandomNext(s: nat, i: nat)
    ensures Random(s, i + 1) == NextRandom(Random(s, i)) && RandomValue(s, i) == Word64(Random(s, i + 1))
  {
    hide NextRandom, Word64;
  }

  lemma {:induction false} SlotZero(first: nat, i: nat)
    requires first < 15 && i < 16
    ensures Slot(first, i) == 0 <==> i == WordZero(first)
  {}

  function Then1(at: seq<Event>, e: Event): seq<Event> {
    at + [e]
  }

  /** The distance of a walk's address from its end of the range. */
  function WalkOffset(kind: Kind, i: nat): nat {
    if kind.OneAdr? || kind.ZeroAdr? then Pow2(i) else 3 * i
  }

  lemma {:induction false} OffsetIs(c: Config, kind: Kind, i: nat)
    requires c.Valid() && i < WalkCount(c, kind)
    ensures var p, m := WalkOffset(kind, i), Size(c) - 1;
            && p <= m <= 0x3FFF_FFFF
            && (kind.OneAdr? || kind.ZeroDat? ==> p == WalkAdr(c, kind, i))
            && (kind.ZeroAdr? || kind.OneDat? ==> m - p == WalkAdr(c, kind, i))
  {
    WalkIs(c, kind, i);
    hide Pow2, WalkAdr, WalkPattern, WalkCount, Config.Valid;
  }

  lemma {:induction false} WalkMasked(c: Config, kind: Kind, i: nat)
    requires c.Valid() && i < WalkCount(c, kind)
    ensures var p, m := WalkOffset(kind, i), Size(c) - 1;
            && p <= m <= 0x3FFF_FFFF
            && (kind.OneAdr? || kind.ZeroDat? ==> And(p, m) == WalkAdr(c, kind, i))
            && (kind.OneDat? ==> m - p == WalkAdr(c, kind, i))
            && (kind.ZeroAdr? ==> And(0xFFFF_FFFF_FFFF_FFFF - p, m) == WalkAdr(c, kind, i))
  {
    hide *;
    OffsetIs(c, kind, i);
    Masks(c, WalkOffset(kind, i));
  }

  lemma {:induction false} WalkIs(c: Config, kind: Kind, i: nat)
    requires c.Valid() && i < WalkCount(c, kind)
    ensures Size(c) <= 0x4000_0000
    ensures kind.OneAdr? || kind.ZeroAdr? ==> Pow2(i) < Size(c)
    ensures kind.OneAdr? ==> i < c.adrSize && WalkAdr(c, kind, i) == Pow2(i)
    ensures kind.ZeroAdr? ==> i < c.adrSize && WalkAdr(c, kind, i) == Size(c) - 1 - Pow2(i)
    ensures kind.OneAdr? || kind.ZeroAdr? ==> WalkPattern(c, kind, i) == AddressPattern(c, WalkAdr(c, kind, i))
    ensures kind.OneDat? ==> i < 64 && 3 * i < Size(c) && WalkAdr(c, kind, i) == Size(c) - 1 - 3 * i
    ensures kind.OneDat? ==> WalkPattern(c, kind, i) == if i < 32 then Shl1(i) else Word(0)
    ensures kind.ZeroDat? ==> i < 64 && 3 * i < Size(c) && WalkAdr(c, kind, i) == 3 * i
    ensures kind.ZeroDat? ==> WalkPattern(c, kind, i) == if i < 32 then Not64(Shl1(i)) else Word(0xFFFF_FFFF)
  {
    WalkFits(c, kind, i);
    BoundedSize(c);
    hide AddressPattern, Shl1, Not64, Pow2;
  }

  /** The address mask keeps addresses in range and turns the complement of one into the size less one less it. */
  lemma {:induction false} Masks(c: Config, adr: nat)
    requires c.Valid() && adr < Size(c)
    ensures And(adr, Size(c) - 1) == adr
    ensures And(0xFFFF_FFFF_FFFF_FFFF - adr, Size(c) - 1) == Size(c) - 1 - adr
  {
    var n := c.adrSize;
    assert n <= 30 && Size(c) == Pow2(n);
    hide *;
    AndMask(adr, n);
    AndMask(0xFFFF_FFFF_FFFF_FFFF - adr, n);
    Pow2Add(64 - n, n);
    Pow2Of64();
    MaskArithmetic(Pow2(64 - n), Pow2(n), adr);
  }

  lemma {:induction false} MaskArithmetic(k: nat, m: nat, adr: nat)
    requires k > 0 && adr < m && k * m == 0x1_0000_0000_0000_0000
    ensures adr % m == adr && (0xFFFF_FFFF_FFFF_FFFF - adr) % m == m - 1 - adr
  {
    assert (k - 1) * m == k * m - m;
    DivModUnique(0xFFFF_FFFF_FFFF_FFFF - adr, m, k - 1, m - 1 - adr);
    DivModUnique(adr, m, 0, adr);
  }

  class MemBaseTest {
    const mBAR: Word
    const mAdrSize: nat
    const mDatSize: nat
    const mStep: nat
    const mSeed: Word
    var mCheckerMask: nat
    var adrMask: nat
    var random: nat
    const wrPat: array<Word>
    const rdPat: array<Word>
    const mskPat: array<Word>
    // the memory under test, and what it has seen so far
    const memory: Device
    var seen: seq<Event>

    function Cfg(): Config
      reads this`mCheckerMask
    {
      Config(mAdrSize, mDatSize, mStep, mBAR, mSeed, mCheckerMask)
    }

    ghost predicate Valid()
      reads this`mCheckerMask, this`adrMask, mskPat
    {
      && Cfg().Valid() && adrMask == Size(Cfg()) - 1
      && wrPat.Length == 16 && rdPat.Length == 16 && mskPat.Length == 16
      && wrPat != rdPat && wrPat != mskPat && rdPat != mskPat
      && mskPat[0] == Mask(Cfg()) && forall i | 0 < i < 16 :: mskPat[i] == Word(0)
    }

    constructor (baseAdr: Word, adrSize: nat, datSize: nat, step: nat, seed: Word, memory: Device)
      requires Config(adrSize, datSize, step, baseAdr, seed, 0xFF).Valid()
      ensures Valid() && Cfg() == Config(adrSize, datSize, step, baseAdr, seed, 0xFF)
      ensures this.memory == memory && seen == []
      ensures fresh(wrPat) && fresh(rdPat) && fresh(mskPat)
    {
      mBAR, mAdrSize, mDatSize, mStep, mSeed := baseAdr, adrSize, datSize, step, seed;
      mCheckerMask, adrMask, random := 0xFF, 0, 0;
      this.memory, seen := memory, [];
      wrPat := new Word[16](i => Word(0));
      rdPat := new Word[16](i => Word(0));
      mskPat := new Word[16](i => Word(0));
      new;
      SetDatMsk();
      SetAdrMsk();
      FullOnes();
      OnesIsMask(Cfg());
      hide Ones, Mask;
    }

    method SetDatMsk()
      requires mskPat.Length == 16
      modifies mskPat
      ensures forall i | 0 <= i < 16 :: mskPat[i] == Ones(PartBits(mDatSize, i))
    {
      var wrdSize := mDatSize / 64 + if mDatSize % 64 != 0 then 1 else 0;
      var whichBit := mDatSize % 64;
      FullOnes();
      hide Ones, Push1;
      for i := 0 to 16
        invariant whichBit == mDatSize % 64 || (whichBit == 64 && mDatSize % 64 == 0)
        invariant forall j | 0 <= j < i :: mskPat[j] == Ones(PartBits(mDatSize, j))
      {
        if i >= wrdSize {
          mskPat[i] := Word(0);
        } else if i < wrdSize - 1 {
          mskPat[i] := Word(0xFFFF_FFFF_FFFF_FFFF);
        } else {
          if whichBit == 0 {
            whichBit := 64;
          }
          var msk := Word(0);
          for j := 0 to whichBit
            invariant msk == Ones(j)
            invariant forall k | 0 <= k < i :: mskPat[k] == Ones(PartBits(mDatSize, k))
          {
            OnesNext(j);
            msk := Push1(msk);
          }
          assert PartBits(mDatSize, i) == whichBit;
          mskPat[i] := msk;
        }
      }
    }

    method SetAdrMsk()
      requires Cfg().Valid()
      modifies this`adrMask
      ensures adrMask == Size(Cfg()) - 1
    {
      adrMask := 0;
      for i := 0 to mAdrSize
        invariant adrMask == Pow2(i) - 1
      {
        // or-ing a run of ones with itself shifted and extended keeps the longer run
        OrRun(i);
        adrMask := Or(adrMask, 2 * adrMask + 1);
      }
    }
  
    // ----- reading, writing and comparing

    method WriteEntry(adr: nat)
      requires Valid()
      modifies this`seen
      ensures Valid()
      ensures seen == Then1(old(seen), Wr(adr, Masked(wrPat[0], Mask(Cfg()))))
    {
      WidthIs(Cfg(), wrPat[0]);
      hide Masked, Mask, Truncated;
      seen := seen + [Wr(adr, Truncated(mDatSize, wrPat[0]))];
    }

    method ReadEntry(adr: nat)
      requires Valid()
      modifies rdPat, this`seen
      ensures Valid()
      ensures seen == Then1(old(seen), Rd(adr)) && rdPat[0] == Masked(memory(old(seen), adr), Mask(Cfg()))
    {
      WidthIs(Cfg(), memory(seen, adr));
      hide Masked, Mask, Truncated;
      rdPat[0] := Truncated(mDatSize, memory(seen, adr));
      seen := seen + [Rd(adr)];
    }

    /** Counts differing bits; bit 31 of the test word carries its sign into the upper half. */
    method NotEqual() returns (errCnt: nat)
      requires Valid()
      ensures errCnt == 0 <==> forall i | 0 <= i < 16 :: Differ(wrPat[i], rdPat[i], mskPat[i]) == Word(0)
    {
      assert wrPat.Length == 16 && rdPat.Length == 16 && mskPat.Length == 16;
      hide Differ, Masked, Shl1, Cfg, Valid;
      errCnt := 0;
      for i := 0 to 16
        invariant wrPat.Length == 16 && rdPat.Length == 16 && mskPat.Length == 16
        invariant errCnt == 0 <==> forall j | 0 <= j < i :: Differ(wrPat[j], rdPat[j], mskPat[j]) == Word(0)
      {
        var x := Differ(wrPat[i], rdPat[i], mskPat[i]);
        if x != Word(0) {
          ghost var before := errCnt;
          for b := 0 to 32
            invariant errCnt >= before
            invariant errCnt == before ==> forall k | 0 <= k < b :: Masked(x, Shl1(k)) == Word(0)
          {
            if Masked(x, Shl1(b)) != Word(0) {
              errCnt := errCnt + 1;
            }
          }
          if errCnt == before {
            AllBitsSeen(x);
          }
        }
      }
    }

    /** Zero exactly when the memory returns the pattern under the data mask. */
    method ReadEntryNCompare(adr: nat) returns (errCnt: nat)
      requires Valid()
      modifies rdPat, this`seen
      ensures Valid()
      ensures seen == Then1(old(seen), Rd(adr)) && errCnt <= 1
      ensures errCnt == 0 <==>
              Masked(memory(old(seen), adr), Mask(Cfg())) == Masked(wrPat[0], Mask(Cfg()))
    {
      for i := 0 to 16
        invariant Valid() && seen == old(seen)
      {
        rdPat[i] := Word(0xDEAD_BEEF);
      }
      ReadEntry(adr);
      var bitErrCnt := NotEqual();
      ghost var msk := Mask(Cfg());
      DifferUnder(wrPat[0], rdPat[0], msk);
      MaskedTwice(memory(old(seen), adr), msk);
      forall i | 0 < i < 16
        ensures Differ(wrPat[i], rdPat[i], mskPat[i]) == Word(0)
      {
        NoneDiffer(wrPat[i], rdPat[i]);
      }
      hide Masked, Mask, Differ, Valid, Cfg;
      errCnt := if bitErrCnt != 0 then 1 else 0;
    }

    // ----- pattern setters

    method Set1Pattern(bitPos: nat)
      requires wrPat.Length == 16 && bitPos < 512
      modifies wrPat
      ensures wrPat[0] == if bitPos < 32 then Shl1(bitPos) else Word(0)
    {
      for i := 0 to 16
        invariant forall j | 0 <= j < i :: wrPat[j] == Word(0)
      {
        wrPat[i] := Word(0);
      }
      wrPat[bitPos / 32] := Shl1(bitPos % 32);
    }

    method Set0Pattern(bitPos: nat)
      requires wrPat.Length == 16 && bitPos < 512
      modifies wrPat
      ensures wrPat[0] == if bitPos < 32 then Not64(Shl1(bitPos)) else Word(0xFFFF_FFFF)
    {
      for i := 0 to 16
        invariant forall j | 0 <= j < i :: wrPat[j] == Word(0xFFFF_FFFF)
      {
        wrPat[i] := Word(0xFFFF_FFFF);
      }
      wrPat[bitPos / 32] := Not64(Shl1(bitPos % 32));
    }

    method SetIncPattern(startPat: Word)
      requires wrPat.Length == 16
      modifies wrPat
      ensures wrPat[0] == startPat
    {
      var pat := startPat;
      for i := 0 to 16
        invariant i == 0 ==> pat == startPat
        invariant i > 0 ==> wrPat[0] == startPat
      {
        wrPat[i] := pat;
        pat := Add64(pat, Word(1));
      }
    }

    method RepPattern(pat: Word)
      requires wrPat.Length == 16
      modifies wrPat
      ensures forall i | 0 <= i < 16 :: wrPat[i] == if i % 2 == 1 then Not64(pat) else pat
    {
      hide Not64;
      for i := 0 to 16
        invariant forall j | 0 <= j < i :: wrPat[j] == if j % 2 == 1 then Not64(pat) else pat
      {
        wrPat[i] := if i % 2 == 1 then Not64(pat) else pat;
      }
    }

    method InvPattern()
      requires wrPat.Length == 16
      modifies wrPat
      ensures forall i | 0 <= i < 16 :: wrPat[i] == Not64(old(wrPat[i]))
    {
      hide Not64;
      for i := 0 to 16
        invariant forall j | 0 <= j < i :: wrPat[j] == Not64(old(wrPat[j]))
        invariant forall j | i <= j < 16 :: wrPat[j] == old(wrPat[j])
      {
        wrPat[i] := Not64(wrPat[i]);
      }
    }

    /** Sixteen values of the generator, stored from a position that depends on the seed. */
    method FillRandom(s: nat)
      requires wrPat.Length == 16
      modifies wrPat, this`random
      ensures wrPat[0] == RandomValue(s, WordZero(FirstSlot(s)))
    {
      var sidx := FirstSlot(s);
      random := s;
      NoRandom(s);
      hide *;
      for i := 0 to 16
        invariant random == Random(s, i)
        invariant i > WordZero(sidx) ==> wrPat[0] == RandomValue(s, WordZero(sidx))
      {
        RandomNext(s, i);
        SlotZero(sidx, i);
        random := NextRandom(random);
        wrPat[Slot(sidx, i)] := Word64(random);
      }
    }

    method SetRandomPattern(seed: Word)
      requires wrPat.Length == 16
      modifies wrPat, this`random
      ensures wrPat[0] == RandomWord(Nat64(Add64(seed, mSeed)))
    {
      hide *;
      var s := Nat64(Add64(seed, mSeed));
      FillRandom(s);
      RandomWordIs(s);
    }

    /** The random pattern seeded with the bus address. */
    method SetAddressPattern(adr: nat)
      requires Valid() && adr < Size(Cfg())
      modifies wrPat, this`random
      ensures Valid()
      ensures wrPat[0] == AddressPattern(Cfg(), adr)
    {
      BoundedSize(Cfg());
      hide RandomWord, Wide, Mask, Pow2, Nat64, Add64, Or64;
      SetRandomPattern(Or64(mBAR, Wide(adr)));
    }

    /** The address-dependent pattern of a range pass. */
    method SetPattern(p: Pat, adr: nat)
      requires Valid() && adr < Size(Cfg())
      modifies wrPat
      ensures Valid()
      ensures wrPat[0] == Pattern(Cfg(), p, adr)
    {
      BoundedSize(Cfg());
      hide Not64, Wide, Shl1, Mask, Pow2;
      match p
      case Inc =>
        var wrdSize := mDatSize / 32 + if mDatSize % 32 != 0 then 1 else 0;
        assert wrdSize == Words(Cfg());
        if adr % 2 == 1 {
          SetIncPattern(Not64(Wide(adr * wrdSize)));
        } else {
          SetIncPattern(Wide(adr * wrdSize));
        }
      case Rep(w) =>
        RepPattern(w);
        if adr % 2 == 1 {
          InvPattern();
        }
    }

    method WalkAddress(kind: Kind, i: nat) returns (curAdr: nat)
      requires Valid() && i < WalkCount(Cfg(), kind)
      ensures curAdr == WalkAdr(Cfg(), kind, i)
    {
      WalkMasked(Cfg(), kind, i);
      var p := WalkOffset(kind, i);
      assert adrMask == Size(Cfg()) - 1;
      hide *;
      match kind
      case OneAdr =>
        curAdr := And(p, adrMask);
      case ZeroAdr =>
        curAdr := And(0xFFFF_FFFF_FFFF_FFFF - p, adrMask);
      case OneDat =>
        curAdr := adrMask - p;
      case ZeroDat =>
        curAdr := And(p, adrMask);
    }

    /** The address and the pattern of the i-th visit of a walk. */
    method SetWalk(kind: Kind, i: nat) returns (curAdr: nat)
      requires Valid() && i < WalkCount(Cfg(), kind)
      modifies wrPat, this`random
      ensures Valid()
      ensures curAdr == WalkAdr(Cfg(), kind, i) && wrPat[0] == WalkPattern(Cfg(), kind, i)
    {
      curAdr := WalkAddress(kind, i);
      WalkIs(Cfg(), kind, i);
      hide Not64, Shl1, Mask, AddressPattern, WalkAdr, WalkPattern, WalkCount, Pow2;
      match kind
      case OneAdr => SetAddressPattern(curAdr);
      case ZeroAdr => SetAddressPattern(curAdr);
      case OneDat => Set1Pattern(i);
      case ZeroDat => Set0Pattern(i);
    }

    // ----- the tests

    method WriteVisit(kind: Kind, i: nat)
      requires Valid() && i < WalkCount(Cfg(), kind)
      modifies wrPat, this`random, this`seen
      ensures Valid()
      ensures seen == Then1(old(seen), Wr(WalkAdr(Cfg(), kind, i), Masked(WalkPattern(Cfg(), kind, i), Mask(Cfg()))))
    {
      hide *;
      var curAdr := SetWalk(kind, i);
      WriteEntry(curAdr);
    }

    method CheckVisit(kind: Kind, i: nat) returns (errCnt: nat)
      requires Valid() && i < WalkCount(Cfg(), kind)
      modifies wrPat, rdPat, this`random, this`seen
      ensures Valid() && seen == Then1(old(seen), Rd(WalkAdr(Cfg(), kind, i)))
      ensures errCnt == 0 <==> Masked(memory(old(seen), WalkAdr(Cfg(), kind, i)), Mask(Cfg())) ==
                               Masked(WalkPattern(Cfg(), kind, i), Mask(Cfg()))
    {
      assert wrPat != rdPat && wrPat.Length == 16;
      hide *;
      var curAdr := SetWalk(kind, i);
      errCnt := ReadEntryNCompare(curAdr);
    }

    method WalkVisit(kind: Kind, i: nat, ghost h: seq<Event>) returns (errCnt: nat)
      requires Valid() && i < WalkCount(Cfg(), kind) == Count(Cfg(), Walk(kind, false))
      requires Ran(Cfg(), memory, h, seen, Walk(kind, false), i)
      modifies wrPat, rdPat, this`random, this`seen
      ensures Valid()
      ensures if errCnt == 0 then Ran(Cfg(), memory, h, seen, Walk(kind, false), i + 1)
              else Did(Cfg(), memory, h, seen, [Walk(kind, false)], errCnt)
    {
      assert Cfg().Valid();
      hide *;
      errCnt := CheckVisit(kind, i);
      WalkChecked(Cfg(), memory, h, old(seen), seen, kind, i, errCnt);
    }

    method WalkWrite(kind: Kind)
      requires Valid()
      modifies wrPat, this`random, this`seen
      ensures Valid() && Did(Cfg(), memory, old(seen), seen, [Walk(kind, true)], 0)
    {
      assert Cfg().Valid();
      hide *;
      var n := WalkCount(Cfg(), kind);
      ghost var c, e := Cfg(), Walk(kind, true);
      WalkLength(c, kind, true);
      Start(c, memory, seen, e);
      for i := 0 to n
        invariant Valid() && Ran(c, memory, old(seen), seen, e, i)
      {
        ghost var at := seen;
        WriteVisit(kind, i);
        WalkWrote(c, memory, old(seen), at, seen, kind, i);
      }
      Finish(c, memory, old(seen), seen, e);
    }

    method WalkCheck(kind: Kind) returns (errCnt: nat)
      requires Valid()
      modifies wrPat, rdPat, this`random, this`seen
      ensures Valid() && Did(Cfg(), memory, old(seen), seen, [Walk(kind, false)], errCnt)
    {
      assert Cfg().Valid();
      hide *;
      var n := WalkCount(Cfg(), kind);
      ghost var c, e := Cfg(), Walk(kind, false);
      WalkLength(c, kind, false);
      errCnt := 0;
      Start(c, memory, seen, e);
      for i := 0 to n
        invariant Valid() && Ran(c, memory, old(seen), seen, e, i) && errCnt == 0
      {
        errCnt := WalkVisit(kind, i, old(seen));
        if errCnt >= 1 { return; }
      }
      Finish(c, memory, old(seen), seen, e);
    }

    /** One of the four walking tests: writing, checking, or both. */
    method WalkTest(kind: Kind, doWrite: bool, rdNCheck: bool) returns (errCnt: nat)
      requires Valid()
      modifies wrPat, rdPat, this`random, this`seen
      ensures Valid() && Did(Cfg(), memory, old(seen), seen, WalkPasses(kind, doWrite, rdNCheck), errCnt)
      ensures errCnt > 0 ==> rdNCheck
    {
      assert Cfg().Valid();
      hide Valid, Did, Config.Valid;
      errCnt := 0;
      ghost var before := seen;
      NoPasses(Cfg(), memory, seen);
      if doWrite {
        WalkWrite(kind);
      }
      if rdNCheck {
        ghost var mid := seen;
        errCnt := WalkCheck(kind);
        Then(Cfg(), memory, before, mid, seen, if doWrite then [Walk(kind, true)] else [], [Walk(kind, false)], errCnt);
      }
    }

    /** One visit of a range pass: check, then write; a disabled pattern does neither. */
    method VisitEntry(read: Option<Pat>, write: Option<Pat>, adr: nat) returns (errCnt: nat)
      requires Valid() && adr < Size(Cfg())
      modifies wrPat, rdPat, this`seen
      ensures Valid()
      ensures errCnt == 0 <==>
              (read.Some? ==> Masked(memory(old(seen), adr), Mask(Cfg())) == PatternAt(Cfg(), read, adr).value)
      ensures errCnt > 0 ==> read.Some?
      ensures errCnt == 0 ==> seen == old(seen) + BusOf(adr, PatternAt(Cfg(), read, adr), PatternAt(Cfg(), write, adr))
    {
      assert Cfg().Valid();
      PatternAtIs(Cfg(), read, adr);
      PatternAtIs(Cfg(), write, adr);
      hide *;
      errCnt := 0;
      if read.Some? {
        SetPattern(read.value, adr);
        errCnt := ReadEntryNCompare(adr);
        if errCnt >= 1 {
          return;
        }
      }
      if write.Some? {
        SetPattern(write.value, adr);
        WriteEntry(adr);
      }
    }

    /** The n-th visit of a range pass that started at h. */
    method RangeVisit(read: Option<Pat>, write: Option<Pat>, adr: nat, ghost h: seq<Event>, ghost e: Pass, ghost n: nat)
      returns (errCnt: nat)
      requires Valid() && e.Range? && e == Range(e.up, read, write) && n < Visits(Cfg()) == Count(Cfg(), e)
      requires adr == (if e.up then n else Visits(Cfg()) - 1 - n) * mStep
      requires Ran(Cfg(), memory, h, seen, e, n)
      modifies wrPat, rdPat, this`seen
      ensures Valid()
      ensures if errCnt == 0 then Ran(Cfg(), memory, h, seen, e, n + 1)
              else read.Some? && Did(Cfg(), memory, h, seen, [e], errCnt)
    {
      ghost var c, at := Cfg(), seen;
      assert c.Valid() && c.step == mStep;
      hide *;
      RangeDoes(c, e, n);
      errCnt := VisitEntry(read, write, adr);
      if errCnt >= 1 {
        Fail(c, memory, h, at, seen, e, n, errCnt);
      } else {
        Next(c, memory, h, at, seen, e, n);
      }
    }

    /** From address 0 upwards. */
    method RangeUp(read: Option<Pat>, write: Option<Pat>) returns (errCnt: nat, lastLoc: nat)
      requires Valid()
      modifies wrPat, rdPat, this`seen
      ensures Valid() && Did(Cfg(), memory, old(seen), seen, [Range(true, read, write)], errCnt)
      ensures errCnt == 0 ==> lastLoc == (Visits(Cfg()) - 1) * mStep
      ensures errCnt > 0 ==> read.Some?
    {
      ghost var c, e := Cfg(), Range(true, read, write);
      ghost var n: nat := 0;
      var i := 0;
      errCnt, lastLoc := 0, 0;
      assert c.Valid() && c.step == mStep > 0 && Count(c, e) == Visits(c) && Pow2(mAdrSize) == Size(c);
      VisitRange(c, 0);
      hide *;
      Start(c, memory, seen, e);
      while i < Pow2(mAdrSize)
        invariant Valid() && n <= Visits(c) && Ran(c, memory, old(seen), seen, e, n) && errCnt == 0
        invariant i == n * mStep && (n > 0 ==> lastLoc == (n - 1) * mStep)
        decreases Pow2(mAdrSize) - i
      {
        VisitRange(c, n);
        lastLoc := i;
        errCnt := RangeVisit(read, write, i, old(seen), e, n);
        if errCnt >= 1 { return; }
        Onward(n, mStep);
        i := i + mStep;
        n := n + 1;
      }
      VisitRange(c, n);
      Finish(c, memory, old(seen), seen, e);
    }

    /** From the last location visited on the way up, downwards. */
    method RangeDown(read: Option<Pat>, write: Option<Pat>, lastLoc: nat) returns (errCnt: nat)
      requires Valid() && lastLoc == (Visits(Cfg()) - 1) * mStep
      modifies wrPat, rdPat, this`seen
      ensures Valid() && Did(Cfg(), memory, old(seen), seen, [Range(false, read, write)], errCnt)
    {
      ghost var e := Range(false, read, write);
      assert Cfg().Valid() && Cfg().step == mStep && Count(Cfg(), e) == Visits(Cfg());
      hide *;
      VisitRange(Cfg(), 0);
      Start(Cfg(), memory, seen, e);
      DescentStarts(e, lastLoc);
      errCnt := DownLoop(read, write, lastLoc, seen, e);
    }

    ghost method DescentStarts(e: Pass, lastLoc: nat)
      requires Valid() && mStep > 0 && lastLoc == (Visits(Cfg()) - 1) * mStep
      requires e.Range? && !e.up && Count(Cfg(), e) == Visits(Cfg()) && Ran(Cfg(), memory, seen, seen, e, 0)
      ensures Descending(seen, e, 0, lastLoc)
    {
      hide Valid, Ran, Count, Visits, Cfg;
    }

    /** Before the n-th visit on the way down, which is to address i. */
    ghost predicate Descending(h: seq<Event>, e: Pass, n: nat, i: int)
      reads this`mCheckerMask, this`adrMask, this`seen, mskPat
    {
      && Valid() && mStep > 0 && e.Range? && !e.up && Count(Cfg(), e) == Visits(Cfg()) && n <= Visits(Cfg())
      && i == DownAdr(Visits(Cfg()), n, mStep) && Ran(Cfg(), memory, h, seen, e, n)
    }

    method DownLoop(read: Option<Pat>, write: Option<Pat>, lastLoc: nat, ghost h: seq<Event>, ghost e: Pass)
      returns (errCnt: nat)
      requires Descending(h, e, 0, lastLoc) && e == Range(false, read, write)
      modifies wrPat, rdPat, this`seen
      ensures Valid() && Did(Cfg(), memory, h, seen, [e], errCnt)
    {
      hide *;
      ghost var n: nat := 0;
      var i: int := lastLoc;
      while i >= 0
        invariant Descending(h, e, n, i)
        decreases i
      {
        errCnt := DownVisit(read, write, i, h, e, n);
        if errCnt >= 1 { return; }
        i := i - mStep;
        n := n + 1;
      }
      errCnt := 0;
      Descended(h, e, n, i);
    }

    /** The n-th visit on the way down. */
    method DownVisit(read: Option<Pat>, write: Option<Pat>, i: nat, ghost h: seq<Event>, ghost e: Pass, ghost n: nat)
      returns (errCnt: nat)
      requires Descending(h, e, n, i) && e == Range(false, read, write)
      modifies wrPat, rdPat, this`seen
      ensures mStep > 0
      ensures if errCnt == 0 then Descending(h, e, n + 1, i - mStep)
              else Valid() && Did(Cfg(), memory, h, seen, [e], errCnt)
    {
      ghost var c := Cfg();
      assert c.Valid();
      hide Valid, Ran, Did, Count, DownAdr, Cfg;
      DownNext(Visits(c), n, mStep);
      errCnt := RangeVisit(read, write, i, h, e, n);
    }

    ghost method Descended(h: seq<Event>, e: Pass, n: nat, i: int)
      requires Descending(h, e, n, i) && i < 0
      ensures Valid() && Did(Cfg(), memory, h, seen, [e], 0)
    {
      ghost var c := Cfg();
      assert c.Valid();
      hide Valid, Ran, Did, Count, DownAdr, Cfg;
      DownEnds(Visits(c), n, mStep);
      Finish(c, memory, h, seen, e);
    }

    /** The first k passes of the test b have been made since h, without error. */
    ghost predicate Made(h: seq<Event>, b: seq<Pass>, k: nat)
      reads this`mCheckerMask, this`adrMask, this`seen, mskPat
    {
      Valid() && k <= |b| && Did(Cfg(), memory, h, seen, b[..k], 0)
    }

    ghost predicate Ended(h: seq<Event>, b: seq<Pass>, errCnt: nat)
      reads this`mCheckerMask, this`adrMask, this`seen, mskPat
    {
      Valid() && Did(Cfg(), memory, h, seen, b, errCnt)
    }

    /** One pass of a test. */
    method UpPass(read: Option<Pat>, write: Option<Pat>, ghost h: seq<Event>, ghost b: seq<Pass>, ghost k: nat)
      returns (errCnt: nat, lastLoc: nat)
      requires Made(h, b, k) && k < |b| && b[k] == Range(true, read, write)
      modifies wrPat, rdPat, this`seen
      ensures if errCnt == 0 then Made(h, b, k + 1) else read.Some? && Ended(h, b, errCnt)
      ensures errCnt == 0 ==> FromTop(lastLoc)
    {
      assert Cfg().Valid();
      hide Did, Valid, Config.Valid;
      errCnt, lastLoc := RangeUp(read, write);
      Chain(Cfg(), memory, h, old(seen), seen, b, k, errCnt);
    }

    /** The last location visited on the way up. */
    ghost predicate FromTop(lastLoc: nat)
      reads this`mCheckerMask
    {
      Cfg().Valid() && lastLoc == (Visits(Cfg()) - 1) * mStep
    }

    method DownPass(read: Option<Pat>, write: Option<Pat>, lastLoc: nat, ghost h: seq<Event>, ghost b: seq<Pass>,
                    ghost k: nat)
      returns (errCnt: nat)
      requires Made(h, b, k) && k < |b| && b[k] == Range(false, read, write) && FromTop(lastLoc)
      modifies wrPat, rdPat, this`seen
      ensures if errCnt == 0 then Made(h, b, k + 1) else Ended(h, b, errCnt)
    {
      assert Cfg().Valid();
      hide Did, Valid, Config.Valid;
      errCnt := RangeDown(read, write, lastLoc);
      Chain(Cfg(), memory, h, old(seen), seen, b, k, errCnt);
    }

    method WalkPass(kind: Kind, writing: bool, ghost h: seq<Event>, ghost b: seq<Pass>, ghost k: nat)
      returns (errCnt: nat)
      requires Made(h, b, k) && k < |b| && b[k] == Walk(kind, writing)
      modifies wrPat, rdPat, this`random, this`seen
      ensures if errCnt == 0 then Made(h, b, k + 1) else !writing && Ended(h, b, errCnt)
    {
      assert Cfg().Valid();
      OneWalk();
      hide Did, Valid, WalkPasses, Config.Valid;
      errCnt := WalkTest(kind, writing, !writing);
      Chain(Cfg(), memory, h, old(seen), seen, b, k, errCnt);
    }

    ghost method Begin(b: seq<Pass>)
      requires Valid()
      ensures Made(seen, b, 0)
    {
      NothingDone(b);
      NoPasses(Cfg(), memory, seen);
      hide Did, Valid;
    }

    ghost method End(h: seq<Event>, b: seq<Pass>)
      requires Made(h, b, |b|)
      ensures Ended(h, b, 0)
    {
      Whole(b, |b|);
      hide Did, Valid;
    }

    /** The test b ends with the passes q, which a test of its own has just run. */
    ghost method EndWith(h: seq<Event>, mid: seq<Event>, b: seq<Pass>, k: nat, q: seq<Pass>, errCnt: nat)
      requires Valid() && k <= |b| && b == b[..k] + q
      requires Did(Cfg(), memory, h, mid, b[..k], 0) && Did(Cfg(), memory, mid, seen, q, errCnt)
      ensures Ended(h, b, errCnt)
    {
      Then(Cfg(), memory, h, mid, seen, b[..k], q, errCnt);
      hide Did, Valid;
    }

    /** Walks one after the other until one fails. */
    method Walks(kinds: seq<Kind>, writing: bool, ghost h: seq<Event>, ghost b: seq<Pass>, ghost k: nat)
      returns (errCnt: nat)
      requires Made(h, b, k) && k + |kinds| <= |b| && forall j | 0 <= j < |kinds| :: b[k + j] == Walk(kinds[j], writing)
      modifies wrPat, rdPat, this`random, this`seen
      ensures if errCnt == 0 then Made(h, b, k + |kinds|) else !writing && Ended(h, b, errCnt)
    {
      hide *;
      errCnt := 0;
      for j := 0 to |kinds|
        invariant errCnt == 0 && Made(h, b, k + j)
      {
        errCnt := WalkPass(kinds[j], writing, h, b, k + j);
        if errCnt >= 1 { return; }
      }
    }

    /** Patterns 1 to 3 of the checkerboard, after the address pattern. */
    method BoardHead(m: nat, ghost h: seq<Event>, ghost b: seq<Pass>) returns (errCnt: nat, lastLoc: nat)
      requires Made(h, b, 0) && b == CheckerBoard(Cfg()) && Cfg().checker == m
      modifies wrPat, rdPat, this`seen
      ensures if errCnt == 0 then Made(h, b, 5) && FromTop(lastLoc) else Ended(h, b, errCnt)
    {
      BoardIs(Cfg());
      hide *;
      errCnt, lastLoc := UpPass(None, Some(Inc), h, b, 0);
      errCnt, lastLoc := UpPass(Some(Inc), None, h, b, 1);
      if errCnt >= 1 { return; }
      errCnt, lastLoc := UpPass(None, If(On(m, 1), A5), h, b, 2);
      if errCnt >= 1 { return; }
      errCnt := DownPass(If(On(m, 1), A5), If(On(m, 2), P5), lastLoc, h, b, 3);
      if errCnt >= 1 { return; }
      errCnt, lastLoc := UpPass(If(On(m, 2), P5), If(On(m, 3), FF), h, b, 4);
    }

    method CheckerBoardTest() returns (errCnt: nat)
      requires Valid()
      modifies wrPat, rdPat, this`seen
      ensures Ended(old(seen), CheckerBoard(Cfg()), errCnt)
    {
      var m, lastLoc := mCheckerMask, 0;
      ghost var h, b := seen, CheckerBoard(Cfg());
      BoardIs(Cfg());
      Begin(b);
      assert Cfg().checker == m;
      hide *;
      errCnt, lastLoc := BoardHead(m, h, b);
      if errCnt >= 1 { return; }
      errCnt := DownPass(If(On(m, 3), FF), If(On(m, 4), P3), lastLoc, h, b, 5);
      if errCnt >= 1 { return; }
      errCnt, lastLoc := UpPass(If(On(m, 4), P3), If(On(m, 5), CC), h, b, 6);
      if errCnt >= 1 { return; }
      errCnt := DownPass(If(On(m, 5), CC), If(On(m, 6), ZZ), lastLoc, h, b, 7);
      if errCnt >= 1 { return; }
      errCnt, lastLoc := UpPass(If(On(m, 6), ZZ), None, h, b, 8);
      if errCnt == 0 { End(h, b); }
    }

    method DoMemTest() returns (errCnt: nat)
      requires Valid()
      modifies wrPat, rdPat, this`random, this`seen
      ensures Ended(old(seen), MemPatterns.MemTest(Cfg()), errCnt)
    {
      ghost var h, b := seen, MemPatterns.MemTest(Cfg());
      var walks := [OneAdr, OneDat, ZeroAdr, ZeroDat];
      MemTestIs(Cfg());
      Begin(b);
      hide *;
      errCnt := Walks(walks, true, h, b, 0);
      errCnt := Walks(walks, false, h, b, 4);
      if errCnt >= 1 { return; }
      errCnt := BoardLast(h, b);
    }

    method BoardLast(ghost h: seq<Event>, ghost b: seq<Pass>) returns (errCnt: nat)
      requires Made(h, b, 8) && b == b[..8] + CheckerBoard(Cfg())
      modifies wrPat, rdPat, this`seen
      ensures Ended(h, b, errCnt)
    {
      hide Did, Valid, CheckerBoard;
      ghost var mid := seen;
      errCnt := CheckerBoardTest();
      EndWith(h, mid, b, 8, CheckerBoard(Cfg()), errCnt);
    }

    method RunTestLast(full: bool, ghost h: seq<Event>, ghost b: seq<Pass>) returns (errCnt: nat)
      requires Made(h, b, 4) && if full then b == b[..4] + MemPatterns.MemTest(Cfg()) else |b| == 4
      modifies wrPat, rdPat, this`random, this`seen
      ensures Ended(h, b, errCnt)
    {
      hide Did, Valid, MemPatterns.MemTest;
      errCnt := 0;
      if full {
        ghost var mid := seen;
        errCnt := DoMemTest();
        EndWith(h, mid, b, 4, MemPatterns.MemTest(Cfg()), errCnt);
      } else {
        End(h, b);
      }
    }

    /** The body of cepMemTest_runTest: two walks by the parity of the core, then everything if asked for. */
    method RunWalks(odd: bool, full: bool) returns (errCnt: nat)
      requires Valid()
      modifies wrPat, rdPat, this`random, this`seen
      ensures Ended(old(seen), MemPatterns.RunTest(Cfg(), odd, full), errCnt)
    {
      ghost var h, b := seen, MemPatterns.RunTest(Cfg(), odd, full);
      var walks := if odd then [OneAdr, OneDat] else [ZeroDat, OneAdr];
      RunTestIs(Cfg(), odd, full);
      hide *;
      Begin(b);
      errCnt := WriteThenCheck(walks, h, b);
      if errCnt == 0 {
        errCnt := RunTestLast(full, h, b);
      }
    }

    /** Two walks, written and then checked. */
    method WriteThenCheck(walks: seq<Kind>, ghost h: seq<Event>, ghost b: seq<Pass>) returns (errCnt: nat)
      requires Made(h, b, 0) && WritesThenChecks(b, walks)
      modifies wrPat, rdPat, this`random, this`seen
      ensures if errCnt == 0 then Made(h, b, 4) else Ended(h, b, errCnt)
    {
      assert |walks| == 2 && |b| >= 4;
      assert forall j | 0 <= j < 2 :: b[0 + j] == Walk(walks[j], true) && b[2 + j] == Walk(walks[j], false);
      hide *;
      errCnt := Walks(walks, true, h, b, 0);
      errCnt := Walks(walks, false, h, b, 2);
    }
  }

  /** cepMemTest_runTest on a memory that has seen nothing. */
  method RunTest(cpuId: nat, memBase: Word, adrWidth: nat, dataWidth: nat, seed: Word, full: bool, memory: Device)
    returns (errCnt: nat)
    requires 3 <= adrWidth && TestConfig(memBase, adrWidth, dataWidth, seed, full).Valid()
    ensures var c := TestConfig(memBase, adrWidth, dataWidth, seed, full);
            errCnt == 0 <==> Passes(memory, Mask(c), [], All(c, MemPatterns.RunTest(c, cpuId % 2 == 1, full)))
  {
    ghost var c := TestConfig(memBase, adrWidth, dataWidth, seed, full);
    var t := new MemBaseTest(memBase, adrWidth - 3, dataWidth, if full then 1 else 0x1000, seed, memory);
    assert t.Cfg() == c;
    hide Did, MemPatterns.RunTest, TestConfig, Passes, All, Mask;
    errCnt := t.RunWalks(cpuId % 2 == 1, full);
    DidMeans(c, memory, [], t.seen, MemPatterns.RunTest(c, cpuId % 2 == 1, full), errCnt);
  }

  /** The configuration the test creates; the seed already includes the core number times 100. */
  function TestConfig(memBase: Word, adrWidth: nat, dataWidth: nat, seed: Word, full: bool): Config
    requires 3 <= adrWidth
  {
    Config(adrWidth - 3, dataWidth, if full then 1 else 0x1000, memBase, seed, 0xFF)
  }

  lemma {:induction false} DidMeans(c: Config, dev: Device, hist: seq<Event>, at: seq<Event>, passes: seq<Pass>,
                                    errCnt: nat)
    requires c.Valid() && Did(c, dev, hist, at, passes, errCnt)
    ensures errCnt == 0 <==> Passes(dev, Mask(c), hist, All(c, passes))
  {
    hide Passes, All, Mask;
  }

  /** A test that begins with two walks, first written and then checked. */
  ghost predicate WritesThenChecks(b: seq<Pass>, ks: seq<Kind>) {
    |ks| == 2 && |b| >= 4 && forall j | 0 <= j < 2 :: b[0 + j] == Walk(ks[j], true) && b[2 + j] == Walk(ks[j], false)
  }

  lemma {:induction false} RunTestIs(c: Config, odd: bool, full: bool)
    ensures var b := MemPatterns.RunTest(c, odd, full);
            var ks := if odd then [OneAdr, OneDat] else [ZeroDat, OneAdr];
            && WritesThenChecks(b, ks)
            && (if full then b == b[..4] + MemPatterns.MemTest(c) else |b| == 4)
  {
    hide CheckerBoard, MemPatterns.MemTest;
  }

  lemma {:induction false} Whole(b: seq<Pass>, n: nat)
    requires n == |b|
    ensures b[..n] == b
  {}

  lemma {:induction false} NothingDone(b: seq<Pass>)
    ensures b[..0] == []
  {}

  lemma {:induction false} OneWalk()
    ensures forall kind :: WalkPasses(kind, true, false) == [Walk(kind, true)]
                           && WalkPasses(kind, false, true) == [Walk(kind, false)]
  {}

  lemma {:induction false} BoardIs(c: Config)
    ensures var b, m := CheckerBoard(c), c.checker;
            && |b| == 9 && b[0] == Range(true, None, Some(Inc)) && b[1] == Range(true, Some(Inc), None)
            && b[2] == Range(true, None, If(On(m, 1), A5)) && b[3] == Range(false, If(On(m, 1), A5), If(On(m, 2), P5))
            && b[4] == Range(true, If(On(m, 2), P5), If(On(m, 3), FF))
            && b[5] == Range(false, If(On(m, 3), FF), If(On(m, 4), P3))
            && b[6] == Range(true, If(On(m, 4), P3), If(On(m, 5), CC))
            && b[7] == Range(false, If(On(m, 5), CC), If(On(m, 6), ZZ))
            && b[8] == Range(true, If(On(m, 6), ZZ), None)
  {
    hide On, If;
  }

  lemma {:induction false} MemTestIs(c: Config)
    ensures var b := MemPatterns.MemTest(c);
            && |b| == 17 && b[0] == Walk(OneAdr, true) && b[1] == Walk(OneDat, true) && b[2] == Walk(ZeroAdr, true)
            && b[3] == Walk(ZeroDat, true) && b[4] == Walk(OneAdr, false) && b[5] == Walk(OneDat, false)
            && b[6] == Walk(ZeroAdr, false) && b[7] == Walk(ZeroDat, false) && b == b[..8] + CheckerBoard(c)
  {
    assert |CheckerBoard(c)| == 9;
    hide CheckerBoard;
  }

  /** One more pass of a test: the error count so far, and the final one if the test stops here. */
  lemma {:induction false} Chain(c: Config, dev: Device, hist: seq<Event>, mid: seq<Event>, at: seq<Event>,
                                 b: seq<Pass>, k: nat,
                                 errCnt: nat)
    requires c.Valid() && k < |b| && Did(c, dev, hist, mid, b[..k], 0) && Did(c, dev, mid, at, [b[k]], errCnt)
    ensures Did(c, dev, hist, at, b[..k + 1], errCnt)
    ensures errCnt > 0 || k == |b| - 1 ==> Did(c, dev, hist, at, b, errCnt)
  {
    assert b[..k] + [b[k]] == b[..k + 1] && b[..k + 1] + b[k + 1..] == b && (k == |b| - 1 ==> b[..k + 1] == b);
    hide *;
    Then(c, dev, hist, mid, at, b[..k], [b[k]], errCnt);
    if errCnt > 0 {
      Stop(c, dev, hist, at, b[..k + 1], b[k + 1..], errCnt);
    }
  }

  function WalkPasses(kind: Kind, doWrite: bool, rdNCheck: bool): seq<Pass> {
    (if doWrite then [Walk(kind, true)] else []) + if rdNCheck then [Walk(kind, false)] else []
  }

  ghost function PatternAt(c: Config, p: Option<Pat>, adr: nat): Option<Word>
    requires c.Valid() && adr < Size(c)
  {
    if p.Some? then Some(Masked(Pattern(c, p.value, adr), Mask(c))) else None
  }

  lemma {:induction false} PatternAtIs(c: Config, p: Option<Pat>, adr: nat)
    requires c.Valid() && adr < Size(c)
    ensures PatternAt(c, p, adr) == if p.Some? then Some(Masked(Pattern(c, p.value, adr), Mask(c))) else None
    ensures forall r: Option<Word>, w: Option<Word> ::
              BusOf(adr, r, w) == (if r.Some? then [Rd(adr)] else []) + if w.Some? then [Wr(adr, w.value)] else []
    ensures forall at: seq<Event>, e: Event :: Then1(at, e) == at + [e]
  {
    hide Pattern, Masked, Mask;
  }

  lemma {:induction false} WalkLength(c: Config, kind: Kind, writing: bool)
    requires c.Valid()
    ensures Count(c, Walk(kind, writing)) == WalkCount(c, kind)
  {}

  lemma {:induction false} WalkDoes(c: Config, kind: Kind, writing: bool, i: nat)
    requires c.Valid() && i < WalkCount(c, kind)
    ensures var e, a, d := Walk(kind, writing), WalkAdr(c, kind, i), Masked(WalkPattern(c, kind, i), Mask(c));
            && Count(c, e) == WalkCount(c, kind) && Adr(c, e, i) == a
            && Written(c, e, i) == (if writing then Some(d) else None)
            && Expected(c, e, i) == (if writing then None else Some(d))
            && BusOf(a, Expected(c, e, i), Written(c, e, i)) == if writing then [Wr(a, d)] else [Rd(a)]
  {
    hide WalkAdr, WalkPattern, WalkCount, Masked, Mask;
  }

  lemma {:induction false} WalkWrote(c: Config, dev: Device, hist: seq<Event>, at: seq<Event>, at': seq<Event>,
                                     kind: Kind, i: nat)
    requires c.Valid() && i < WalkCount(c, kind) && WalkCount(c, kind) == Count(c, Walk(kind, true))
    requires Ran(c, dev, hist, at, Walk(kind, true), i)
    requires at' == Then1(at, Wr(WalkAdr(c, kind, i), Masked(WalkPattern(c, kind, i), Mask(c))))
    ensures Ran(c, dev, hist, at', Walk(kind, true), i + 1)
  {
    assert at' == at + [Wr(WalkAdr(c, kind, i), Masked(WalkPattern(c, kind, i), Mask(c)))];
    hide *;
    WalkDoes(c, kind, true, i);
    Next(c, dev, hist, at, at', Walk(kind, true), i);
  }

  lemma {:induction false} WalkChecked(c: Config, dev: Device, hist: seq<Event>, at: seq<Event>, at': seq<Event>,
                                       kind: Kind,
                                       i: nat, errCnt: nat)
    requires c.Valid() && i < WalkCount(c, kind) && WalkCount(c, kind) == Count(c, Walk(kind, false))
    requires Ran(c, dev, hist, at, Walk(kind, false), i) && at' == Then1(at, Rd(WalkAdr(c, kind, i)))
    requires errCnt == 0 <==>
             Masked(dev(at, WalkAdr(c, kind, i)), Mask(c)) == Masked(WalkPattern(c, kind, i), Mask(c))
    ensures errCnt == 0 ==> Ran(c, dev, hist, at', Walk(kind, false), i + 1)
    ensures errCnt > 0 ==> Did(c, dev, hist, at', [Walk(kind, false)], errCnt)
  {
    assert at' == at + [Rd(WalkAdr(c, kind, i))];
    hide *;
    WalkDoes(c, kind, false, i);
    if errCnt == 0 {
      Next(c, dev, hist, at, at', Walk(kind, false), i);
    } else {
      Fail(c, dev, hist, at, at', Walk(kind, false), i, errCnt);
    }
  }

  lemma {:induction false} RangeDoes(c: Config, e: Pass, i: nat)
    requires c.Valid() && e.Range? && i < Visits(c)
    ensures var a := (if e.up then i else Visits(c) - 1 - i) * c.step;
            && Count(c, e) == Visits(c) && a < Size(c) && Adr(c, e, i) == a
            && Written(c, e, i) == PatternAt(c, e.write, a) && Expected(c, e, i) == PatternAt(c, e.read, a)
  {
    VisitRange(c, if e.up then i else Visits(c) - 1 - i);
    hide Pattern, Masked, Mask, Visits, Size;
  }

  lemma {:induction false} Onward(n: int, step: nat)
    ensures (n + 1) * step == n * step + step && n * step == (n + 1) * step - step
  {}

  lemma {:induction false} NotNegative(n: int, step: nat)
    requires step > 0
    ensures n * step >= 0 <==> n >= 0
    decreases -n
  {
    if n < 0 {
      assert n * step == (n + 1) * step - step;
      if n + 1 < 0 {
        NotNegative(n + 1, step);
      }
    }
  }

  /** The n-th location on the way down. */
  function DownAdr(visits: nat, n: nat, step: nat): int {
    (visits - 1 - n) * step
  }

  lemma {:induction false} DownNext(visits: nat, n: nat, step: nat)
    requires step > 0 && DownAdr(visits, n, step) >= 0
    ensures n < visits && DownAdr(visits, n + 1, step) == DownAdr(visits, n, step) - step
    ensures DownAdr(visits, n, step) == (visits - 1 - n) * step
  {
    NotNegative(visits - 1 - n, step);
    Onward(visits - 2 - n, step);
  }

  lemma {:induction false} DownEnds(visits: nat, n: nat, step: nat)
    requires step > 0 && DownAdr(visits, n, step) < 0
    ensures n >= visits
  {
    NotNegative(visits - 1 - n, step);
  }

  /** Bitwise OR of two naturals. */
  function Or(x: nat, y: nat): nat
    decreases x + y
  {
    if x == 0 then y else if y == 0 then x
    else 2 * Or(x / 2, y / 2) + if x % 2 == 1 || y % 2 == 1 then 1 else 0
  }

  lemma {:induction false} OrRun(n: nat)
    ensures Or(Pow2(n) - 1, 2 * (Pow2(n) - 1) + 1) == Pow2(n + 1) - 1
  {
    if n > 0 {
      OrRun(n - 1);
      var x, y := Pow2(n) - 1, 2 * (Pow2(n) - 1) + 1;
      assert x / 2 == Pow2(n - 1) - 1 && x % 2 == 1 && y % 2 == 1 && y / 2 == 2 * (Pow2(n - 1) - 1) + 1;
    }
  }
}
