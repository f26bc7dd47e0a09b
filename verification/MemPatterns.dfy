/** The patterns, addresses and passes of the memory tests, as runs of accesses. */
module MemPatterns {
  import opened Bits
  import opened Bits64
  import opened MemAccess
  import opened Wrappers

  /** Address and data width in bits, address step, base address, seed, and the enabled patterns. */
  datatype Config = Config(adrSize: nat, datSize: nat, step: nat, bar: Word, seed: Word, checker: nat) {
    predicate Valid() {
      adrSize <= 30 && (datSize == 8 || datSize == 16 || datSize == 32 || datSize == 64) && step > 0
      && Pow2(adrSize) + step <= 0x8000_0000
    }
  }

  function Size(c: Config): nat { Pow2(c.adrSize) }

  /** The bits a bus access of this width carries. */
  function Mask(c: Config): Word {
    Word(if c.datSize == 8 then 0xFF else if c.datSize == 16 then 0xFFFF
         else if c.datSize == 32 then 0xFFFF_FFFF else 0xFFFF_FFFF_FFFF_FFFF)
  }

  // ----- words

  /** 1 << b, computed as a signed 32-bit value and widened. */
  function Shl1(b: nat): Word
    requires b < 32
  {
    if b == 31 then Word(0xFFFF_FFFF_8000_0000) else if b == 0 then Word(1) else Shl64(Shl1(b - 1))
  }

  function Wide(x: nat): Word
    requires x < 0x1_0000_0000
  {
    Word(x as bv32 as bv64)
  }

  function NextRandom(s: nat): (r: nat)
    ensures r < 0x1_0000_0000_0000_0000
  {
    var v := (48271 * (s % 44488) - 3399 * (s / 44488)) % 0x1_0000_0000_0000_0000;
    if v > 0 then v else v + 2147483647
  }

  /** The generator's n-th value after seeding. */
  function Random(seed: nat, n: nat): (r: nat)
    ensures n > 0 ==> r < 0x1_0000_0000_0000_0000
  {
    if n == 0 then seed else NextRandom(Random(seed, n - 1))
  }

  /** Which of the sixteen values lands in word 0. */
  function RandomWord(seed: nat): Word {
    Word64(Random(seed, (16 - seed % 15) % 16 + 1))
  }

  // ----- address patterns

  /** Address times words, or one word repeated; either inverted at odd addresses. */
  datatype Pat = Inc | Rep(word: Word)

  function Inverted(adr: nat, w: Word): Word {
    if adr % 2 == 1 then Not64(w) else w
  }

  /** The data width in 32-bit words, rounded up. */
  function Words(c: Config): nat {
    if c.datSize == 64 then 2 else 1
  }

  function Pattern(c: Config, p: Pat, adr: nat): Word
    requires c.Valid() && adr < Size(c)
  {
    BoundedSize(c);
    Inverted(adr, if p.Inc? then Wide(adr * Words(c)) else p.word)
  }

  lemma BoundedSize(c: Config)
    requires c.Valid()
    ensures Size(c) <= 0x4000_0000
  {
    Pow2Add(10, 20);
    Pow2Add(10, 10);
    assert Pow2(10) == 1024;
    if c.adrSize < 30 {
      Pow2Mono(c.adrSize, 30);
    }
  }

  /** Addresses visited by a range pass: 0, step, 2 step, … below the size. */
  function Visits(c: Config): nat
    requires c.Valid()
  {
    Quot(Size(c) + c.step - 1, c.step)
  }

  function Visited(c: Config, k: nat): (adr: nat)
    requires c.Valid() && k < Visits(c)
    ensures adr < Size(c)
  {
    VisitRange(c, k);
    k * c.step
  }

  lemma {:induction false} VisitRange(c: Config, k: nat)
    requires c.Valid()
    ensures k < Visits(c) <==> k * c.step < Size(c)
    ensures Visits(c) > 0
  {
    assert c.step > 0;
    hide *;
    CeilRange(Size(c), c.step, k);
    VisitsIs(c);
  }

  lemma {:induction false} VisitsIs(c: Config)
    requires c.Valid()
    ensures Visits(c) == Quot(Size(c) + c.step - 1, c.step) && Size(c) > 0
  {
    hide Quot;
  }

  lemma {:induction false} CeilRange(size: nat, step: nat, k: nat)
    requires step > 0 && size > 0
    ensures k < Quot(size + step - 1, step) <==> k * step < size
    ensures Quot(size + step - 1, step) > 0
  {
    var q := Quot(size + step - 1, step);
    var r := Rem(size + step - 1, step);
    assert size + step - 1 == q * step + r && r < step;
    hide *;
    if k < q {
      MulMono(k, q - 1, step);
      assert (q - 1) * step == q * step - step;
    } else {
      MulMono(q, k, step);
    }
  }

  lemma {:induction false} MulMono(a: nat, b: nat, m: nat)
    requires a <= b
    ensures a * m <= b * m
  {
  }

  // ----- walks

  datatype Kind = OneAdr | ZeroAdr | OneDat | ZeroDat

  function MaxData(c: Config): nat {
    if Size(c) >= c.datSize * 6 then c.datSize else Size(c) / 6
  }

  function WalkCount(c: Config, kind: Kind): nat {
    if kind.OneAdr? || kind.ZeroAdr? then c.adrSize else MaxData(c)
  }

  function WalkAdr(c: Config, kind: Kind, k: nat): (adr: nat)
    requires k < WalkCount(c, kind)
    ensures adr < Size(c)
  {
    WalkFits(c, kind, k);
    match kind
    case OneAdr => Pow2(k)
    case ZeroAdr => Size(c) - 1 - Pow2(k)
    case OneDat => Size(c) - 1 - 3 * k
    case ZeroDat => 3 * k
  }

  lemma WalkFits(c: Config, kind: Kind, k: nat)
    requires k < WalkCount(c, kind)
    ensures kind.OneAdr? || kind.ZeroAdr? ==> 2 * Pow2(k) <= Size(c)
    ensures kind.OneDat? || kind.ZeroDat? ==> 6 * k + 6 <= Size(c)
  {
    if k < c.adrSize {
      Pow2Mono(k, c.adrSize);
    }
  }

  /** The seed is the bus address, so that walks agree wherever their addresses meet. */
  function AddressPattern(c: Config, adr: nat): Word
    requires c.Valid() && adr < Size(c)
  {
    BoundedSize(c);
    RandomWord(Nat64(Add64(Or64(c.bar, Wide(adr)), c.seed)))
  }

  function WalkPattern(c: Config, kind: Kind, k: nat): Word
    requires c.Valid() && k < WalkCount(c, kind)
  {
    match kind
    case OneAdr => AddressPattern(c, WalkAdr(c, kind, k))
    case ZeroAdr => AddressPattern(c, WalkAdr(c, kind, k))
    case OneDat => if k < 32 then Shl1(k) else Word(0)
    case ZeroDat => if k < 32 then Not64(Shl1(k)) else Word(0xFFFF_FFFF)
  }

  // ----- passes

  /** One pass: over the range, up or down, checking and then writing; or a walk, writing or checking. */
  datatype Pass = Range(up: bool, read: Option<Pat>, write: Option<Pat>) | Walk(kind: Kind, writing: bool)

  function Count(c: Config, e: Pass): nat
    requires c.Valid()
  {
    if e.Range? then Visits(c) else WalkCount(c, e.kind)
  }

  function Adr(c: Config, e: Pass, k: nat): (adr: nat)
    requires c.Valid() && k < Count(c, e)
    ensures adr < Size(c)
  {
    match e
    case Range(up, _, _) => Visited(c, if up then k else Visits(c) - 1 - k)
    case Walk(kind, _) => WalkAdr(c, kind, k)
  }

  function Expected(c: Config, e: Pass, k: nat): Option<Word>
    requires c.Valid() && k < Count(c, e)
  {
    match e
    case Range(_, read, _) => if read.Some? then Some(Masked(Pattern(c, read.value, Adr(c, e, k)), Mask(c))) else None
    case Walk(kind, write) => if write then None else Some(Masked(WalkPattern(c, kind, k), Mask(c)))
  }

  function Written(c: Config, e: Pass, k: nat): Option<Word>
    requires c.Valid() && k < Count(c, e)
  {
    match e
    case Range(_, _, write) =>
      if write.Some? then Some(Masked(Pattern(c, write.value, Adr(c, e, k)), Mask(c))) else None
    case Walk(kind, write) => if write then Some(Masked(WalkPattern(c, kind, k), Mask(c))) else None
  }

  function Visit(c: Config, e: Pass, k: nat): seq<Access>
    requires c.Valid() && k < Count(c, e)
  {
    var a, r, w := Adr(c, e, k), Expected(c, e, k), Written(c, e, k);
    (if r.Some? then [R(a, r.value)] else []) + if w.Some? then [W(a, w.value)] else []
  }

  /** The first n visits of a pass. */
  function Steps(c: Config, e: Pass, n: nat): seq<Access>
    requires c.Valid() && n <= Count(c, e)
  {
    if n == 0 then [] else Steps(c, e, n - 1) + Visit(c, e, n - 1)
  }

  function All(c: Config, passes: seq<Pass>): seq<Access>
    requires c.Valid()
  {
    if passes == [] then []
    else All(c, passes[..|passes| - 1]) + Steps(c, passes[|passes| - 1], Count(c, passes[|passes| - 1]))
  }

  // ----- the tests

  /** Bit p of the pattern selection. */
  predicate On(checker: nat, p: nat) {
    checker / Pow2(p) % 2 == 1
  }

  function If(on: bool, p: Pat): Option<Pat> {
    if on then Some(p) else None
  }

  const A5: Pat := Rep(Word(0xAAAA_AAAA))
  const P5: Pat := Rep(Word(0x5555_5555))
  const FF: Pat := Rep(Word(0xFFFF_FFFF))
  const P3: Pat := Rep(Word(0x3333_3333))
  const CC: Pat := Rep(Word(0xCCCC_CCCC))
  const ZZ: Pat := Rep(Word(0))

  function CheckerBoard(c: Config): seq<Pass> {
    var m := c.checker;
    [Range(true, None, Some(Inc)), Range(true, Some(Inc), None),
     Range(true, None, If(On(m, 1), A5)),
     Range(false, If(On(m, 1), A5), If(On(m, 2), P5)),
     Range(true, If(On(m, 2), P5), If(On(m, 3), FF)),
     Range(false, If(On(m, 3), FF), If(On(m, 4), P3)),
     Range(true, If(On(m, 4), P3), If(On(m, 5), CC)),
     Range(false, If(On(m, 5), CC), If(On(m, 6), ZZ)),
     Range(true, If(On(m, 6), ZZ), None)]
  }

  /** doMemTest: all walks write, then all walks check, then the checkerboard. */
  function MemTest(c: Config): seq<Pass> {
    [Walk(OneAdr, true), Walk(OneDat, true), Walk(ZeroAdr, true), Walk(ZeroDat, true),
     Walk(OneAdr, false), Walk(OneDat, false), Walk(ZeroAdr, false), Walk(ZeroDat, false)] + CheckerBoard(c)
  }

  /** cepMemTest_runTest: two walks chosen by the parity of the core, then doMemTest if asked for. */
  function RunTest(c: Config, odd: bool, full: bool): seq<Pass> {
    (if odd then [Walk(OneAdr, true), Walk(OneDat, true), Walk(OneAdr, false), Walk(OneDat, false)]
     else [Walk(ZeroDat, true), Walk(OneAdr, true), Walk(ZeroDat, false), Walk(OneAdr, false)])
    + if full then MemTest(c) else []
  }
}
