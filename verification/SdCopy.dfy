/** The boot loader's block copy from an SD card: the card is the bytes it sends, one per transfer. */
module SdCopy {
  import opened Gf2
  import opened Crc16
  import opened Wrappers

  const BLOCK: nat := 512
  const TRIES: nat := 1000
  const TOKEN: Byte := Byte(0xFE)

  /** The two check bytes, high one first. */
  function Field(hi: Byte, lo: Byte): Reg {
    Reg(((hi.bits as bv16) << 8) | (lo.bits as bv16))
  }

  // ----- what the copy makes of a byte stream; None while it is still waiting for the card

  /** Behind the next start token. */
  function AfterToken(s: seq<Byte>, pos: nat): (p: Option<nat>)
    ensures p.Some? ==> pos < p.value <= |s| && s[p.value - 1] == TOKEN
                        && forall k | pos <= k < p.value - 1 :: s[k] != TOKEN
    ensures p.None? ==> forall k | pos <= k < |s| :: s[k] != TOKEN
    decreases |s| - pos
  {
    if pos >= |s| then None else if s[pos] == TOKEN then Some(pos + 1) else AfterToken(s, pos + 1)
  }

  predicate Ready(b: Byte) {
    b.bits & 0x80 == 0
  }

  /** The response to a command: the first byte with its top bit clear, or the last of so many. */
  function Response(s: seq<Byte>, pos: nat, tries: nat): Option<(Byte, nat)>
    requires tries > 0
    decreases tries
  {
    if pos >= |s| then None
    else if Ready(s[pos]) || tries == 1 then Some((s[pos], pos + 1))
    else Response(s, pos + 1, tries - 1)
  }

  /** A command costs seven transfers before the first byte of a response. */
  function Command(s: seq<Byte>, pos: nat): Option<(Byte, nat)> {
    if pos + 7 > |s| then None else Response(s, pos + 7, TRIES)
  }

  datatype Copied = Copied(rc: nat, memory: seq<Byte>, pos: nat)

  /** A token, a block, its check bytes. */
  function OneBlock(s: seq<Byte>, pos: nat): (c: Option<Copied>)
    ensures c.Some? ==> c.value.rc <= 1
  {
    var t := AfterToken(s, pos);
    if t.None? || t.value + BLOCK + 2 > |s| then None
    else
      var block, e := s[t.value..t.value + BLOCK], t.value + BLOCK;
      Some(Copied(if Crc(block) == Field(s[e], s[e + 1]) then 0 else 1, block, e + 2))
  }

  function Blocks(s: seq<Byte>, pos: nat, n: nat): Option<Copied>
    requires n > 0
    decreases n
  {
    var b := OneBlock(s, pos);
    if b.None? || b.value.rc != 0 || n == 1 then b
    else
      var rest := Blocks(s, b.value.pos, n - 1);
      if rest.None? then None else Some(rest.value.(memory := b.value.memory + rest.value.memory))
  }

  /** The loop runs at least once. */
  function Requested(i: int): (n: nat)
    ensures n > 0
  {
    if i < 1 then 1 else i
  }

  /** Read command, blocks, stop command. */
  function Copy(s: seq<Byte>, pos: nat, i: int): Option<Copied> {
    var r := Command(s, pos);
    if r.None? then None
    else if r.value.0 != Byte(0) then (if r.value.1 + 1 > |s| then None else Some(Copied(1, [], r.value.1 + 1)))
    else
      var b := Blocks(s, r.value.1, Requested(i));
      if b.None? || b.value.pos + 1 > |s| then None
      else
        var e := Command(s, b.value.pos + 1);
        if e.None? || e.value.1 + 1 > |s| then None else Some(b.value.(pos := e.value.1 + 1))
  }

  // ----- the copy itself

  class Card {
    const stream: seq<Byte>
    var pos: nat
    // what has been stored from the start of main memory up
    var memory: seq<Byte>

    ghost predicate Valid()
      reads this`pos
    {
      pos <= |stream|
    }

    constructor (stream: seq<Byte>)
      ensures Valid() && this.stream == stream && pos == 0 && memory == []
    {
      this.stream, pos, memory := stream, 0, [];
    }

    /** One transfer; the card has nothing more to say once its stream is used up. */
    method Dummy() returns (b: Option<Byte>)
      requires Valid()
      modifies this`pos
      ensures Valid()
      ensures if old(pos) < |stream| then b == Some(stream[old(pos)]) && pos == old(pos) + 1
              else b.None? && pos == old(pos)
    {
      if pos < |stream| {
        b, pos := Some(stream[pos]), pos + 1;
      } else {
        b := None;
      }
    }

    method SdCmd() returns (r: Option<Byte>)
      requires Valid()
      modifies this`pos
      ensures Valid()
      ensures var c := Command(stream, old(pos));
              if c.None? then r.None? else r == Some(c.value.0) && pos == c.value.1
    {
      hide Ready, Response;
      for k := 0 to 7
        invariant Valid() && pos == old(pos) + k
      {
        var x := Dummy();
        if x.None? { return None; }
      }
      var n := TRIES;
      ghost var start := pos;
      r := None;
      while n > 0
        invariant Valid() && 0 < n <= TRIES && start <= pos
        invariant Response(stream, start, TRIES) == Response(stream, pos, n)
        decreases n
      {
        ResponseStep(stream, pos, n);
        r := Dummy();
        if r.None? || Ready(r.value) { break; }
        n := n - 1;
        if n == 0 { break; }
      }
    }

    /** One block after its token: store, then compare the running CRC with the two bytes that follow. */
    method Block() returns (crc: Option<Reg>)
      requires Valid()
      modifies this`pos, this`memory
      ensures Valid()
      ensures if old(pos) + BLOCK <= |stream|
              then var b := stream[old(pos)..old(pos) + BLOCK];
                   crc == Some(Crc(b)) && memory == old(memory) + b && pos == old(pos) + BLOCK
              else crc.None?
    {
      var r, n := Reg(0), BLOCK;
      ghost var done: seq<Byte> := [];
      assert Crc(done) == Reg(0);
      hide Step, Crc;
      while n > 0
        invariant 0 <= n <= BLOCK && pos == old(pos) + (BLOCK - n) <= |stream|
        invariant done == stream[old(pos)..pos] && r == Crc(done) && memory == old(memory) + done
        decreases n
      {
        var x := Dummy();
        if x.None? { return None; }
        OneMore(old(memory), done, x.value);
        NextByte(stream, old(pos), pos - 1);
        memory := memory + [x.value];
        r := Step(r, x.value);
        done := done + [x.value];
        n := n - 1;
      }
      assert pos == old(pos) + BLOCK && done == stream[old(pos)..old(pos) + BLOCK];
      crc := Some(r);
    }

    /** Wait for a start token. */
    method WaitToken() returns (found: bool)
      requires Valid()
      modifies this`pos
      ensures Valid() && var t := AfterToken(stream, old(pos)); found == t.Some? && (found ==> pos == t.value)
    {
      found := false;
      while !found
        invariant Valid() && old(pos) <= pos
        invariant if found then AfterToken(stream, old(pos)) == Some(pos)
                  else AfterToken(stream, old(pos)) == AfterToken(stream, pos)
        decreases !found, |stream| - pos
      {
        var x := Dummy();
        if x.None? { return; }
        found := x.value == TOKEN;
      }
    }

    /** Wait for a token, copy a block, compare the CRC. */
    method CopyBlock() returns (ok: Option<bool>)
      requires Valid()
      modifies this`pos, this`memory
      ensures Valid()
      ensures var b := OneBlock(stream, old(pos));
              if b.None? then ok.None?
              else ok == Some(b.value.rc == 0) && memory == old(memory) + b.value.memory && pos == b.value.pos
    {
      hide Crc, Field, AfterToken;
      var found := WaitToken();
      if !found { return None; }
      var crc := Block();
      if crc.None? { return None; }
      var hi := Dummy();
      if hi.None? { return None; }
      var lo := Dummy();
      if lo.None? { return None; }
      ok := Some(crc.value == Field(hi.value, lo.value));
    }

    /** The block loop: stop at the first mismatch. */
    method CopyBlocks(blocks: int) returns (rc: Option<nat>)
      requires Valid()
      modifies this`pos, this`memory
      ensures Valid()
      ensures var b := Blocks(stream, old(pos), Requested(blocks));
              if b.None? then rc.None?
              else rc == Some(b.value.rc) && memory == old(memory) + b.value.memory && pos == b.value.pos
    {
      ghost var n, start := Requested(blocks), memory;
      ghost var all := Blocks(stream, pos, n);
      NothingYet(all);
      assert start + [] == start;
      hide AllOf, Blocks, Valid;
      rc := CopyLoop(blocks, start, all, n);
    }

    method CopyLoop(blocks: int, ghost start: seq<Byte>, ghost all: Option<Copied>, ghost requested: nat)
      returns (rc: Option<nat>)
      requires Copying(start, all, [], requested) && requested == (if blocks < 1 then 1 else blocks)
      modifies this`pos, this`memory
      ensures Ends(start, all, rc)
    {
      hide *;
      var i := blocks;
      ghost var n, done: seq<Byte> := requested, [];
      while true
        invariant Copying(start, all, done, n) && n == (if i < 1 then 1 else i)
        decreases n
      {
        var ok;
        ok, done := NextBlock(start, all, done, n);
        if ok.None? { return None; }
        i := i - 1;
        if !ok.value { return Some(1); }
        if i <= 0 { return Some(0); }
        n := n - 1;
      }
    }

    /** A copy that started with this memory, has stored `done` since, and has n blocks to go. */
    ghost predicate Copying(start: seq<Byte>, all: Option<Copied>, done: seq<Byte>, n: nat)
      reads this
    {
      Valid() && n > 0 && memory == start + done && AllOf(all, done, Blocks(stream, pos, n))
    }

    ghost predicate Ends(start: seq<Byte>, all: Option<Copied>, rc: Option<nat>)
      reads this
    {
      && Valid()
      && if all.None? then rc.None?
         else rc == Some(all.value.rc) && memory == start + all.value.memory && pos == all.value.pos
    }

    /** One turn of the block loop. */
    method NextBlock(ghost start: seq<Byte>, ghost all: Option<Copied>, ghost done: seq<Byte>, ghost n: nat)
      returns (ok: Option<bool>, ghost done': seq<Byte>)
      requires Copying(start, all, done, n)
      modifies this`pos, this`memory
      ensures ok.None? ==> Ends(start, all, None)
      ensures ok == Some(false) ==> Ends(start, all, Some(1))
      ensures ok == Some(true) ==> if n == 1 then Ends(start, all, Some(0)) else Copying(start, all, done', n - 1)
    {
      hide AllOf, Blocks, OneBlock, Valid;
      BlocksIs(stream, pos, n, all, done);
      ghost var b := OneBlock(stream, pos);
      ok := CopyBlock();
      done' := if b.None? then done else done + b.value.memory;
      if ok.Some? {
        Assoc(start, done, b.value.memory);
      }
    }

    /** sd_copy for a given number of blocks; None while the card keeps it waiting. */
    method SdCopy(blocks: int) returns (rc: Option<nat>)
      requires Valid()
      modifies this`pos, this`memory
      ensures Valid()
      ensures var c := Copy(stream, old(pos), blocks);
              if c.None? then rc.None? else rc == Some(c.value.rc) && memory == c.value.memory && pos == c.value.pos
    {
      hide Command, Blocks;
      memory := [];
      var r := SdCmd();
      if r.None? { return None; }
      if r.value != Byte(0) {
        var x := Dummy();
        return if x.None? then None else Some(1);
      }
      rc := CopyBlocks(blocks);
      if rc.None? { return; }
      var x := Dummy();
      if x.None? { return None; }
      r := SdCmd();
      if r.None? { return None; }
      x := Dummy();
      if x.None? { return None; }
    }
  }

  // ----- what the card sends, block by block

  /** Idle bytes, the payload, and the check bytes as they arrive. */
  datatype Frame = Frame(idle: seq<Byte>, payload: seq<Byte>, hi: Byte, lo: Byte)

  ghost predicate Framed(f: Frame) {
    |f.payload| == BLOCK && forall k | 0 <= k < |f.idle| :: f.idle[k] != TOKEN
  }

  /** The check bytes are the remainder of the payload times x^16 by the generator. */
  ghost predicate Intact(f: Frame) {
    ByteBits(f.hi) + ByteBits(f.lo) == Rem(BlockBits(f.payload))
  }

  function Wire(f: Frame): seq<Byte> {
    f.idle + [TOKEN] + f.payload + [f.hi, f.lo]
  }

  function WireAll(fs: seq<Frame>): seq<Byte> {
    if fs == [] then [] else Wire(fs[0]) + WireAll(fs[1..])
  }

  function Payloads(fs: seq<Frame>): seq<Byte> {
    if fs == [] then [] else fs[0].payload + Payloads(fs[1..])
  }

  // ----- the two check bytes against the register

  lemma {:induction false} HighByte(h: bv8, l: bv8, m: bv8)
    ensures ((((h as bv16) << 8) | (l as bv16)) & ((m as bv16) << 8) != 0) == (h & m != 0)
  {}

  lemma {:induction false} LowByte(h: bv8, l: bv8, m: bv8)
    ensures ((((h as bv16) << 8) | (l as bv16)) & (m as bv16) != 0) == (l & m != 0)
  {}

  lemma {:induction false} Masks(k: nat)
    requires k < 8
    ensures RegMask(k) == (ByteMask(k) as bv16) << 8 && RegMask(k + 8) == ByteMask(k) as bv16
  {}

  lemma {:induction false} FieldAt(hi: Byte, lo: Byte, k: nat)
    requires k < 8
    ensures RegAt(Field(hi, lo), k) == ByteAt(hi, k)
    ensures RegAt(Field(hi, lo), k + 8) == ByteAt(lo, k)
  {
    Masks(k);
    HighByte(hi.bits, lo.bits, ByteMask(k));
    LowByte(hi.bits, lo.bits, ByteMask(k));
    hide RegMask, ByteMask;
  }

  lemma {:induction false} FieldBits(hi: Byte, lo: Byte)
    ensures Bits(Field(hi, lo)) == ByteBits(hi) + ByteBits(lo)
  {
    hide RegAt, ByteAt, Field;
    forall k | 0 <= k < 8
      ensures RegAt(Field(hi, lo), k) == ByteAt(hi, k) && RegAt(Field(hi, lo), k + 8) == ByteAt(lo, k)
    {
      FieldAt(hi, lo, k);
    }
    forall k | 0 <= k < 16
      ensures Bits(Field(hi, lo))[k] == (ByteBits(hi) + ByteBits(lo))[k]
    {
      if k >= 8 {
        assert RegAt(Field(hi, lo), (k - 8) + 8) == ByteAt(lo, k - 8);
      }
    }
  }

  /** Registers with the same polynomial are the same. */
  lemma {:induction false} BitsTell(a: Reg, b: Reg)
    requires Bits(a) == Bits(b)
    ensures a == b
  {
    forall k | 0 <= k < 16
      ensures RegAt(a, k) == RegAt(b, k)
    {
      assert Bits(a)[k] == Bits(b)[k];
      hide RegAt;
    }
    hide Bits, RegAt;
    AtAll(a, b);
  }

  lemma {:induction false} AtAll(a: Reg, b: Reg)
    requires forall k | 0 <= k < 16 :: RegAt(a, k) == RegAt(b, k)
    ensures a == b
  {
    hide RegAt;
    AtEach(a, b);
  }

  lemma {:induction false} AtEach(a: Reg, b: Reg)
    requires RegAt(a, 0) == RegAt(b, 0)
    requires RegAt(a, 1) == RegAt(b, 1)
    requires RegAt(a, 2) == RegAt(b, 2)
    requires RegAt(a, 3) == RegAt(b, 3)
    requires RegAt(a, 4) == RegAt(b, 4)
    requires RegAt(a, 5) == RegAt(b, 5)
    requires RegAt(a, 6) == RegAt(b, 6)
    requires RegAt(a, 7) == RegAt(b, 7)
    requires RegAt(a, 8) == RegAt(b, 8)
    requires RegAt(a, 9) == RegAt(b, 9)
    requires RegAt(a, 10) == RegAt(b, 10)
    requires RegAt(a, 11) == RegAt(b, 11)
    requires RegAt(a, 12) == RegAt(b, 12)
    requires RegAt(a, 13) == RegAt(b, 13)
    requires RegAt(a, 14) == RegAt(b, 14)
    requires RegAt(a, 15) == RegAt(b, 15)
    ensures a == b
  {}

  /** The check of the loader is the remainder of the block. */
  lemma {:induction false} CheckIsRemainder(block: seq<Byte>, hi: Byte, lo: Byte)
    ensures Crc(block) == Field(hi, lo) <==> ByteBits(hi) + ByteBits(lo) == Rem(BlockBits(block))
  {
    hide *;
    CrcIsRemainder(block);
    FieldBits(hi, lo);
    if Bits(Crc(block)) == Bits(Field(hi, lo)) {
      BitsTell(Crc(block), Field(hi, lo));
    }
  }

  // ----- the copy against the frames sent

  lemma {:induction false} TokenBehindIdle(s: seq<Byte>, pos: nat, n: nat)
    requires pos + n < |s| && s[pos + n] == TOKEN && forall k | pos <= k < pos + n :: s[k] != TOKEN
    ensures AfterToken(s, pos) == Some(pos + n + 1)
    decreases n
  {
    if n > 0 {
      TokenBehindIdle(s, pos + 1, n - 1);
    }
  }

  /** The stream carries these frames from here. */
  ghost predicate Carries(s: seq<Byte>, pos: nat, w: seq<Byte>) {
    pos + |w| <= |s| && s[pos..pos + |w|] == w
  }

  /** Where the parts of a frame lie. */
  lemma {:induction false} WireParts(s: seq<Byte>, pos: nat, f: Frame)
    requires Framed(f) && Carries(s, pos, Wire(f))
    ensures var n, t := |f.idle|, pos + |f.idle| + 1;
            && |Wire(f)| == n + 1 + BLOCK + 2 && pos + |Wire(f)| <= |s|
            && Carries(s, pos, f.idle) && Carries(s, pos + n, [TOKEN]) && Carries(s, t, f.payload)
            && Carries(s, t + BLOCK, [f.hi, f.lo])
  {
    assert |f.payload| == BLOCK && |Wire(f)| == |f.idle| + 1 + BLOCK + 2;
    assert Wire(f) == f.idle + ([TOKEN] + (f.payload + [f.hi, f.lo]));
    assert pos + |Wire(f)| <= |s|;
    hide *;
    CarriesBoth(s, pos, f.idle, [TOKEN] + (f.payload + [f.hi, f.lo]));
    CarriesBoth(s, pos + |f.idle|, [TOKEN], f.payload + [f.hi, f.lo]);
    CarriesBoth(s, pos + |f.idle| + 1, f.payload, [f.hi, f.lo]);
  }

  /** The next token behind bytes that are none. */
  lemma {:induction false} TokenFound(s: seq<Byte>, pos: nat, idle: seq<Byte>)
    requires TOKEN !in idle && Carries(s, pos, idle) && Carries(s, pos + |idle|, [TOKEN])
    ensures AfterToken(s, pos) == Some(pos + |idle| + 1)
  {
    var n := |idle|;
    assert s[pos + n] == s[pos + n..pos + n + 1][0] == TOKEN;
    forall k | pos <= k < pos + n
      ensures s[k] != TOKEN
    {
      assert s[k] == s[pos..pos + n][k - pos] == idle[k - pos];
      assert idle[k - pos] in idle;
    }
    TokenBehindIdle(s, pos, n);
  }

  /** One frame is received as it was sent, and accepted exactly when it is intact. */
  lemma {:induction false} FrameReceived(s: seq<Byte>, pos: nat, f: Frame)
    requires Framed(f) && Carries(s, pos, Wire(f))
    ensures var b := OneBlock(s, pos);
            b.Some? && b.value.memory == f.payload && b.value.pos == pos + |Wire(f)| && (b.value.rc == 0 <==> Intact(f))
  {
    var t := pos + |f.idle| + 1;
    assert TOKEN !in f.idle && |f.payload| == BLOCK;
    WireParts(s, pos, f);
    TokenFound(s, pos, f.idle);
    assert s[t..t + BLOCK] == f.payload;
    var e := t + BLOCK;
    assert s[e..e + 2] == [f.hi, f.lo];
    assert s[e] == s[e..e + 2][0] == f.hi && s[e + 1] == s[e..e + 2][1] == f.lo;
    CheckIsRemainder(f.payload, f.hi, f.lo);
    hide AfterToken, Crc, Field, Rem, BlockBits, ByteBits, Wire, Carries, Framed;
  }

  /** The first frame that is not intact, if any. */
  ghost predicate FirstBad(fs: seq<Frame>, k: nat) {
    k < |fs| && !Intact(fs[k]) && forall j | 0 <= j < k :: Intact(fs[j])
  }

  lemma {:induction false} CarriesBoth(s: seq<Byte>, pos: nat, x: seq<Byte>, y: seq<Byte>)
    ensures Carries(s, pos, x + y) <==> Carries(s, pos, x) && Carries(s, pos + |x|, y)
  {
    if Carries(s, pos, x + y) {
      assert s[pos..pos + |x|] == s[pos..pos + |x + y|][..|x|] == x;
      assert s[pos + |x|..pos + |x| + |y|] == s[pos..pos + |x + y|][|x|..] == y;
    }
    if Carries(s, pos, x) && Carries(s, pos + |x|, y) {
      assert s[pos..pos + |x + y|] == s[pos..pos + |x|] + s[pos + |x|..pos + |x| + |y|];
    }
  }

  /**
   Frames sent by the card: the copy returns 0 exactly when all are intact, and then memory holds their
   payloads, in order; otherwise it stops behind the first that is not.
   */
  lemma {:induction false} FramesReceived(s: seq<Byte>, pos: nat, fs: seq<Frame>)
    requires |fs| > 0 && (forall k | 0 <= k < |fs| :: Framed(fs[k])) && Carries(s, pos, WireAll(fs))
    ensures var b := Blocks(s, pos, |fs|);
            && b.Some? && (b.value.rc == 0 <==> forall k | 0 <= k < |fs| :: Intact(fs[k]))
            && (b.value.rc == 0 ==> b.value.memory == Payloads(fs) && b.value.pos == pos + |WireAll(fs)|)
            && (b.value.rc != 0 ==>
                  b.value.rc == 1 && exists k: nat | FirstBad(fs, k) :: b.value.memory == Payloads(fs[..k + 1]))
    decreases |fs|
  {
    hide Intact, Framed, Wire, OneBlock;
    var f, rest := fs[0], fs[1..];
    CarriesBoth(s, pos, Wire(f), WireAll(rest));
    FrameReceived(s, pos, f);
    if !Intact(f) {
      assert fs[..1] == [f] && fs[..1][1..] == [];
      assert FirstBad(fs, 0) && Payloads(fs[..1]) == f.payload;
    } else if |fs| == 1 {
      assert rest == [];
    } else {
      FramesReceived(s, pos + |Wire(f)|, rest);
      var b := Blocks(s, pos + |Wire(f)|, |rest|);
      assert forall k | 1 <= k < |fs| :: fs[k] == rest[k - 1];
      if b.value.rc != 0 {
        var k: nat :| FirstBad(rest, k) && b.value.memory == Payloads(rest[..k + 1]);
        BadLater(fs, k);
      }
    }
  }

  lemma {:induction false} BadLater(fs: seq<Frame>, k: nat)
    requires |fs| > 0 && Intact(fs[0]) && FirstBad(fs[1..], k)
    ensures FirstBad(fs, k + 1) && Payloads(fs[..k + 2]) == fs[0].payload + Payloads(fs[1..][..k + 1])
  {
    hide Intact;
    assert fs[..k + 2][1..] == fs[1..][..k + 1] && fs[..k + 2][0] == fs[0];
    forall j | 0 <= j < k + 1
      ensures Intact(fs[j])
    {
      if j > 0 {
        assert fs[j] == fs[1..][j - 1];
      }
    }
  }

  /** The frame a received block is. */
  lemma {:induction false} BlockIsFrame(s: seq<Byte>, pos: nat) returns (f: Frame)
    requires OneBlock(s, pos).Some?
    ensures Framed(f) && Carries(s, pos, Wire(f))
  {
    var t := AfterToken(s, pos).value;
    f := Frame(s[pos..t - 1], s[t..t + BLOCK], s[t + BLOCK], s[t + BLOCK + 1]);
    assert s[pos..t + BLOCK + 2] == Wire(f);
    hide AfterToken, Crc, Field;
  }

  /**
   The copy returns 0 only when it was sent the requested number of intact frames, and memory holds exactly
   their payloads.
   */
  lemma {:induction false} AcceptedIsIntact(s: seq<Byte>, pos: nat, n: nat) returns (fs: seq<Frame>)
    requires n > 0 && Blocks(s, pos, n).Some? && Blocks(s, pos, n).value.rc == 0
    ensures |fs| == n && (forall k | 0 <= k < n :: Framed(fs[k]) && Intact(fs[k])) && Carries(s, pos, WireAll(fs))
    ensures Blocks(s, pos, n).value.memory == Payloads(fs)
    decreases n
  {
    hide Intact, Framed, Wire, OneBlock;
    var f := BlockIsFrame(s, pos);
    FrameReceived(s, pos, f);
    if n == 1 {
      fs := [f];
      assert fs[1..] == [] && WireAll(fs) == Wire(f) + WireAll([]) == Wire(f);
      assert Payloads(fs) == f.payload + Payloads([]) == f.payload;
    } else {
      var rest := AcceptedIsIntact(s, pos + |Wire(f)|, n - 1);
      fs := [f] + rest;
      assert fs[1..] == rest;
      CarriesBoth(s, pos, Wire(f), WireAll(rest));
    }
  }

  // ----- errors on the way

  function Codeword(f: Frame): seq<bool> {
    BlockBits(f.payload) + (ByteBits(f.hi) + ByteBits(f.lo))
  }

  /** The frame arrives with errors, all of them within sixteen consecutive bits of payload and check bytes. */
  ghost predicate BurstHit(sent: Frame, received: Frame) {
    && |Codeword(sent)| == |Codeword(received)| && Codeword(sent) != Codeword(received)
    && exists w: int :: Within(Codeword(sent), Codeword(received), w)
  }

  ghost predicate Within(a: seq<bool>, b: seq<bool>, w: int)
    requires |a| == |b|
  {
    forall k | 0 <= k < |a| && a[k] != b[k] :: w <= k < w + 16
  }

  lemma {:induction false} BurstBreaks(sent: Frame, received: Frame)
    requires Framed(sent) && Framed(received) && Intact(sent) && BurstHit(sent, received)
    ensures !Intact(received)
  {
    var w :| Within(Codeword(sent), Codeword(received), w);
    var m, r := BlockBits(sent.payload), ByteBits(sent.hi) + ByteBits(sent.lo);
    var m', r' := BlockBits(received.payload), ByteBits(received.hi) + ByteBits(received.lo);
    assert |m| == |m'| == 8 * BLOCK && Codeword(sent) == m + r && Codeword(received) == m' + r';
    hide BlockBits, ByteBits, Rem;
    BurstNoticed(m, r, m', r', w);
  }

  /** If any block is hit by such a burst on its way, the copy fails. */
  lemma {:induction false} BurstFailsCopy(s: seq<Byte>, pos: nat, sent: seq<Frame>, received: seq<Frame>, k: nat)
    requires |sent| == |received| > 0 && k < |sent|
    requires forall j | 0 <= j < |sent| :: Framed(sent[j]) && Framed(received[j]) && Intact(sent[j])
    requires Carries(s, pos, WireAll(received)) && BurstHit(sent[k], received[k])
    ensures Blocks(s, pos, |sent|).Some? && Blocks(s, pos, |sent|).value.rc == 1
  {
    hide *;
    FramesReceived(s, pos, received);
    BurstBreaks(sent[k], received[k]);
  }

  lemma {:induction false} OneMore(memory: seq<Byte>, done: seq<Byte>, x: Byte)
    ensures memory + done + [x] == memory + (done + [x])
    ensures Crc(done + [x]) == Step(Crc(done), x)
  {
    assert (done + [x])[..|done|] == done;
    hide Step;
  }

  lemma {:induction false} NextByte(s: seq<Byte>, from: nat, k: nat)
    requires from <= k < |s|
    ensures s[from..k] + [s[k]] == s[from..k + 1]
  {}

  lemma {:induction false} Assoc(a: seq<Byte>, b: seq<Byte>, c: seq<Byte>)
    ensures (a + b) + c == a + (b + c)
  {}

  /** What a copy in progress will come to, from what it has stored and what the rest comes to. */
  ghost predicate AllOf(all: Option<Copied>, done: seq<Byte>, rest: Option<Copied>) {
    all == if rest.None? then None else Some(rest.value.(memory := done + rest.value.memory))
  }

  lemma {:induction false} NothingYet(x: Option<Copied>)
    ensures AllOf(x, [], x)
  {
    if x.Some? {
      assert [] + x.value.memory == x.value.memory;
    }
  }

  /** One block more. */
  lemma {:induction false} BlocksIs(s: seq<Byte>, pos: nat, n: nat, all: Option<Copied>, done: seq<Byte>)
    requires n > 0 && AllOf(all, done, Blocks(s, pos, n))
    ensures var b := OneBlock(s, pos);
            if b.None? then all.None?
            else if b.value.rc != 0 || n == 1 then all == Some(b.value.(memory := done + b.value.memory))
            else AllOf(all, done + b.value.memory, Blocks(s, b.value.pos, n - 1))
  {
    hide OneBlock;
    var b := OneBlock(s, pos);
    if b.Some? && n > 1 {
      var rest := Blocks(s, b.value.pos, n - 1);
      assert rest.Some? ==> done + (b.value.memory + rest.value.memory) == (done + b.value.memory) + rest.value.memory;
    }
  }

  lemma {:induction false} ResponseStep(s: seq<Byte>, pos: nat, tries: nat)
    requires tries > 0
    ensures Response(s, pos, tries) ==
            if pos >= |s| then None
            else if Ready(s[pos]) || tries == 1 then Some((s[pos], pos + 1))
            else Response(s, pos + 1, tries - 1)
  {
    hide Ready;
  }
}
