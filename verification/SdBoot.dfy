/** The whole boot copy against what the card sends: command exchanges and frames. */
module SdBoot {
  import opened Gf2
  import opened Crc16
  import opened SdCopy
  import opened Wrappers

  /** What the card sends to a command: seven bytes while it is received, busy bytes, the answer. */
  datatype Exchange = Exchange(lead: seq<Byte>, busy: seq<Byte>, answer: Byte)

  /** The answer is the first byte with its top bit clear, or the thousandth. */
  ghost predicate Exchanged(x: Exchange) {
    && |x.lead| == 7 && (forall k | 0 <= k < |x.busy| :: x.busy[k].bits >= 0x80)
    && if x.answer.bits < 0x80 then |x.busy| < 1000 else |x.busy| == 999
  }

  /** The answer is zero. */
  predicate Granted(x: Exchange) {
    x.answer == Byte(0)
  }

  function Said(x: Exchange): seq<Byte> {
    x.lead + (x.busy + [x.answer])
  }

  lemma {:induction false} TopBit(b: Byte)
    ensures Ready(b) <==> b.bits < 0x80
  {}

  lemma {:induction false} ResponseBehindBusy(s: seq<Byte>, pos: nat, busy: seq<Byte>, answer: Byte, tries: nat)
    requires Carries(s, pos, busy + [answer]) && forall k | 0 <= k < |busy| :: busy[k].bits >= 0x80
    requires |busy| < tries && (answer.bits < 0x80 || |busy| == tries - 1)
    ensures Response(s, pos, tries) == Some((answer, pos + |busy| + 1))
    decreases |busy|
  {
    var w := busy + [answer];
    assert s[pos] == s[pos..pos + |w|][0] == w[0];
    TopBit(s[pos]);
    if busy != [] {
      assert w == [busy[0]] + (busy[1..] + [answer]);
      CarriesBoth(s, pos, [busy[0]], busy[1..] + [answer]);
      ResponseBehindBusy(s, pos + 1, busy[1..], answer, tries - 1);
    }
    hide Ready, Carries;
  }

  /** A command gets the answer of the exchange. */
  lemma {:induction false} Answered(s: seq<Byte>, pos: nat, x: Exchange)
    requires Exchanged(x) && Carries(s, pos, Said(x))
    ensures Command(s, pos) == Some((x.answer, pos + |Said(x)|))
  {
    CarriesBoth(s, pos, x.lead, x.busy + [x.answer]);
    assert pos + |Said(x)| <= |s|;
    ResponseBehindBusy(s, pos + 7, x.busy, x.answer, 1000);
    hide Response, Carries;
  }

  lemma {:induction false} BusyBefore(s: seq<Byte>, pos: nat, tries: nat) returns (busy: seq<Byte>)
    requires tries > 0 && Response(s, pos, tries).Some?
    ensures var r := Response(s, pos, tries).value;
            && Carries(s, pos, busy + [r.0]) && r.1 == pos + |busy| + 1 && |busy| < tries
            && (forall k | 0 <= k < |busy| :: busy[k].bits >= 0x80) && (r.0.bits < 0x80 || |busy| == tries - 1)
    decreases tries
  {
    var r := Response(s, pos, tries).value;
    TopBit(s[pos]);
    if Ready(s[pos]) || tries == 1 {
      busy := [];
      assert s[pos..pos + 1] == [] + [r.0];
    } else {
      var rest := BusyBefore(s, pos + 1, tries - 1);
      busy := [s[pos]] + rest;
      assert s[pos..pos + 1] == [s[pos]];
      CarriesBoth(s, pos, [s[pos]], rest + [r.0]);
      assert busy + [r.0] == [s[pos]] + (rest + [r.0]);
    }
    hide Ready;
  }

  /** Every answer a command gets is that of an exchange. */
  lemma {:induction false} ExchangeOf(s: seq<Byte>, pos: nat) returns (x: Exchange)
    requires Command(s, pos).Some?
    ensures Exchanged(x) && Carries(s, pos, Said(x))
    ensures Command(s, pos) == Some((x.answer, pos + |Said(x)|))
  {
    var busy := BusyBefore(s, pos + 7, 1000);
    var lead, r := s[pos..pos + 7], Response(s, pos + 7, 1000).value;
    x := Exchange(lead, busy, r.0);
    CarriesBoth(s, pos, lead, busy + [r.0]);
    hide Response;
  }

  lemma {:induction false} ResponseComes(s: seq<Byte>, pos: nat, tries: nat)
    requires tries > 0 && pos + tries <= |s|
    ensures Response(s, pos, tries).Some? && pos < Response(s, pos, tries).value.1 <= pos + tries
    decreases tries
  {
    if tries > 1 && !Ready(s[pos]) {
      ResponseComes(s, pos + 1, tries - 1);
    }
    hide Ready;
  }

  lemma {:induction false} CommandEnds(s: seq<Byte>, pos: nat)
    requires pos + 1007 <= |s|
    ensures Command(s, pos).Some? && Command(s, pos).value.1 <= pos + 1007
  {
    ResponseComes(s, pos + 7, 1000);
    hide Response;
  }

  /** What the loop is asked for, at least one block. */
  function Wanted(blocks: int): nat {
    if blocks <= 1 then 1 else blocks
  }

  // ----- the block loop, behind the answer to the read command

  ghost predicate AllFramed(fs: seq<Frame>) {
    forall k | 0 <= k < |fs| :: Framed(fs[k])
  }

  ghost predicate AllIntact(fs: seq<Frame>) {
    forall k | 0 <= k < |fs| :: Intact(fs[k])
  }

  /** Memory holds the payloads up to the first frame that is not intact. */
  ghost predicate UpToBad(fs: seq<Frame>, memory: seq<Byte>) {
    exists k: nat | FirstBad(fs, k) :: memory == Payloads(fs[..k + 1])
  }

  /** What the block loop makes of these frames. */
  ghost predicate Receives(c: Copied, fs: seq<Frame>) {
    && c.rc <= 1 && (c.rc == 0 <==> AllIntact(fs))
    && (c.rc == 0 ==> c.memory == Payloads(fs)) && (c.rc == 1 ==> UpToBad(fs, c.memory))
  }

  lemma {:induction false} LoopReceives(s: seq<Byte>, pos: nat, fs: seq<Frame>)
    requires |fs| > 0 && AllFramed(fs) && Carries(s, pos, WireAll(fs))
    ensures var b := Blocks(s, pos, |fs|);
            && b.Some? && Receives(b.value, fs) && b.value.pos <= pos + |WireAll(fs)|
            && (b.value.rc == 0 ==> b.value.pos == pos + |WireAll(fs)|)
  {
    FramesReceived(s, pos, fs);
    BlocksWithin(s, pos, fs);
    hide Blocks, Intact, Framed, FirstBad, Payloads, WireAll, Carries;
  }

  lemma {:induction false} LoopAccepts(s: seq<Byte>, pos: nat, n: nat) returns (fs: seq<Frame>)
    requires n > 0 && Blocks(s, pos, n).Some? && Blocks(s, pos, n).value.rc == 0
    ensures |fs| == n && AllFramed(fs) && AllIntact(fs) && Carries(s, pos, WireAll(fs))
    ensures Blocks(s, pos, n).value.memory == Payloads(fs) && Blocks(s, pos, n).value.pos == pos + |WireAll(fs)|
  {
    fs := AcceptedIsIntact(s, pos, n);
    hide Blocks, Intact, Framed, FirstBad, Payloads, WireAll, Carries;
    LoopReceives(s, pos, fs);
  }

  /** The loop stops at the latest behind the last frame. */
  lemma {:induction false} BlocksWithin(s: seq<Byte>, pos: nat, fs: seq<Frame>)
    requires |fs| > 0 && AllFramed(fs) && Carries(s, pos, WireAll(fs))
    ensures Blocks(s, pos, |fs|).Some? && Blocks(s, pos, |fs|).value.pos <= pos + |WireAll(fs)|
    decreases |fs|
  {
    hide Intact, Framed, Wire, OneBlock;
    var f, rest := fs[0], fs[1..];
    CarriesBoth(s, pos, Wire(f), WireAll(rest));
    FrameReceived(s, pos, f);
    if |fs| > 1 {
      BlocksWithin(s, pos + |Wire(f)|, rest);
    }
  }

  /** The exchange of the read command and the frames behind it. */
  function Sent(x: Exchange, fs: seq<Frame>): seq<Byte> {
    Said(x) + WireAll(fs)
  }

  lemma {:induction false} SentParts(s: seq<Byte>, pos: nat, x: Exchange, fs: seq<Frame>)
    ensures Carries(s, pos, Sent(x, fs)) <==> Carries(s, pos, Said(x)) && Carries(s, pos + |Said(x)|, WireAll(fs))
    ensures |Sent(x, fs)| == |Said(x)| + |WireAll(fs)|
  {
    CarriesBoth(s, pos, Said(x), WireAll(fs));
    hide Carries, Said, WireAll;
  }

  // ----- the parts of the copy

  /** A read command that is not answered with zero: nothing is copied. */
  lemma {:induction false} CopyRefused(s: seq<Byte>, pos: nat, blocks: int, x: Exchange)
    requires Exchanged(x) && Carries(s, pos, Said(x)) && !Granted(x)
    ensures var c, end := Copy(s, pos, blocks), pos + |Said(x)|;
            c == if end < |s| then Some(Copied(1, [], end + 1)) else None
  {
    assert x.answer != Byte(0);
    Answered(s, pos, x);
    CopyByAnswer(s, pos, blocks, x.answer, pos + |Said(x)|);
    hide *;
  }

  /** Behind the block loop: one byte, the stop command, one byte; result and memory stay. */
  ghost function Stopped(s: seq<Byte>, b: Option<Copied>): Option<Copied> {
    if b.None? || b.value.pos + 1 > |s| then None
    else
      var e := Command(s, b.value.pos + 1);
      if e.None? || e.value.1 + 1 > |s| then None else Some(Copied(b.value.rc, b.value.memory, e.value.1 + 1))
  }

  lemma {:induction false} CopyByAnswer(s: seq<Byte>, pos: nat, blocks: int, answer: Byte, end: nat)
    requires Command(s, pos) == Some((answer, end))
    ensures answer != Byte(0) ==> Copy(s, pos, blocks) == if end < |s| then Some(Copied(1, [], end + 1)) else None
    ensures answer == Byte(0) ==> Copy(s, pos, blocks) == Stopped(s, Blocks(s, end, Wanted(blocks)))
  {
    assert Requested(blocks) == Wanted(blocks);
    hide Command, Blocks, Wanted, Requested;
  }

  /** Otherwise the block loop runs behind the answer. */
  lemma {:induction false} CopyGranted(s: seq<Byte>, pos: nat, blocks: int, x: Exchange)
    requires Exchanged(x) && Carries(s, pos, Said(x)) && Granted(x)
    ensures Copy(s, pos, blocks) == Stopped(s, Blocks(s, pos + |Said(x)|, Wanted(blocks)))
  {
    assert x.answer == Byte(0);
    Answered(s, pos, x);
    CopyByAnswer(s, pos, blocks, x.answer, pos + |Said(x)|);
    hide *;
  }

  lemma {:induction false} StoppedEnds(s: seq<Byte>, b: Copied)
    requires b.pos + 1009 <= |s|
    ensures Stopped(s, Some(b)).Some?
  {
    CommandEnds(s, b.pos + 1);
    hide Command;
  }

  /** The stop command has got an answer. */
  lemma {:induction false} StoppedBy(s: seq<Byte>, b: Option<Copied>) returns (stop: Exchange)
    requires Stopped(s, b).Some?
    ensures b.Some? && var c := Stopped(s, b).value;
            && c.rc == b.value.rc && c.memory == b.value.memory
            && Exchanged(stop) && Carries(s, b.value.pos + 1, Said(stop)) && c.pos == b.value.pos + |Said(stop)| + 2
  {
    stop := ExchangeOf(s, b.value.pos + 1);
    hide Command, Carries, Said, Exchanged;
  }

  /** With 1009 bytes behind the frames the copy comes to its end. */
  lemma {:induction false} CopyEnds(s: seq<Byte>, pos: nat, blocks: int, x: Exchange, fs: seq<Frame>)
    requires Exchanged(x) && |fs| == Wanted(blocks) && AllFramed(fs)
    requires Carries(s, pos, Sent(x, fs)) && pos + |Sent(x, fs)| + 1009 <= |s|
    ensures Copy(s, pos, blocks).Some?
  {
    assert |fs| > 0;
    hide *;
    SentParts(s, pos, x, fs);
    if Granted(x) {
      LoopEnds(s, pos + |Said(x)|, fs);
      CopyGranted(s, pos, blocks, x);
    } else {
      CopyRefused(s, pos, blocks, x);
    }
  }

  lemma {:induction false} LoopEnds(s: seq<Byte>, at: nat, fs: seq<Frame>)
    requires |fs| > 0 && AllFramed(fs) && Carries(s, at, WireAll(fs)) && at + |WireAll(fs)| + 1009 <= |s|
    ensures Stopped(s, Blocks(s, at, |fs|)).Some?
  {
    hide *;
    LoopReceives(s, at, fs);
    StoppedEnds(s, Blocks(s, at, |fs|).value);
  }

  // ----- the whole copy

  /**
   The result is 0 if and only if the read command is answered with zero and all frames are intact; then memory
   holds their payloads. Another answer gives 1 and copies nothing; a frame that is not intact gives 1, and
   memory holds the payloads up to it.
   */
  lemma {:induction false} CopyExactly(s: seq<Byte>, pos: nat, blocks: int, x: Exchange, fs: seq<Frame>)
    requires Exchanged(x) && |fs| == Wanted(blocks) && AllFramed(fs)
    requires Carries(s, pos, Sent(x, fs)) && Copy(s, pos, blocks).Some?
    ensures var c := Copy(s, pos, blocks).value;
            && c.rc <= 1 && (c.rc == 0 <==> Granted(x) && AllIntact(fs))
            && (c.rc == 0 ==> c.memory == Payloads(fs))
            && (!Granted(x) ==> c.memory == [])
            && (c.rc == 1 && Granted(x) ==> UpToBad(fs, c.memory))
  {
    assert |fs| > 0;
    hide *;
    SentParts(s, pos, x, fs);
    if Granted(x) {
      CopyReceives(s, pos, blocks, x, fs);
      ReceivesIs(Copy(s, pos, blocks).value, fs);
    } else {
      CopyRefused(s, pos, blocks, x);
    }
  }

  lemma {:induction false} CopyReceives(s: seq<Byte>, pos: nat, blocks: int, x: Exchange, fs: seq<Frame>)
    requires Exchanged(x) && Granted(x) && |fs| == Wanted(blocks) > 0 && AllFramed(fs)
    requires Carries(s, pos, Said(x)) && Carries(s, pos + |Said(x)|, WireAll(fs)) && Copy(s, pos, blocks).Some?
    ensures Receives(Copy(s, pos, blocks).value, fs)
  {
    hide *;
    var at := pos + |Said(x)|;
    CopyGranted(s, pos, blocks, x);
    LoopReceives(s, at, fs);
    var stop := StoppedBy(s, Blocks(s, at, |fs|));
    ReceivesSame(Blocks(s, at, |fs|).value, Copy(s, pos, blocks).value, fs);
  }

  lemma {:induction false} ReceivesSame(b: Copied, c: Copied, fs: seq<Frame>)
    requires Receives(b, fs) && c.rc == b.rc && c.memory == b.memory
    ensures Receives(c, fs)
  {
    hide AllIntact, UpToBad, Payloads;
  }

  lemma {:induction false} ReceivesIs(c: Copied, fs: seq<Frame>)
    requires Receives(c, fs)
    ensures c.rc <= 1 && (c.rc == 0 <==> AllIntact(fs))
    ensures (c.rc == 0 ==> c.memory == Payloads(fs)) && (c.rc == 1 ==> UpToBad(fs, c.memory))
  {
    hide AllIntact, UpToBad, Payloads;
  }

  lemma {:induction false} GrantOf(s: seq<Byte>, pos: nat, blocks: int) returns (x: Exchange)
    requires Copy(s, pos, blocks).Some? && Copy(s, pos, blocks).value.rc == 0
    ensures Exchanged(x) && Granted(x) && Carries(s, pos, Said(x))
  {
    assert Command(s, pos).Some? && Command(s, pos).value.0 == Byte(0);
    x := ExchangeOf(s, pos);
    hide Exchanged, Command, Carries, Said, Copy;
  }

  /**
   A result of 0: the card granted the read, sent that many intact frames, and answered the stop command one byte
   behind them; memory holds the payloads, and one more byte has been read behind that answer.
   */
  lemma {:induction false} CopyAccepted(s: seq<Byte>, pos: nat, blocks: int)
      returns (x: Exchange, fs: seq<Frame>, stop: Exchange)
    requires Copy(s, pos, blocks).Some? && Copy(s, pos, blocks).value.rc == 0
    ensures Granted(x) && |fs| == Wanted(blocks) && AllFramed(fs) && AllIntact(fs)
    ensures Dialogue(s, pos, x, fs, stop, Copy(s, pos, blocks).value.pos)
    ensures Copy(s, pos, blocks).value.memory == Payloads(fs)
  {
    assert Wanted(blocks) > 0;
    x := GrantOf(s, pos, blocks);
    hide *;
    CopyGranted(s, pos, blocks, x);
    fs, stop := LoopDialogue(s, pos, x, Wanted(blocks));
  }

  lemma {:induction false} LoopDialogue(s: seq<Byte>, pos: nat, x: Exchange, n: nat)
      returns (fs: seq<Frame>, stop: Exchange)
    requires Exchanged(x) && Carries(s, pos, Said(x)) && n > 0
    requires var c := Stopped(s, Blocks(s, pos + |Said(x)|, n)); c.Some? && c.value.rc == 0
    ensures |fs| == n && AllFramed(fs) && AllIntact(fs)
    ensures var c := Stopped(s, Blocks(s, pos + |Said(x)|, n)).value;
            Dialogue(s, pos, x, fs, stop, c.pos) && c.memory == Payloads(fs)
  {
    hide *;
    var at := pos + |Said(x)|;
    stop := StoppedBy(s, Blocks(s, at, n));
    fs := LoopAccepts(s, at, n);
    DialogueIs(s, pos, x, fs, stop, Stopped(s, Blocks(s, at, n)).value.pos);
  }

  /** A read command, frames, and a stop command, each with its answer, and what is read in between. */
  ghost predicate Dialogue(s: seq<Byte>, pos: nat, x: Exchange, fs: seq<Frame>, stop: Exchange, end: nat) {
    && Exchanged(x) && Exchanged(stop) && Carries(s, pos, Sent(x, fs))
    && Carries(s, pos + |Sent(x, fs)| + 1, Said(stop)) && end == pos + |Sent(x, fs)| + |Said(stop)| + 2
  }

  lemma {:induction false} DialogueIs(s: seq<Byte>, pos: nat, x: Exchange, fs: seq<Frame>, stop: Exchange, end: nat)
    requires Exchanged(x) && Exchanged(stop) && Carries(s, pos, Said(x)) && Carries(s, pos + |Said(x)|, WireAll(fs))
    requires Carries(s, pos + |Said(x)| + |WireAll(fs)| + 1, Said(stop))
    requires end == pos + |Said(x)| + |WireAll(fs)| + |Said(stop)| + 2
    ensures Dialogue(s, pos, x, fs, stop, end)
  {
    SentParts(s, pos, x, fs);
    hide Exchanged, Carries, Said, WireAll, Sent;
  }

  /** If any frame is hit by an error of at most sixteen bits on its way, the boot copy returns 1. */
  lemma {:induction false} BurstFailsBoot(s: seq<Byte>, pos: nat, blocks: int, x: Exchange,
                                          sent: seq<Frame>, received: seq<Frame>, k: nat)
    requires Exchanged(x) && |sent| == |received| == Wanted(blocks) && k < |sent|
    requires AllFramed(sent) && AllFramed(received) && AllIntact(sent) && BurstHit(sent[k], received[k])
    requires Carries(s, pos, Sent(x, received)) && Copy(s, pos, blocks).Some?
    ensures Copy(s, pos, blocks).value.rc == 1
  {
    assert Framed(sent[k]) && Framed(received[k]) && Intact(sent[k]);
    assert AllIntact(received) ==> Intact(received[k]);
    hide *;
    CopyExactly(s, pos, blocks, x, received);
    BurstBreaks(sent[k], received[k]);
  }
}
