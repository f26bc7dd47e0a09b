/** The formatted printer of the bare-metal runtime: numbers, texts, and the reading of escapes. */
module Printf {
  import opened Bits
  import opened Wrappers

  /** A text in memory: one zero, at its end. */
  predicate CString(s: string) {
    |s| > 0 && s[|s| - 1] == '\0' && forall i | 0 <= i < |s| - 1 :: s[i] != '\0'
  }

  type Text = s: string | CString(s) witness ['\0']

  type Long = x: int | -0x8000_0000_0000_0000 <= x < 0x8000_0000_0000_0000

  /** What one argument position holds: a register, and the text it points to, none for the null pointer. */
  datatype Slot = Slot(word: Long, text: Option<Text>)

  type Slots = nat -> Slot

  /** The signed argument a conversion takes: an int, or a long when l was seen. */
  function SignedArg(word: Long, lflag: nat): (n: Long)
    ensures lflag > 0 || -0x8000_0000 <= word < 0x8000_0000 ==> n == word
  {
    if lflag > 0 then word else (word + 0x8000_0000) % 0x1_0000_0000 - 0x8000_0000
  }

  function UnsignedArg(word: Long, lflag: nat): (n: nat)
    ensures n < 0x1_0000_0000_0000_0000
  {
    if lflag > 0 then word % 0x1_0000_0000_0000_0000 else word % 0x1_0000_0000
  }

  // ----- numbers

  function DigitChar(d: nat): char
    requires d < 16
  {
    if d < 10 then ('0' as int + d) as char else ('a' as int + d - 10) as char
  }

  function Repeat(c: char, n: int): (s: string)
    ensures |s| == if n > 0 then n else 0
    ensures forall x | x in s :: x == c
  {
    if n <= 0 then [] else [c] + Repeat(c, n - 1)
  }

  /** The digits of a number, without leading zeros. */
  function Digits(num: nat, base: nat): (s: string)
    requires 2 <= base <= 16
    ensures |s| > 0
  {
    if num < base then [DigitChar(num)] else Digits(num / base, base) + [DigitChar(num % base)]
  }

  function Padded(padc: char, width: int, s: string): (t: string)
    ensures |t| == if width > |s| then width else |s|
  {
    Repeat(padc, width - |s|) + s
  }

  function Magnitude(n: int): nat {
    if n < 0 then -n else n
  }

  /** A signed number: the sign stands in front of the padding and outside the width. */
  function Signed(n: int, width: int, padc: char): string {
    (if n < 0 then "-" else "") + Padded(padc, width, Digits(Magnitude(n), 10))
  }

  // ----- texts

  function TextLength(t: Text, limit: int): (n: nat)
    ensures n < |t|
  {
    if 0 <= limit < |t| then limit else |t| - 1
  }

  function Justified(t: Text, f: Flags): string {
    var s := t[..TextLength(t, f.precision)];
    if f.padc == '-' then s + Repeat(' ', f.width - |s|) else Padded(f.padc, f.width, s)
  }

  // ----- escapes

  datatype Flags = Flags(padc: char, width: int, precision: int, lflag: nat)

  const NoFlags := Flags(' ', -1, -1, 0)

  /** A number is the width first, and the precision once there is a width. */
  function WithNumber(f: Flags, n: int): Flags {
    if f.width < 0 then f.(width := n, precision := -1) else f.(precision := n)
  }

  predicate IsDecimal(c: char) {
    '0' <= c <= '9'
  }

  /** The number that continues v at i, and where it ends. */
  function Number(f: Text, i: nat, v: nat): (r: (nat, nat))
    requires i < |f|
    ensures i <= r.1 < |f| && !IsDecimal(f[r.1])
    decreases |f| - i
  {
    if IsDecimal(f[i]) then Number(f, i + 1, v * 10 + (f[i] as int - '0' as int)) else (v, i)
  }

  /** Where an escape ends: the place of its conversion character, its flags, and the next argument. */
  datatype Escape = Escape(at: nat, flags: Flags, arg: nat)

  function Scan(f: Text, i: nat, fl: Flags, slots: Slots, arg: nat): (e: Escape)
    requires i < |f|
    ensures i <= e.at < |f|
    decreases |f| - i
  {
    var c := f[i];
    if c == '-' then Scan(f, i + 1, fl.(padc := '-'), slots, arg)
    else if c == '0' then Scan(f, i + 1, fl.(padc := '0'), slots, arg)
    else if '1' <= c <= '9' then
      var n := Number(f, i, 0);
      assert n.1 > i;
      Scan(f, n.1, WithNumber(fl, n.0), slots, arg)
    else if c == '*' then Scan(f, i + 1, WithNumber(fl, SignedArg(slots(arg).word, 0)), slots, arg + 1)
    else if c == '.' then Scan(f, i + 1, if fl.width < 0 then fl.(width := 0) else fl, slots, arg)
    else if c == '#' then Scan(f, i + 1, fl, slots, arg)
    else if c == 'l' then Scan(f, i + 1, fl.(lflag := fl.lflag + 1), slots, arg)
    else Escape(i, fl, arg)
  }

  predicate Known(c: char) {
    c in "csduopx%"
  }

  function ArgsUsed(c: char): nat {
    if c == '%' then 0 else 1
  }

  /** What a conversion character prints. */
  function Convert(c: char, f: Flags, slot: Slot): string
    requires Known(c)
  {
    match c
    case 'c' => [(slot.word % 256) as char]
    case 's' => Justified(if slot.text.None? then "(null)\0" else slot.text.value, f)
    case 'd' => Signed(SignedArg(slot.word, f.lflag), f.width, f.padc)
    case 'u' => Padded(f.padc, f.width, Digits(UnsignedArg(slot.word, f.lflag), 10))
    case 'o' => Padded(f.padc, f.width, Digits(UnsignedArg(slot.word, f.lflag), 8))
    case 'x' => Padded(f.padc, f.width, Digits(UnsignedArg(slot.word, f.lflag), 16))
    case 'p' => "0x" + Padded(f.padc, f.width, Digits(UnsignedArg(slot.word, 1), 16))
    case _ => "%"
  }

  /** All that is printed from place i of a format on. */
  function Render(f: Text, i: nat, slots: Slots, arg: nat): string
    requires i < |f|
    decreases |f| - i
  {
    if f[i] == '\0' then ""
    else if f[i] == '\n' then "\n\r" + Render(f, i + 1, slots, arg)
    else if f[i] != '%' then [f[i]] + Render(f, i + 1, slots, arg)
    else
      var e := Scan(f, i + 1, NoFlags, slots, arg);
      var c := f[e.at];
      if Known(c) then Convert(c, e.flags, slots(e.arg)) + Render(f, e.at + 1, slots, e.arg + ArgsUsed(c))
      else "%" + Render(f, i + 1, slots, e.arg)
  }

  // ----- the program

  /** Where the characters go. */
  class Sink {
    var out: string

    constructor ()
      ensures out == ""
    {
      out := "";
    }

    method Putch(c: char)
      modifies this
      ensures out == old(out) + [c]
    {
      out := out + [c];
    }
  }

  lemma {:induction false} RepeatStep(c: char, n: int)
    requires n > 0
    ensures [c] + Repeat(c, n - 1) == Repeat(c, n)
  {}

  method PutRepeat(sink: Sink, c: char, n: int)
    modifies sink
    ensures sink.out == old(sink.out) + Repeat(c, n)
  {
    var width := n;
    while width > 0
      invariant sink.out + Repeat(c, width) == old(sink.out) + Repeat(c, n)
    {
      RepeatStep(c, width);
      ghost var before := sink.out;
      sink.Putch(c);
      assert sink.out + Repeat(c, width - 1) == before + ([c] + Repeat(c, width - 1));
      width := width - 1;
    }
  }

  lemma {:induction false} HalfBelow(num: nat, base: nat, n: nat)
    requires n > 0 && base >= 2 && num < Pow2(n)
    ensures num / base < Pow2(n - 1)
  {
    var p, q := Pow2(n - 1), num / base;
    assert Pow2(n) == 2 * p;
    assert base * q <= num;
    assert 2 * q <= base * q;
  }

  /** The digits in the buffer, lowest first, as text. */
  predicate Stored(digs: seq<nat>, s: string) {
    |digs| == |s| && forall k | 0 <= k < |s| :: digs[k] < 16 && s[|s| - 1 - k] == DigitChar(digs[k])
  }

  lemma {:induction false} StoreOne(digs: seq<nat>, s: string, d: nat)
    requires Stored(digs, s) && d < 16
    ensures Stored(digs + [d], [DigitChar(d)] + s)
  {
    hide DigitChar;
    var t := [DigitChar(d)] + s;
    forall k | 0 <= k < |t|
      ensures (digs + [d])[k] < 16 && t[|t| - 1 - k] == DigitChar((digs + [d])[k])
    {
      if k < |s| {
        assert s[|s| - 1 - k] == DigitChar(digs[k]);
      }
    }
  }

  /** Fills the digit buffer; 64 places are enough in every base. */
  method FillDigits(digs: array<nat>, num0: nat, base: nat) returns (pos: nat)
    requires digs.Length == 64 && 2 <= base <= 16 && num0 < 0x1_0000_0000_0000_0000
    modifies digs
    ensures 0 < pos <= 64 && Stored(digs[..pos], Digits(num0, base))
  {
    hide *;
    var num: nat := num0;
    ghost var tail := "";
    pos := 0;
    Pow2Of64();
    assert Digits(num0, base) == Digits(num0, base) + tail;
    assert Stored(digs[..pos], tail) by { assert digs[..pos] == []; Empty(); }
    while true
      invariant 0 <= pos < 64 && num < Pow2(64 - pos)
      invariant Digits(num0, base) == Digits(num, base) + tail && Stored(digs[..pos], tail)
      decreases num
    {
      digs[pos] := num % base;
      DigitsStep(num, base, tail);
      assert digs[..pos + 1] == digs[..pos] + [num % base];
      StoreOne(digs[..pos], tail, num % base);
      tail := [DigitChar(num % base)] + tail;
      pos := pos + 1;
      if num < base {
        assert Digits(num0, base) == tail;
        break;
      }
      HalfBelow(num, base, 65 - pos);
      Room(num / base, base, num, 64 - pos);
      num := num / base;
    }
  }

  lemma {:induction false} Empty()
    ensures Stored([], "")
  {}

  lemma {:induction false} DigitsStep(num: nat, base: nat, tail: string)
    requires 2 <= base <= 16
    ensures Digits(num, base) + tail
         == (if num < base then [] else Digits(num / base, base)) + ([DigitChar(num % base)] + tail)
  {
    hide DigitChar;
  }

  lemma {:induction false} Room(q: nat, base: nat, num: nat, n: int)
    requires base >= 2 && num >= base && q == num / base && n >= 0 && q < Pow2(n)
    ensures n > 0 && q < num
  {}

  method PrintNum(sink: Sink, num: nat, base: nat, width: int, padc: char)
    requires 2 <= base <= 16 && num < 0x1_0000_0000_0000_0000
    modifies sink
    ensures sink.out == old(sink.out) + Padded(padc, width, Digits(num, base))
  {
    hide Repeat, DigitChar, Digits;
    var digs := new nat[64];
    var pos := FillDigits(digs, num, base);
    ghost var s := Digits(num, base);
    PutRepeat(sink, padc, width - pos);
    ghost var before := sink.out;
    ghost var n := pos;
    while pos > 0
      invariant 0 <= pos <= n == |s| && Stored(digs[..n], s)
      invariant sink.out == before + s[..n - pos]
    {
      pos := pos - 1;
      assert digs[..n][pos] == digs[pos] && s[n - 1 - pos] == DigitChar(digs[pos]);
      assert s[..n - pos] == s[..n - 1 - pos] + [s[n - 1 - pos]];
      sink.Putch(DigitChar(digs[pos]));
    }
    assert s[..n] == s;
  }

  /** A negative limit, converted to an unsigned size, exceeds every text. */
  method Strnlen(t: Text, limit: int) returns (n: nat)
    ensures n == TextLength(t, limit)
  {
    n := 0;
    while n != limit && t[n] != '\0'
      invariant 0 <= n < |t| && (limit >= 0 ==> n <= limit)
      decreases |t| - n
    {
      n := n + 1;
    }
  }

  method PrintText(sink: Sink, t: Text, f: Flags)
    modifies sink
    ensures sink.out == old(sink.out) + Justified(t, f)
  {
    hide Repeat;
    var width := f.width;
    ghost var len := TextLength(t, f.precision);
    if width > 0 && f.padc != '-' {
      var n := Strnlen(t, f.precision);
      width := width - n;
      PutRepeat(sink, f.padc, width);
      width := if width > 0 then 0 else width;
    }
    ghost var before := sink.out;
    ghost var width0 := width;
    var p, precision := 0, f.precision;
    while t[p] != '\0' && (precision < 0 || precision - 1 >= 0)
      invariant 0 <= p <= len < |t| && sink.out == before + t[..p] && width == width0 - p
      invariant precision == if f.precision < 0 then f.precision else f.precision - p
      decreases |t| - p
    {
      precision := if precision < 0 then precision else precision - 1;
      sink.Putch(t[p]);
      assert t[..p + 1] == t[..p] + [t[p]];
      p := p + 1;
      width := width - 1;
    }
    assert p == len;
    PutRepeat(sink, ' ', width);
    TextPrinted(t, f, width0);
  }

  lemma {:induction false} TextPrinted(t: Text, f: Flags, width: int)
    requires var n := f.width - TextLength(t, f.precision);
             width == if f.width > 0 && f.padc != '-' then (if n > 0 then 0 else n) else f.width
    ensures (if f.width > 0 && f.padc != '-' then Repeat(f.padc, f.width - TextLength(t, f.precision)) else [])
            + t[..TextLength(t, f.precision)] + Repeat(' ', width - TextLength(t, f.precision))
         == Justified(t, f)
  {}

  /** Reads an escape behind its percent sign; every turn of the loop is one jump back to the switch. */
  method ReadEscape(f: Text, start: nat, slots: Slots, arg0: nat) returns (i: nat, fl: Flags, arg: nat)
    requires start < |f|
    ensures Escape(i, fl, arg) == Scan(f, start, NoFlags, slots, arg0) && i < |f|
  {
    i, fl, arg := start, NoFlags, arg0;
    while f[i] in "-0123456789*.#l"
      invariant start <= i < |f|
      invariant Scan(f, i, fl, slots, arg) == Scan(f, start, NoFlags, slots, arg0)
      decreases |f| - i
    {
      var c := f[i];
      if c == '-' || c == '0' {
        fl := fl.(padc := c);
        i := i + 1;
      } else if '1' <= c <= '9' {
        var n;
        n, i := ReadNumber(f, i);
        fl := WithNumber(fl, n);
      } else if c == '*' {
        fl := WithNumber(fl, SignedArg(slots(arg).word, 0));
        i, arg := i + 1, arg + 1;
      } else if c == '.' {
        fl := if fl.width < 0 then fl.(width := 0) else fl;
        i := i + 1;
      } else if c == '#' {
        i := i + 1;
      } else {
        fl := fl.(lflag := fl.lflag + 1);
        i := i + 1;
      }
    }
  }

  method ReadNumber(f: Text, start: nat) returns (n: nat, i: nat)
    requires start < |f| && IsDecimal(f[start])
    ensures (n, i) == Number(f, start, 0) && start < i < |f|
  {
    n, i := 0, start;
    while IsDecimal(f[i])
      invariant start <= i < |f| && Number(f, i, n) == Number(f, start, 0)
      decreases |f| - i
    {
      n := n * 10 + (f[i] as int - '0' as int);
      i := i + 1;
    }
  }

  /** Prints one conversion, or reports that there is none of that name. */
  method PrintConversion(sink: Sink, c: char, f: Flags, slot: Slot) returns (known: bool)
    modifies sink
    ensures known == Known(c)
    ensures sink.out == old(sink.out) + if known then Convert(c, f, slot) else ""
  {
    hide Padded, Digits, Justified, SignedArg, UnsignedArg;
    known := true;
    match c
    case 'c' => sink.Putch((slot.word % 256) as char);
    case 's' => PrintText(sink, if slot.text.None? then "(null)\0" else slot.text.value, f);
    case 'd' => PrintSigned(sink, SignedArg(slot.word, f.lflag), f.width, f.padc);
    case 'u' => PrintNum(sink, UnsignedArg(slot.word, f.lflag), 10, f.width, f.padc);
    case 'o' => PrintNum(sink, UnsignedArg(slot.word, f.lflag), 8, f.width, f.padc);
    case 'x' => PrintNum(sink, UnsignedArg(slot.word, f.lflag), 16, f.width, f.padc);
    case 'p' =>
      sink.Putch('0');
      sink.Putch('x');
      PrintNum(sink, UnsignedArg(slot.word, 1), 16, f.width, f.padc);
    case '%' => sink.Putch('%');
    case _ => known := false;
  }

  method PrintSigned(sink: Sink, n: Long, width: int, padc: char)
    modifies sink
    ensures sink.out == old(sink.out) + Signed(n, width, padc)
  {
    hide Padded, Digits;
    var num: int := n;
    if num < 0 {
      sink.Putch('-');
      num := -num;
    }
    PrintNum(sink, num, 10, width, padc);
  }

  /** The printer: for every format it ends, and it reads no character behind the zero. */
  method Vprintfmt(sink: Sink, f: Text, slots: Slots)
    modifies sink
    ensures sink.out == old(sink.out) + Render(f, 0, slots, 0)
  {
    hide Convert, Known, Scan;
    var i, arg := 0, 0;
    ghost var before := sink.out;
    while true
      invariant 0 <= i < |f| && sink.out + Render(f, i, slots, arg) == before + Render(f, 0, slots, 0)
      decreases |f| - i
    {
      ghost var now := sink.out;
      if f[i] == '\0' {
        return;
      } else if f[i] == '\n' {
        sink.Putch('\n');
        sink.Putch('\r');
        assert now + ("\n\r" + Render(f, i + 1, slots, arg)) == sink.out + Render(f, i + 1, slots, arg);
        i := i + 1;
      } else if f[i] != '%' {
        sink.Putch(f[i]);
        assert now + ([f[i]] + Render(f, i + 1, slots, arg)) == sink.out + Render(f, i + 1, slots, arg);
        i := i + 1;
      } else {
        i, arg := OneEscape(sink, f, i, slots, arg);
      }
    }
  }

  method OneEscape(sink: Sink, f: Text, i0: nat, slots: Slots, arg0: nat) returns (i: nat, arg: nat)
    requires i0 < |f| && f[i0] == '%'
    modifies sink
    ensures i0 < i < |f|
    ensures sink.out + Render(f, i, slots, arg) == old(sink.out) + Render(f, i0, slots, arg0)
  {
    hide Convert, Scan;
    var fl;
    i, fl, arg := ReadEscape(f, i0 + 1, slots, arg0);
    var known := PrintConversion(sink, f[i], fl, slots(arg));
    if known {
      assert f[i] != '\0';
      arg := arg + ArgsUsed(f[i]);
      i := i + 1;
    } else {
      sink.Putch('%');
      i := i0 + 1;
    }
  }

  /** The text that is printed, and its length. */
  method Sprintf(f: Text, slots: Slots) returns (s: string, n: nat)
    ensures s == Render(f, 0, slots, 0) && n == |s|
  {
    var sink := new Sink();
    Vprintfmt(sink, f, slots);
    s := sink.out;
    n := |s|;
  }
}
