/** What one conversion prints, from the text of its format: flags, width, precision, length and conversion letter. */
module PrintForms {
  import opened Printf
  import opened PrintRead
  import opened PrintFormats
  import opened PrintDigits
  import opened Wrappers

  /** A conversion as it is written; width and precision 0 for none. */
  datatype Form = Form(pads: string, width: nat, dot: bool, precision: nat, longs: nat, letter: char)

  predicate PadFlags(pads: string) {
    forall c | c in pads :: c == '-' || c == '0' || c == '#'
  }

  ghost predicate Formed(d: Form) {
    && PadFlags(d.pads)
    && (d.precision > 0 ==> d.dot) && (d.letter == 'c' || d.letter == 's' || d.letter == 'd' || d.letter == 'u'
                                       || d.letter == 'o' || d.letter == 'x' || d.letter == 'p' || d.letter == '%')
  }

  function Tail(d: Form): string {
    Repeat('l', d.longs) + [d.letter, '\0']
  }

  function Middle(d: Form): string {
    (if d.dot then "." + WidthDigits(d.precision) else "") + Tail(d)
  }

  /** The text of the format. */
  function Spelled(d: Form): string {
    "%" + (d.pads + (WidthDigits(d.width) + Middle(d)))
  }

  /** The last dash or zero among the flags decides the padding. */
  function PadFrom(pad: char, pads: string): char
    decreases |pads|
  {
    if pads == [] then pad else PadFrom(if pads[0] == '#' then pad else pads[0], pads[1..])
  }

  /** The flags a conversion is printed with; a width of 0 behind nothing but a dot. */
  function FlagsOf(d: Form): Flags {
    Flags(PadFrom(' ', d.pads), if d.width > 0 then d.width else if d.dot then 0 else -1,
          if d.precision > 0 then d.precision else -1, d.longs)
  }

  // ----- the scanner, part by part

  predicate At(f: Text, i: nat, s: string) {
    i <= |f| && f[i..] == s
  }

  lemma {:induction false} AtSplit(f: Text, i: nat, s: string, t: string)
    requires At(f, i, s + t)
    ensures i + |s| <= |f| && At(f, i + |s|, t) && f[i..i + |s|] == s
  {
    assert f[i + |s|..] == f[i..][|s|..] == t;
    assert f[i..i + |s|] == f[i..][..|s|] == s;
  }

  lemma {:induction false} AtFirst(f: Text, i: nat, s: string)
    requires At(f, i, s) && |s| > 0
    ensures i < |f| && f[i] == s[0] && At(f, i + 1, s[1..])
  {
    assert f[i] == f[i..][0];
    assert f[i + 1..] == f[i..][1..];
  }

  lemma {:induction false} ScanPads(f: Text, i: nat, fl: Flags, pads: string, rest: string, slots: Slots, arg: nat)
    requires At(f, i, pads + rest) && |rest| > 0 && PadFlags(pads)
    ensures i + |pads| < |f| && At(f, i + |pads|, rest)
    ensures Scan(f, i, fl, slots, arg) ==
            Scan(f, i + |pads|, fl.(padc := PadFrom(fl.padc, pads)), slots, arg)
    decreases |pads|
  {
    hide Scan, At, CString, Next, PadFlags, PadFrom;
    AtSplit(f, i, pads, rest);
    AtFirst(f, i + |pads|, rest);
    PadsFirst(pads, rest, fl.padc);
    if pads != [] {
      AtFirst(f, i, pads + rest);
      NextPad(f, i, fl, slots, arg);
      ScanNext(f, i, fl, slots, arg);
      ScanPads(f, i + 1, fl.(padc := if pads[0] == '#' then fl.padc else pads[0]), pads[1..], rest, slots, arg);
    } else {
      assert fl.(padc := fl.padc) == fl;
    }
  }

  lemma {:induction false} PadsFirst(pads: string, rest: string, pad: char)
    requires PadFlags(pads)
    ensures pads == [] ==> PadFrom(pad, pads) == pad
    ensures pads != [] ==>
              && (pads[0] == '-' || pads[0] == '0' || pads[0] == '#') && PadFlags(pads[1..])
              && (pads + rest)[0] == pads[0] && (pads + rest)[1..] == pads[1..] + rest
              && PadFrom(pad, pads) == PadFrom(if pads[0] == '#' then pad else pads[0], pads[1..])
  {
    if pads != [] {
      assert pads[0] in pads && forall c | c in pads[1..] :: c in pads;
      assert (pads + rest)[1..] == pads[1..] + rest;
    }
  }

  lemma {:induction false} NextPad(f: Text, i: nat, fl: Flags, slots: Slots, arg: nat)
    requires i < |f| && (f[i] == '-' || f[i] == '0' || f[i] == '#')
    ensures i + 1 < |f|
    ensures Next(f, i, fl, slots, arg) == Some(Escape(i + 1, fl.(padc := if f[i] == '#' then fl.padc else f[i]), arg))
  {}

  lemma {:induction false} ScanLongs(f: Text, i: nat, fl: Flags, n: nat, rest: string, slots: Slots, arg: nat)
    requires At(f, i, Repeat('l', n) + rest) && |rest| > 0
    ensures i + n < |f| && At(f, i + n, rest)
    ensures Scan(f, i, fl, slots, arg) == Scan(f, i + n, fl.(lflag := fl.lflag + n), slots, arg)
    decreases n
  {
    hide Scan, At, CString, Repeat, Next;
    AtSplit(f, i, Repeat('l', n), rest);
    AtFirst(f, i + n, rest);
    if n > 0 {
      LongsFirst(n, rest);
      AtFirst(f, i, Repeat('l', n) + rest);
      NextLong(f, i, fl, slots, arg);
      ScanNext(f, i, fl, slots, arg);
      ScanLongs(f, i + 1, fl.(lflag := fl.lflag + 1), n - 1, rest, slots, arg);
    } else {
      assert fl.(lflag := fl.lflag + 0) == fl;
    }
  }

  lemma {:induction false} LongsFirst(n: nat, rest: string)
    requires n > 0
    ensures var s := Repeat('l', n) + rest; |s| > 0 && s[0] == 'l' && s[1..] == Repeat('l', n - 1) + rest
  {}

  lemma {:induction false} NextLong(f: Text, i: nat, fl: Flags, slots: Slots, arg: nat)
    requires i < |f| && f[i] == 'l'
    ensures i + 1 < |f| && Next(f, i, fl, slots, arg) == Some(Escape(i + 1, fl.(lflag := fl.lflag + 1), arg))
  {}

  lemma {:induction false} ScanNumber(f: Text, i: nat, fl: Flags, n: nat, rest: string, slots: Slots, arg: nat)
    requires At(f, i, WidthDigits(n) + rest) && |rest| > 0 && !IsDecimal(rest[0])
    ensures var k := i + |WidthDigits(n)|;
            && k < |f| && At(f, k, rest)
            && Scan(f, i, fl, slots, arg) == Scan(f, k, if n == 0 then fl else WithNumber(fl, n), slots, arg)
  {
    var ds := WidthDigits(n);
    WidthDecimal(n);
    AtSplit(f, i, ds, rest);
    AtFirst(f, i + |ds|, rest);
    hide Scan, At, CString, WidthDigits, Exact, AllDecimal, Number;
    if n > 0 {
      assert f[i] == f[i..i + |ds|][0] == ds[0];
      NumberIs(f, i, ds, 0);
      ScanNext(f, i, fl, slots, arg);
      assert Next(f, i, fl, slots, arg) == Some(Escape(i + |ds|, WithNumber(fl, n), arg));
    }
  }

  lemma {:induction false} TailFirst(d: Form)
    requires Formed(d)
    ensures |Tail(d)| > 0 && !IsDecimal(Tail(d)[0]) && Tail(d)[0] != '.'
  {}

  lemma {:induction false} ScanTail(f: Text, i: nat, fl: Flags, d: Form, slots: Slots, arg: nat)
    requires Formed(d) && At(f, i, Tail(d))
    ensures |f| >= 2 && f[|f| - 2] == d.letter
    ensures i < |f| && Scan(f, i, fl, slots, arg) == Escape(|f| - 2, fl.(lflag := fl.lflag + d.longs), arg)
  {
    ScanLongs(f, i, fl, d.longs, [d.letter, '\0'], slots, arg);
    var k := i + d.longs;
    AtFirst(f, k, [d.letter, '\0']);
    assert |f[k..]| == 2;
    ScanNext(f, k, fl.(lflag := fl.lflag + d.longs), slots, arg);
    hide Scan, At, CString, Repeat;
  }

  lemma {:induction false} ScanMiddle(f: Text, i: nat, fl: Flags, d: Form, slots: Slots, arg: nat)
    requires Formed(d) && At(f, i, Middle(d)) && fl.precision == -1 && fl.lflag == 0
    ensures |f| >= 2 && f[|f| - 2] == d.letter && i < |f|
    ensures Scan(f, i, fl, slots, arg) ==
            Escape(|f| - 2, fl.(width := if d.dot && fl.width < 0 then 0 else fl.width,
                                precision := if d.precision > 0 then d.precision else -1, lflag := d.longs), arg)
  {
    hide Scan, At, CString, Tail, WidthDigits, Next, Formed;
    if d.dot {
      ScanDotted(f, i, fl, d, slots, arg);
    } else {
      MiddleIs(d);
      assert d.precision == 0 by { assert Formed(d) ==> d.precision == 0 by { PlainForm(d); } }
      ScanTail(f, i, fl, d, slots, arg);
    }
  }

  lemma {:induction false} PlainForm(d: Form)
    requires !d.dot
    ensures Formed(d) ==> d.precision == 0
  {}

  lemma {:induction false} MiddleIs(d: Form)
    ensures Middle(d) == if d.dot then ['.'] + (WidthDigits(d.precision) + Tail(d)) else Tail(d)
  {
    hide Tail, WidthDigits;
    if d.dot {
      assert "." + WidthDigits(d.precision) + Tail(d) == ['.'] + (WidthDigits(d.precision) + Tail(d));
    } else {
      assert "" + Tail(d) == Tail(d);
    }
  }

  lemma {:induction false} NextDot(f: Text, i: nat, fl: Flags, slots: Slots, arg: nat)
    requires i < |f| && f[i] == '.'
    ensures i + 1 < |f|
    ensures Next(f, i, fl, slots, arg) == Some(Escape(i + 1, if fl.width < 0 then fl.(width := 0) else fl, arg))
  {}

  lemma {:induction false} ScanDotted(f: Text, i: nat, fl: Flags, d: Form, slots: Slots, arg: nat)
    requires Formed(d) && d.dot && At(f, i, Middle(d)) && fl.precision == -1 && fl.lflag == 0
    ensures |f| >= 2 && f[|f| - 2] == d.letter && i < |f|
    ensures Scan(f, i, fl, slots, arg) ==
            Escape(|f| - 2, fl.(width := if fl.width < 0 then 0 else fl.width,
                                precision := if d.precision > 0 then d.precision else -1, lflag := d.longs), arg)
  {
    hide Scan, At, CString, Tail, WidthDigits, Next, Formed;
    var s := WidthDigits(d.precision) + Tail(d);
    var g := if fl.width < 0 then fl.(width := 0) else fl;
    MiddleIs(d);
    assert (['.'] + s)[1..] == s;
    AtFirst(f, i, ['.'] + s);
    NextDot(f, i, fl, slots, arg);
    ScanNext(f, i, fl, slots, arg);
    TailFirst(d);
    ScanNumber(f, i + 1, g, d.precision, Tail(d), slots, arg);
    ScanTail(f, i + 1 + |WidthDigits(d.precision)|, if d.precision == 0 then g else WithNumber(g, d.precision), d,
             slots, arg);
  }

  lemma {:induction false} MiddleFirst(d: Form)
    requires Formed(d)
    ensures |Middle(d)| > 0 && !IsDecimal(Middle(d)[0])
  {
    TailFirst(d);
    hide Tail, WidthDigits;
  }

  lemma {:induction false} ScanForm(f: Text, d: Form, slots: Slots)
    requires Formed(d) && At(f, 1, d.pads + (WidthDigits(d.width) + Middle(d)))
    ensures |f| >= 2 && f[|f| - 2] == d.letter
    ensures Scan(f, 1, NoFlags, slots, 0) == Escape(|f| - 2, FlagsOf(d), 0)
  {
    assert PadFlags(d.pads);
    hide *;
    MiddleFirst(d);
    ScanPads(f, 1, NoFlags, d.pads, WidthDigits(d.width) + Middle(d), slots, 0);
    PaddedFlags(d);
    ScanWidthOn(f, 1 + |d.pads|, d, slots);
  }

  /** The flags once the padding is known, and once the width is. */
  function AfterPads(d: Form): Flags {
    Flags(PadFrom(' ', d.pads), -1, -1, 0)
  }

  function AfterWidth(d: Form): Flags {
    Flags(PadFrom(' ', d.pads), if d.width == 0 then -1 else d.width, -1, 0)
  }

  lemma {:induction false} PaddedFlags(d: Form)
    ensures NoFlags.padc == ' ' && NoFlags.(padc := PadFrom(' ', d.pads)) == AfterPads(d)
    ensures (if d.width == 0 then AfterPads(d) else WithNumber(AfterPads(d), d.width)) == AfterWidth(d)
    ensures AfterWidth(d).precision == -1 && AfterWidth(d).lflag == 0
    ensures var fl := AfterWidth(d);
            fl.(width := if d.dot && fl.width < 0 then 0 else fl.width,
                precision := if d.precision > 0 then d.precision else -1, lflag := d.longs) == FlagsOf(d)
  {
    hide PadFrom;
  }

  lemma {:induction false} ScanWidthOn(f: Text, i: nat, d: Form, slots: Slots)
    requires Formed(d) && At(f, i, WidthDigits(d.width) + Middle(d))
    ensures |f| >= 2 && f[|f| - 2] == d.letter && i < |f|
    ensures Scan(f, i, AfterPads(d), slots, 0) == Escape(|f| - 2, FlagsOf(d), 0)
  {
    hide *;
    MiddleFirst(d);
    PaddedFlags(d);
    ScanNumber(f, i, AfterPads(d), d.width, Middle(d), slots, 0);
    ScanMiddle(f, i + |WidthDigits(d.width)|, AfterWidth(d), d, slots, 0);
    AtInside(f, i, WidthDigits(d.width) + Middle(d));
  }

  lemma {:induction false} AtInside(f: Text, i: nat, s: string)
    requires At(f, i, s) && |s| > 0
    ensures i < |f|
  {}

  lemma {:induction false} NoZeroIn(d: Form)
    requires Formed(d)
    ensures CString(Spelled(d))
  {
    WidthDecimal(d.width);
    WidthDecimal(d.precision);
    NoNul(WidthDigits(d.width));
    NoNul(WidthDigits(d.precision));
    assert '\0' !in d.pads && d.letter != '\0';
    hide WidthDigits, AllDecimal, Exact, CString, Formed;
    var middle := (if d.dot then "." + WidthDigits(d.precision) else "") + (Repeat('l', d.longs) + [d.letter]);
    var body := "%" + (d.pads + (WidthDigits(d.width) + middle));
    assert '\0' !in middle;
    assert Spelled(d) == body + "\0";
    hide Spelled;
    Ended(body);
  }

  lemma {:induction false} Ended(body: string)
    requires '\0' !in body
    ensures CString(body + "\0")
  {
    assert forall i | 0 <= i < |body| :: body[i] in body;
  }

  /** A format of one conversion prints what the conversion says with these flags, for every way of writing it. */
  lemma {:induction false} FormPrints(d: Form, slots: Slots)
    requires Formed(d)
    ensures CString(Spelled(d)) && Known(d.letter)
    ensures Render(Spelled(d), 0, slots, 0) == Convert(d.letter, FlagsOf(d), slots(0))
  {
    NoZeroIn(d);
    var f: Text := Spelled(d);
    var s := d.pads + (WidthDigits(d.width) + Middle(d));
    assert f == ['%'] + s && f[1..] == s && At(f, 1, s);
    ScanForm(f, d, slots);
    assert f[0] == '%' && Known(d.letter);
    assert |f| > 2 by { MiddleFirst(d); assert |Middle(d)| >= 2 by { assert |Tail(d)| >= 2; } }
    hide Scan, Spelled, Middle, FlagsOf, At;
    RenderOne(f, Escape(|f| - 2, FlagsOf(d), 0), slots);
  }

  // ----- what the conversions print

  /** c prints the character of the argument's lowest byte, %% a percent sign, whatever the flags. */
  lemma {:induction false} CharacterPrinted(d: Form, slots: Slots)
    requires Formed(d)
    ensures CString(Spelled(d))
    ensures d.letter == 'c' ==> Render(Spelled(d), 0, slots, 0) == [(slots(0).word % 256) as char]
    ensures d.letter == '%' ==> Render(Spelled(d), 0, slots, 0) == ['%']
  {
    FormPrints(d, slots);
    hide Render, Spelled, Justified, Digits, FlagsOf, Signed;
  }

  /**
   s prints the text, or its first characters when a precision is given, in the width: spaces behind it with a
   dash, else padding before it; the null pointer prints (null).
   */
  lemma {:induction false} TextPrinted(d: Form, slots: Slots, t: Text)
    requires Formed(d) && d.letter == 's'
    requires slots(0).text == Some(t) || (slots(0).text.None? && t == "(null)\0")
    ensures CString(Spelled(d))
    ensures var n := if 0 < d.precision < |t| - 1 then d.precision else |t| - 1;
            LaidOut(Render(Spelled(d), 0, slots, 0), t[..n], d.width, PadFrom(' ', d.pads))
  {
    FormPrints(d, slots);
    assert Render(Spelled(d), 0, slots, 0) == Justified(t, FlagsOf(d));
    hide Render, Spelled, Convert, PadFrom, LaidOut;
    JustifiedIs(t, FlagsOf(d), d.width);
  }

  /** The text in a field: at its left end, with spaces behind it, for a dash, else at its right end. */
  ghost predicate LaidOut(out: string, s: string, width: nat, pad: char) {
    && |out| == (if width > |s| then width else |s|)
    && if pad == '-' then out[..|s|] == s && forall i | |s| <= i < |out| :: out[i] == ' '
       else out[|out| - |s|..] == s && forall i | 0 <= i < |out| - |s| :: out[i] == pad
  }

  lemma {:induction false} JustifiedIs(t: Text, f: Flags, width: nat)
    requires f.width == width || (width == 0 && f.width <= 0)
    ensures LaidOut(Justified(t, f), t[..TextLength(t, f.precision)], width, f.padc)
  {
    var n := TextLength(t, f.precision);
    var s, r := t[..n], Repeat(if f.padc == '-' then ' ' else f.padc, f.width - n);
    assert forall i | 0 <= i < |r| :: r[i] in r;
    assert Justified(t, f) == if f.padc == '-' then s + r else r + s;
    hide Repeat, Justified;
  }

  /** d prints the argument, of 64 bits with an l and of 32 without, with its sign before the padding. */
  lemma {:induction false} NumberPrinted(d: Form, slots: Slots)
    requires Formed(d) && d.letter == 'd'
    ensures CString(Spelled(d))
    ensures var n := SignedArg(slots(0).word, d.longs);
            Render(Spelled(d), 0, slots, 0) == Signed(n, d.width, PadFrom(' ', d.pads))
  {
    FormPrints(d, slots);
    SignedWidth(SignedArg(slots(0).word, d.longs), FlagsOf(d).width, d.width, PadFrom(' ', d.pads));
    hide Render, Spelled, Signed;
  }

  lemma {:induction false} SignedWidth(n: int, w: int, width: nat, padc: char)
    requires w == width || (w <= 0 && width == 0)
    ensures Signed(n, w, padc) == Signed(n, width, padc)
  {
    hide Digits;
  }

  /** The 32 bits that are taken without an l. */
  lemma {:induction false} SignedIs(word: Long, lflag: nat)
    ensures var n := SignedArg(word, lflag);
            if lflag > 0 then n == word else -0x8000_0000 <= n < 0x8000_0000 && (word - n) % 0x1_0000_0000 == 0
  {}

  // ----- outside of conversions

  /** A line feed is followed by a carriage return; other characters stand for themselves. */
  lemma {:induction false} PlainPrinted(c: char, slots: Slots)
    requires c != '\0' && c != '%'
    ensures CString([c, '\0'])
    ensures Render([c, '\0'], 0, slots, 0) == if c == '\n' then ['\n', '\r'] else [c]
  {
    var f: Text := [c, '\0'];
    assert Render(f, 1, slots, 0) == "";
  }

  /** A percent sign before a letter that is no conversion is printed as it stands. */
  lemma {:induction false} UnknownPrinted(c: char, slots: Slots)
    requires c !in "\0\n%-#*.lcsduopx" && !IsDecimal(c)
    ensures CString(['%', c, '\0'])
    ensures Render(['%', c, '\0'], 0, slots, 0) == ['%', c]
  {
    var f: Text := ['%', c, '\0'];
    ScanNext(f, 1, NoFlags, slots, 0);
    assert Render(f, 2, slots, 0) == "";
    assert Render(f, 1, slots, 0) == [c] + Render(f, 2, slots, 0);
    hide Scan, Convert;
  }

  /** A star takes the width from the arguments. */
  lemma {:induction false} StarPrinted(slots: Slots)
    requires 0 <= slots(0).word < 0x8000_0000
    ensures CString("%*ld\0")
    ensures Render("%*ld\0", 0, slots, 0) == Signed(slots(1).word, slots(0).word, ' ')
  {
    var f: Text := "%*ld\0";
    var w := slots(0).word;
    var fl := NoFlags.(width := w);
    ScanNext(f, 1, NoFlags, slots, 0);
    ScanNext(f, 2, fl, slots, 1);
    ScanNext(f, 3, fl.(lflag := 1), slots, 1);
    assert Scan(f, 1, NoFlags, slots, 0) == Escape(3, fl.(lflag := 1), 1);
    hide Scan, Signed, Next;
    RenderOne(f, Escape(3, fl.(lflag := 1), 1), slots);
  }
}
