/** What whole formats print: joined formats, printed and re-read longs, and the precision of texts. */
module PrintFormats {
  import opened Printf
  import opened PrintRead
  import opened Wrappers

  // ----- joined formats

  /** Every escape that starts at i or later also ends: none runs into the zero. */
  predicate Closed(f: Text, i: nat, slots: Slots, arg: nat)
    requires i < |f|
    decreases |f| - i
  {
    if f[i] == '\0' then true
    else if f[i] != '%' then Closed(f, i + 1, slots, arg)
    else
      var e := Scan(f, i + 1, NoFlags, slots, arg);
      f[e.at] != '\0' &&
      if Known(f[e.at]) then Closed(f, e.at + 1, slots, e.arg + ArgsUsed(f[e.at])) else Closed(f, i + 1, slots, e.arg)
  }

  /** The argument that is next when the format ends. */
  function NextArg(f: Text, i: nat, slots: Slots, arg: nat): nat
    requires i < |f|
    decreases |f| - i
  {
    if f[i] == '\0' then arg
    else if f[i] != '%' then NextArg(f, i + 1, slots, arg)
    else
      var e := Scan(f, i + 1, NoFlags, slots, arg);
      if Known(f[e.at]) then NextArg(f, e.at + 1, slots, e.arg + ArgsUsed(f[e.at])) else NextArg(f, i + 1, slots, e.arg)
  }

  predicate Behind(j: Text, off: nat, h: Text) {
    |j| == off + |h| && forall k | 0 <= k < |h| :: j[off + k] == h[k]
  }

  predicate Before(j: Text, g: Text) {
    |j| >= |g| && forall k | 0 <= k < |g| - 1 :: j[k] == g[k]
  }

  lemma {:induction false} NumberBehind(j: Text, off: nat, h: Text, i: nat, v: nat)
    requires Behind(j, off, h) && i < |h|
    ensures Number(j, off + i, v) == (Number(h, i, v).0, off + Number(h, i, v).1)
    decreases |h| - i
  {
    if IsDecimal(h[i]) {
      NumberBehind(j, off, h, i + 1, v * 10 + (h[i] as int - '0' as int));
    }
  }

  lemma {:induction false} NumberBefore(j: Text, g: Text, i: nat, v: nat)
    requires Before(j, g) && i < |g| && Number(g, i, v).1 < |g| - 1
    ensures Number(j, i, v) == Number(g, i, v)
    decreases |g| - i
  {
    if IsDecimal(g[i]) {
      NumberBefore(j, g, i + 1, v * 10 + (g[i] as int - '0' as int));
    }
  }

  /** One character of an escape: where it continues, with which flags and argument. */
  function Next(f: Text, i: nat, fl: Flags, slots: Slots, arg: nat): (n: Option<Escape>)
    requires i < |f|
    ensures n.Some? ==> i < n.value.at < |f|
  {
    var c := f[i];
    if c == '-' || c == '0' then Some(Escape(i + 1, fl.(padc := c), arg))
    else if '1' <= c <= '9' then
      var n := Number(f, i, 0);
      assert n.1 > i;
      Some(Escape(n.1, WithNumber(fl, n.0), arg))
    else if c == '*' then Some(Escape(i + 1, WithNumber(fl, SignedArg(slots(arg).word, 0)), arg + 1))
    else if c == '.' then Some(Escape(i + 1, if fl.width < 0 then fl.(width := 0) else fl, arg))
    else if c == '#' then Some(Escape(i + 1, fl, arg))
    else if c == 'l' then Some(Escape(i + 1, fl.(lflag := fl.lflag + 1), arg))
    else None
  }

  lemma {:induction false} ScanNext(f: Text, i: nat, fl: Flags, slots: Slots, arg: nat)
    requires i < |f|
    ensures var n := Next(f, i, fl, slots, arg);
            Scan(f, i, fl, slots, arg) ==
            if n.None? then Escape(i, fl, arg) else Scan(f, n.value.at, n.value.flags, slots, n.value.arg)
  {
    hide WithNumber, SignedArg;
  }

  lemma {:induction false} NextBehind(j: Text, off: nat, h: Text, i: nat, fl: Flags, slots: Slots, arg: nat)
    requires Behind(j, off, h) && i < |h|
    ensures var n := Next(h, i, fl, slots, arg);
            Next(j, off + i, fl, slots, arg) == if n.None? then None else Some(n.value.(at := off + n.value.at))
  {
    NumberBehind(j, off, h, i, 0);
    hide WithNumber, SignedArg, Number;
  }

  lemma {:induction false} NextBefore(j: Text, g: Text, i: nat, fl: Flags, slots: Slots, arg: nat)
    requires Before(j, g) && i < |g| - 1
    requires var n := Next(g, i, fl, slots, arg); n.Some? ==> n.value.at < |g| - 1
    ensures Next(j, i, fl, slots, arg) == Next(g, i, fl, slots, arg)
  {
    if '1' <= g[i] <= '9' {
      NumberBefore(j, g, i, 0);
    }
    hide WithNumber, SignedArg, Number;
  }

  lemma {:induction false} ScanBehind(j: Text, off: nat, h: Text, i: nat, fl: Flags, slots: Slots, arg: nat)
    requires Behind(j, off, h) && i < |h|
    ensures var e := Scan(h, i, fl, slots, arg); Scan(j, off + i, fl, slots, arg) == e.(at := off + e.at)
    decreases |h| - i
  {
    assert off + i < |j|;
    hide Scan, Next, Behind;
    ScanNext(h, i, fl, slots, arg);
    ScanNext(j, off + i, fl, slots, arg);
    NextBehind(j, off, h, i, fl, slots, arg);
    var n := Next(h, i, fl, slots, arg);
    if n.Some? {
      ScanBehind(j, off, h, n.value.at, n.value.flags, slots, n.value.arg);
    }
  }

  lemma {:induction false} ScanBefore(j: Text, g: Text, i: nat, fl: Flags, slots: Slots, arg: nat)
    requires Before(j, g) && i < |g| && Scan(g, i, fl, slots, arg).at < |g| - 1
    ensures Scan(j, i, fl, slots, arg) == Scan(g, i, fl, slots, arg)
    decreases |g| - i
  {
    assert i < |j|;
    hide Scan, Next, Before;
    ScanNext(g, i, fl, slots, arg);
    ScanNext(j, i, fl, slots, arg);
    var n := Next(g, i, fl, slots, arg);
    if n.Some? {
      ScanBefore(j, g, n.value.at, n.value.flags, slots, n.value.arg);
    }
    NextBefore(j, g, i, fl, slots, arg);
  }

  /** What one turn of the printer prints, where it goes on, and the next argument. */
  datatype Printing = Printing(out: string, at: nat, arg: nat)

  /** One turn; none at the zero. */
  function Turn(f: Text, i: nat, slots: Slots, arg: nat): (t: Option<Printing>)
    requires i < |f|
    ensures t.Some? ==> i < t.value.at < |f|
    ensures t.None? <==> f[i] == '\0'
  {
    if f[i] == '\0' then None
    else if f[i] == '\n' then Some(Printing("\n\r", i + 1, arg))
    else if f[i] != '%' then Some(Printing([f[i]], i + 1, arg))
    else
      var e := Scan(f, i + 1, NoFlags, slots, arg);
      assert !Known('\0');
      if Known(f[e.at]) then
        Some(Printing(Convert(f[e.at], e.flags, slots(e.arg)), e.at + 1, e.arg + ArgsUsed(f[e.at])))
      else Some(Printing("%", i + 1, e.arg))
  }

  lemma {:induction false} RenderTurn(f: Text, i: nat, slots: Slots, arg: nat)
    requires i < |f|
    ensures var t := Turn(f, i, slots, arg);
            Render(f, i, slots, arg) == if t.None? then "" else t.value.out + Render(f, t.value.at, slots, t.value.arg)
  {
    hide Scan, Convert, Known, ArgsUsed, CString;
  }

  lemma {:induction false} ClosedTurn(f: Text, i: nat, slots: Slots, arg: nat)
    requires i < |f| && Closed(f, i, slots, arg)
    ensures var t := Turn(f, i, slots, arg);
            t.Some? ==>
              Closed(f, t.value.at, slots, t.value.arg)
              && NextArg(f, i, slots, arg) == NextArg(f, t.value.at, slots, t.value.arg)
    ensures Turn(f, i, slots, arg).None? ==> NextArg(f, i, slots, arg) == arg
    ensures f[i] == '%' ==> Scan(f, i + 1, NoFlags, slots, arg).at < |f| - 1
  {
    hide Scan, Convert, Known, ArgsUsed;
  }

  lemma {:induction false} TurnBehind(j: Text, off: nat, h: Text, i: nat, slots: Slots, arg: nat)
    requires Behind(j, off, h) && i < |h|
    ensures var t := Turn(h, i, slots, arg);
            Turn(j, off + i, slots, arg) == if t.None? then None else Some(t.value.(at := off + t.value.at))
  {
    if h[i] == '%' {
      ScanBehind(j, off, h, i + 1, NoFlags, slots, arg);
    }
    hide Scan, Convert, Known, ArgsUsed, CString;
  }

  lemma {:induction false} TurnBefore(j: Text, g: Text, i: nat, slots: Slots, arg: nat)
    requires Before(j, g) && i < |g| - 1
    requires g[i] == '%' ==> Scan(g, i + 1, NoFlags, slots, arg).at < |g| - 1
    ensures Turn(j, i, slots, arg) == Turn(g, i, slots, arg)
  {
    if g[i] == '%' {
      ScanBefore(j, g, i + 1, NoFlags, slots, arg);
    }
    hide Scan, Convert, Known, ArgsUsed, CString;
  }

  lemma {:induction false} InBehind(j: Text, off: nat, h: Text, i: nat)
    requires Behind(j, off, h) && i < |h|
    ensures off + i < |j|
  {}

  lemma {:induction false} RenderBehind(j: Text, off: nat, h: Text, i: nat, slots: Slots, arg: nat)
    requires Behind(j, off, h) && i < |h|
    ensures off + i < |j| && Render(j, off + i, slots, arg) == Render(h, i, slots, arg)
    decreases |h| - i
  {
    hide *;
    InBehind(j, off, h, i);
    RenderTurn(j, off + i, slots, arg);
    RenderTurn(h, i, slots, arg);
    TurnBehind(j, off, h, i, slots, arg);
    var t := Turn(h, i, slots, arg);
    if t.Some? {
      RenderBehind(j, off, h, t.value.at, slots, t.value.arg);
    }
  }

  lemma {:induction false} InJoined(j: Text, g: Text, h: Text, i: nat)
    requires Before(j, g) && Behind(j, |g| - 1, h) && i < |g|
    ensures i < |j| && |h| > 0 && (i < |g| - 1 <==> g[i] != '\0')
  {}

  /** A format behind another prints what it prints alone, with the arguments that are left. */
  lemma {:induction false} RenderJoined(j: Text, g: Text, h: Text, i: nat, slots: Slots, arg: nat)
    requires Before(j, g) && Behind(j, |g| - 1, h) && i < |g| && Closed(g, i, slots, arg)
    ensures i < |j| && |h| > 0
    ensures Render(j, i, slots, arg) == Render(g, i, slots, arg) + Render(h, 0, slots, NextArg(g, i, slots, arg))
    decreases |g| - i
  {
    hide *;
    InJoined(j, g, h, i);
    ClosedTurn(g, i, slots, arg);
    RenderTurn(g, i, slots, arg);
    var t := Turn(g, i, slots, arg);
    if t.None? {
      RenderBehind(j, |g| - 1, h, 0, slots, arg);
    } else {
      TurnBefore(j, g, i, slots, arg);
      RenderTurn(j, i, slots, arg);
      RenderJoined(j, g, h, t.value.at, slots, t.value.arg);
    }
  }

  /** Formats can be joined wherever no escape is cut. */
  lemma {:induction false} FormatsJoin(g: Text, h: Text, slots: Slots)
    requires Closed(g, 0, slots, 0)
    ensures CString(Body(g) + h)
    ensures Render(Body(g) + h, 0, slots, 0) == Render(g, 0, slots, 0) + Render(h, 0, slots, NextArg(g, 0, slots, 0))
  {
    var j := Body(g) + h;
    assert CString(g) && CString(h);
    assert forall k | 0 <= k < |g| - 1 :: j[k] == g[k];
    assert forall k | 0 <= k < |h| :: j[|g| - 1 + k] == h[k];
    RenderJoined(j, g, h, 0, slots, 0);
  }

  // ----- longs

  lemma {:induction false} NumberIs(f: Text, i: nat, ds: string, v: nat)
    requires i + |ds| < |f| && f[i..i + |ds|] == ds && AllDecimal(ds) && !IsDecimal(f[i + |ds|])
    ensures Exact(ds, v) >= 0 && Number(f, i, v) == (Exact(ds, v), i + |ds|)
    decreases |ds|
  {
    if ds != [] {
      assert ds[0] == f[i] && ds[0] in ds;
      assert f[i + 1..i + |ds|] == ds[1..] && AllDecimal(ds[1..]);
      NumberIs(f, i + 1, ds[1..], v * 10 + (ds[0] as int - '0' as int));
    } else {
      assert Exact([], v) == v;
    }
  }

  /** The digits of a width, none for a width of zero. */
  function WidthDigits(width: nat): string {
    if width == 0 then "" else Digits(width, 10)
  }

  /** No flag, or one of the two that choose the padding. */
  predicate IsFlag(flag: string) {
    flag == "" || flag == "0" || flag == "-"
  }

  /** The format of a long with a padding flag and a width. */
  function LongFormat(flag: string, width: nat): (f: Text)
    requires IsFlag(flag)
  {
    LongIsText(flag, width);
    LongChars(flag, width)
  }

  function LongChars(flag: string, width: nat): string {
    "%" + flag + WidthDigits(width) + "ld\0"
  }

  function PadOf(flag: string): char {
    if flag == "" then ' ' else flag[0]
  }

  lemma {:induction false} LongIsText(flag: string, width: nat)
    requires IsFlag(flag)
    ensures CString(LongChars(flag, width))
  {
    WidthDecimal(width);
    var ds := WidthDigits(width);
    hide WidthDigits, AllDecimal;
    var s := "%" + flag + ds + "ld";
    assert forall i | 0 <= i < |ds| :: ds[i] in ds;
    assert LongChars(flag, width) == s + "\0";
    assert '\0' !in ds by { assert AllDecimal(ds); NoNul(ds); }
  }

  lemma {:induction false} NoNul(ds: string)
    requires AllDecimal(ds)
    ensures '\0' !in ds
  {}

  lemma {:induction false} WidthDecimal(width: nat)
    ensures var ds := WidthDigits(width);
            AllDecimal(ds) && Exact(ds, 0) == width && (ds != [] ==> '1' <= ds[0] <= '9') && (ds == [] <==> width == 0)
  {
    if width > 0 {
      DigitsExact(width);
      assert Digits(width, 10)[0] in Digits(width, 10);
    } else {
      assert Exact([], 0) == 0;
    }
  }

  lemma {:induction false} ScanWidth(f: Text, i: nat, fl: Flags, width: nat, slots: Slots, arg: nat)
    requires i <= |f| && f[i..] == WidthDigits(width) + "ld\0" && fl.width < 0 && fl.precision == -1
    ensures i < |f| && Scan(f, i, fl, slots, arg)
         == Escape(|f| - 2, fl.(width := if width == 0 then fl.width else width, lflag := fl.lflag + 1), arg)
  {
    var ds := WidthDigits(width);
    var k := i + |ds|;
    var n := fl.(width := if width == 0 then fl.width else width);
    WidthDecimal(width);
    hide WidthDigits, Number, Scan, Exact, AllDecimal, CString;
    assert f[k..] == "ld\0" by { assert f[k..] == f[i..][|ds|..]; }
    assert f[k] == f[k..][0] && f[k + 1] == f[k..][1] && |f| == k + 3;
    assert Next(f, k, n, slots, arg) == Some(Escape(k + 1, n.(lflag := n.lflag + 1), arg));
    ScanNext(f, k, n, slots, arg);
    ScanNext(f, k + 1, n.(lflag := n.lflag + 1), slots, arg);
    if ds != [] {
      assert f[i..k] == ds by { assert f[i..k] == f[i..][..|ds|]; }
      assert f[i] == ds[0];
      NumberIs(f, i, ds, 0);
      assert Next(f, i, fl, slots, arg) == Some(Escape(k, n, arg));
      ScanNext(f, i, fl, slots, arg);
    }
  }

  /** A long format prints the number with its padding. */
  lemma {:induction false} LongPrinted(flag: string, width: nat, slots: Slots)
    requires IsFlag(flag)
    ensures Render(LongFormat(flag, width), 0, slots, 0)
         == Signed(slots(0).word, WidthOf(width), PadOf(flag))
  {
    var f: Text := LongFormat(flag, width);
    var fl := NoFlags.(padc := PadOf(flag));
    assert f[1 + |flag|..] == WidthDigits(width) + "ld\0";
    ScanWidth(f, 1 + |flag|, fl, width, slots, 0);
    if flag != "" {
      assert f[1] == flag[0];
      ScanNext(f, 1, NoFlags, slots, 0);
    }
    var e := Escape(|f| - 2, fl.(width := if width == 0 then -1 else width, lflag := 1), 0);
    assert Scan(f, 1, NoFlags, slots, 0) == e;
    assert f[|f| - 2] == 'd' && f[|f| - 1] == '\0' && f[0] == '%';
    hide Scan, Signed, LongFormat, WidthDigits;
    RenderOne(f, e, slots);
  }

  lemma {:induction false} RenderOne(f: Text, e: Escape, slots: Slots)
    requires |f| > 2 && f[0] == '%' && Scan(f, 1, NoFlags, slots, 0) == e
    requires e.at == |f| - 2 && Known(f[e.at])
    ensures Render(f, 0, slots, 0) == Convert(f[e.at], e.flags, slots(e.arg))
  {
    hide Scan, Convert, Known;
    assert Render(f, |f| - 1, slots, e.arg + ArgsUsed(f[e.at])) == "";
  }

  function WidthOf(width: nat): int {
    if width == 0 then -1 else width
  }

  lemma {:induction false} HarmlessWidth(n: int, width: nat, d: nat, flag: string)
    requires IsFlag(flag) && d > 0
    ensures Harmless(n, WidthOf(width) - d, PadOf(flag)) <==> Harmless(n, width - d, PadOf(flag))
    ensures PadOf(flag) in {' ', '0', '-'}
    ensures width == 0 || flag == "0" ==> Harmless(n, width - d, PadOf(flag))
  {}

  /** Not the most negative number, and padding that does no harm. */
  predicate ComesBack(n: Long, flag: string, width: nat) {
    n != -0x8000_0000_0000_0000 && Harmless(n, width - |Digits(Magnitude(n), 10)|, PadOf(flag))
  }

  /** Printed with any long format and read again, the number comes back exactly when it is not the most negative
      one and its padding is harmless. */
  lemma {:induction false} LongRoundTrip(flag: string, width: nat, slots: Slots)
    requires IsFlag(flag)
    ensures NumberOf(Render(LongFormat(flag, width), 0, slots, 0)) == Some(slots(0).word) <==>
            ComesBack(slots(0).word, flag, width)
  {
    hide *;
    LongPrinted(flag, width, slots);
    LongRead(slots(0).word, flag, width);
  }

  lemma {:induction false} LongRead(n: Long, flag: string, width: nat)
    requires IsFlag(flag)
    ensures NumberOf(Signed(n, WidthOf(width), PadOf(flag))) == Some(n) <==>
            ComesBack(n, flag, width)
  {
    assert InLong(n);
    assert ComesBack(n, flag, width) <==>
           n != -0x8000_0000_0000_0000 && Harmless(n, width - |Digits(Magnitude(n), 10)|, PadOf(flag));
    hide *;
    HarmlessWidth(n, width, |Digits(Magnitude(n), 10)|, flag);
    ReadExactly(n, WidthOf(width), PadOf(flag));
  }

  /** In particular, it always comes back without a width and with zeros, the most negative number left out. */
  lemma {:induction false} PlainRoundTrip(flag: string, width: nat, slots: Slots)
    requires IsFlag(flag) && ((flag == "" && width == 0) || flag == "0") && slots(0).word != -0x8000_0000_0000_0000
    ensures NumberOf(Render(LongFormat(flag, width), 0, slots, 0)) == Some(slots(0).word)
  {
    assert Harmless(slots(0).word, width - |Digits(Magnitude(slots(0).word), 10)|, PadOf(flag)) ==>
           ComesBack(slots(0).word, flag, width);
    hide *;
    LongRoundTrip(flag, width, slots);
    HarmlessWidth(slots(0).word, width, |Digits(Magnitude(slots(0).word), 10)|, flag);
  }

  // ----- precision

  /** The format of a text with a precision. */
  function TextFormat(ds: string): string {
    "%." + ds + "s\0"
  }

  /** Digits behind the dot: leading zeros are read as flags, so a precision of zero is not seen. */
  lemma {:induction false} ScanPrecision(f: Text, i: nat, fl: Flags, ds: string, slots: Slots, arg: nat)
    requires i <= |f| && f[i..] == ds + "s\0" && AllDecimal(ds) && fl.width == 0 && fl.precision == -1
    ensures i < |f| && Exact(ds, 0) >= 0
    ensures var e := Scan(f, i, fl, slots, arg);
            e.at == |f| - 2 && e.arg == arg && e.flags.width == 0 &&
            e.flags.precision == (if Exact(ds, 0) == 0 then -1 else Exact(ds, 0))
    decreases |ds|
  {
    GrowsOnly(ds, 0);
    hide Scan, Number, CString;
    if ds == [] {
      assert f[i] == f[i..][0] && |f| == i + 2;
      ScanNext(f, i, fl, slots, arg);
    } else {
      assert f[i] == f[i..][0] == ds[0] && ds[0] in ds;
      if ds[0] == '0' {
        assert f[i + 1..] == f[i..][1..] == ds[1..] + "s\0";
        ScanPrecision(f, i + 1, fl.(padc := '0'), ds[1..], slots, arg);
        ScanNext(f, i, fl, slots, arg);
      } else {
        hide *;
        ScanDigits(f, i, fl, ds, slots, arg);
      }
    }
  }

  lemma {:induction false} ScanDigits(f: Text, i: nat, fl: Flags, ds: string, slots: Slots, arg: nat)
    requires i <= |f| && f[i..] == ds + "s\0" && AllDecimal(ds) && fl.width == 0 && |ds| > 0 && ds[0] != '0'
    ensures i < |f| && Exact(ds, 0) > 0
    ensures Scan(f, i, fl, slots, arg) == Escape(|f| - 2, fl.(precision := Exact(ds, 0)), arg)
  {
    var k := i + |ds|;
    assert ds[0] in ds;
    FirstCounts(ds);
    hide Scan, Number, CString;
    assert f[i] == f[i..][0] && f[i..k] == f[i..][..|ds|] == ds;
    assert f[k] == f[i..][|ds|] && |f| == k + 2;
    NumberIs(f, i, ds, 0);
    hide Exact, AllDecimal;
    var n := fl.(precision := Exact(ds, 0));
    assert Next(f, i, fl, slots, arg) == Some(Escape(k, n, arg));
    ScanNext(f, i, fl, slots, arg);
    ScanNext(f, k, n, slots, arg);
  }

  lemma {:induction false} TextIsText(ds: string)
    requires AllDecimal(ds)
    ensures CString(TextFormat(ds))
  {
    NoNul(ds);
    assert forall i | 0 <= i < |ds| :: ds[i] in ds;
  }

  /** A text format cuts the text at its precision exactly when the precision is not zero or there is no text. */
  lemma {:induction false} PrecisionExactly(ds: string, slots: Slots, t: Text)
    requires AllDecimal(ds) && slots(0).text == Some(t)
    ensures CString(TextFormat(ds)) && Exact(ds, 0) >= 0
    ensures var v := Exact(ds, 0);
            Render(TextFormat(ds), 0, slots, 0) == Body(t)[..if v < |t| - 1 then v else |t| - 1] <==> v > 0 || |t| == 1
  {
    TextIsText(ds);
    GrowsOnly(ds, 0);
    var f: Text, v: nat := TextFormat(ds), Exact(ds, 0);
    var fl := NoFlags.(width := 0);
    assert f[2..] == ds + "s\0";
    assert f[0] == '%' && f[1] == '.' && f[|f| - 2] == 's';
    ScanPrecision(f, 2, fl, ds, slots, 0);
    ScanNext(f, 1, NoFlags, slots, 0);
    var e := Scan(f, 1, NoFlags, slots, 0);
    hide Scan, TextFormat, Exact, AllDecimal, CString;
    RenderOne(f, e, slots);
    hide Render;
    NoWidth(t, e.flags);
    assert Convert('s', e.flags, slots(e.arg)) == Justified(t, e.flags);
    CutAt(t, v);
  }

  lemma {:induction false} NoWidth(t: Text, f: Flags)
    requires f.width == 0
    ensures Justified(t, f) == Body(t)[..TextLength(t, f.precision)]
  {
    var s := t[..TextLength(t, f.precision)];
    assert Repeat(' ', 0 - |s|) == [] && Repeat(f.padc, 0 - |s|) == [];
    assert [] + s == s == s + [];
    assert Body(t)[..TextLength(t, f.precision)] == s;
  }

  lemma {:induction false} CutAt(t: Text, v: nat)
    ensures Body(t)[..TextLength(t, if v == 0 then -1 else v)] == Body(t)[..if v < |t| - 1 then v else |t| - 1]
       <==> v > 0 || |t| == 1
  {
    var all, cut := Body(t)[..TextLength(t, if v == 0 then -1 else v)], Body(t)[..if v < |t| - 1 then v else |t| - 1];
    assert |cut| == (if v < |t| - 1 then v else |t| - 1);
    assert |all| == TextLength(t, if v == 0 then -1 else v);
  }
}
