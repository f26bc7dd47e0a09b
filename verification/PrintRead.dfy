/** The number reader of the bare-metal runtime, and what it makes of printed numbers. */
module PrintRead {
  import opened Printf
  import opened Powers
  import opened Wrappers

  // ----- reading

  predicate InLong(x: int) {
    -0x8000_0000_0000_0000 <= x < 0x8000_0000_0000_0000
  }

  /** The value of the rest of a text, whatever characters stand there; none when a long overflows. */
  function Accumulate(s: string, res: int): Option<int> {
    if s == [] then Some(res)
    else
      var x := res * 10;
      var y := x + (s[0] as int - '0' as int);
      if InLong(x) && InLong(y) then Accumulate(s[1..], y) else None
  }

  function AfterSpaces(s: string): (t: string)
    ensures |t| <= |s| && t == s[|s| - |t|..]
  {
    if s != [] && s[0] == ' ' then AfterSpaces(s[1..]) else s
  }

  /** The number a text reads as. */
  function NumberOf(s: string): Option<int> {
    var t := AfterSpaces(s);
    if t != [] && t[0] == '-' then
      var r := Accumulate(t[1..], 0);
      if r.Some? then (if InLong(-r.value) then Some(-r.value) else None) else None
    else Accumulate(if t != [] && t[0] == '+' then t[1..] else t, 0)
  }

  /** A text without its zero. */
  function Body(z: Text): string {
    z[..|z| - 1]
  }

  /** The reader; it stops at the zero, and a signed overflow has no result. */
  method Atol(str: Text) returns (r: Option<int>)
    ensures r == NumberOf(Body(str))
  {
    hide Accumulate, AfterSpaces, CString;
    var i := SkipSpaces(str);
    var negative := false;
    BodyFrom(str, i);
    if str[i] == '-' || str[i] == '+' {
      negative := str[i] == '-';
      i := i + 1;
    }
    r := ReadDigits(str, i);
    if r.Some? && negative {
      r := if InLong(-r.value) then Some(-r.value) else None;
    }
  }

  lemma {:induction false} BodyFrom(str: Text, i: nat)
    requires i < |str|
    ensures var s := Body(str)[i..];
            if str[i] == '\0' then s == []
            else s != [] && s[0] == str[i] && s[1..] == Body(str)[i + 1..] && i + 1 < |str|
  {
    assert CString(str);
  }

  method SkipSpaces(str: Text) returns (i: nat)
    ensures i < |str| && AfterSpaces(Body(str)) == Body(str)[i..]
  {
    i := 0;
    ghost var s := Body(str);
    assert s[0..] == s;
    while str[i] == ' '
      invariant i < |str| && AfterSpaces(s) == AfterSpaces(s[i..])
      decreases |str| - i
    {
      assert s[i..][0] == ' ' && s[i..][1..] == s[i + 1..];
      i := i + 1;
    }
  }

  method ReadDigits(str: Text, from: nat) returns (r: Option<int>)
    requires from < |str|
    ensures r == Accumulate(Body(str)[from..], 0)
  {
    var i, res := from, 0;
    ghost var s := Body(str);
    while str[i] != '\0'
      invariant from <= i < |str| && Accumulate(s[i..], res) == Accumulate(s[from..], 0)
      decreases |str| - i
    {
      assert s[i..][0] == str[i] && s[i..][1..] == s[i + 1..];
      var y := res * 10 + (str[i] as int - '0' as int);
      if !InLong(res * 10) || !InLong(y) {
        return None;
      }
      i, res := i + 1, y;
    }
    r := Some(res);
  }

  // ----- exact values

  /** The value of a text without any limit. */
  function Exact(s: string, res: int): int {
    if s == [] then res else Exact(s[1..], res * 10 + (s[0] as int - '0' as int))
  }

  lemma {:induction false} AccumulateIsExact(s: string, res: int)
    ensures Accumulate(s, res).Some? ==> Accumulate(s, res).value == Exact(s, res)
  {
    if s != [] {
      AccumulateIsExact(s[1..], res * 10 + (s[0] as int - '0' as int));
    }
  }

  lemma {:induction false} ExactAppend(s: string, t: string, res: int)
    ensures Exact(s + t, res) == Exact(t, Exact(s, res))
  {
    if s == [] {
      assert s + t == t;
    } else {
      assert (s + t)[0] == s[0] && (s + t)[1..] == s[1..] + t;
      ExactAppend(s[1..], t, res * 10 + (s[0] as int - '0' as int));
    }
  }

  lemma {:induction false} ExactSplit(s: string, res: int)
    ensures Exact(s, res) == res * Pow(10, |s|) + Exact(s, 0)
  {
    if s != [] {
      var d := s[0] as int - '0' as int;
      ExactSplit(s[1..], res * 10 + d);
      ExactSplit(s[1..], d);
      var p := Pow(10, |s| - 1);
      assert Pow(10, |s|) == 10 * p;
      hide *;
      assert (res * 10 + d) * p == res * (10 * p) + d * p;
    }
  }

  predicate AllDecimal(s: string) {
    forall c | c in s :: IsDecimal(c)
  }

  /** Digits only grow the number: it is read exactly when it fits in a long. */
  lemma {:induction false} DigitsRead(s: string, res: nat)
    requires AllDecimal(s) && InLong(res)
    ensures Exact(s, res) >= res
    ensures Accumulate(s, res) == if InLong(Exact(s, res)) then Some(Exact(s, res)) else None
  {
    if s != [] {
      assert s[0] in s;
      var y := res * 10 + (s[0] as int - '0' as int);
      assert AllDecimal(s[1..]);
      GrowsOnly(s[1..], y);
      if InLong(y) {
        DigitsRead(s[1..], y);
      }
    }
  }

  lemma {:induction false} GrowsOnly(s: string, res: nat)
    requires AllDecimal(s)
    ensures Exact(s, res) >= res
  {
    if s != [] {
      assert s[0] in s;
      GrowsOnly(s[1..], res * 10 + (s[0] as int - '0' as int));
    }
  }

  // ----- printed digits

  /** Decimal digits: their value is the number, and there is no leading zero. */
  lemma {:induction false} DigitsExact(num: nat)
    ensures var s := Digits(num, 10);
            AllDecimal(s) && Exact(s, 0) == num < Pow(10, |s|) && (num > 0 ==> s[0] != '0')
  {
    if num < 10 {
      OneDigit(num);
    } else {
      var q, d := num / 10, num % 10;
      var s, t := Digits(q, 10), [DigitChar(d)];
      DigitsExact(q);
      OneDigit(d);
      assert Digits(num, 10) == s + t;
      assert t == Digits(d, 10);
      hide *;
      ExactAppend(s, t, 0);
      ExactSplit(t, q);
      PowSum(10, |s|, |t|);
      assert |t| == 1;
      Tens(q, d, Pow(10, |s|));
      AppendDecimal(s, t);
    }
  }

  lemma {:induction false} AppendDecimal(s: string, t: string)
    requires AllDecimal(s) && AllDecimal(t)
    ensures AllDecimal(s + t)
  {}

  lemma {:induction false} OneDigit(d: nat)
    requires d < 10
    ensures Digits(d, 10) == [DigitChar(d)] && AllDecimal([DigitChar(d)]) && Exact([DigitChar(d)], 0) == d
    ensures d > 0 ==> DigitChar(d) != '0'
    ensures Pow(10, 1) == 10
  {
    assert Exact([DigitChar(d)][1..], d) == d;
    assert Pow(10, 1) == 10 * Pow(10, 0);
  }

  lemma {:induction false} Tens(q: nat, d: nat, p: nat)
    requires q < p && d < 10
    ensures q * 10 + d < p * 10
  {}

  /** The digits of a number are the only decimal text of its value without leading zero. */
  lemma {:induction false} DigitsUnique(s: string)
    requires |s| > 0 && AllDecimal(s) && (|s| > 1 ==> s[0] != '0')
    ensures Exact(s, 0) >= 0 && Digits(Exact(s, 0), 10) == s
  {
    var k := |s| - 1;
    LastDigit(s);
    if k > 0 {
      DigitsUnique(s[..k]);
      FirstCounts(s[..k]);
    }
    hide AllDecimal, Exact;
  }

  lemma {:induction false} LastDigit(s: string)
    requires |s| > 0 && AllDecimal(s)
    ensures var k := |s| - 1; var d := s[k] as int - '0' as int;
            && AllDecimal(s[..k]) && 0 <= d < 10 && s == s[..k] + [DigitChar(d)]
            && Exact(s[..k], 0) >= 0 && Exact(s, 0) == Exact(s[..k], 0) * 10 + d && (k == 0 ==> Exact(s[..k], 0) == 0)
  {
    var k := |s| - 1;
    var c := s[k];
    assert c in s && s == s[..k] + [c];
    assert AllDecimal(s[..k]);
    ExactOne(c, Exact(s[..k], 0));
    ExactAppend(s[..k], [c], 0);
    GrowsOnly(s[..k], 0);
    hide AllDecimal;
  }

  lemma {:induction false} ExactOne(c: char, res: int)
    ensures Exact([c], res) == res * 10 + (c as int - '0' as int)
  {
    assert [c][1..] == [];
  }

  lemma {:induction false} FirstCounts(s: string)
    requires |s| > 0 && AllDecimal(s) && s[0] != '0'
    ensures Exact(s, 0) > 0
  {
    assert s[0] in s;
    assert AllDecimal(s[1..]);
    GrowsOnly(s[1..], s[0] as int - '0' as int);
  }

  // ----- padded digits

  lemma {:induction false} RepeatExact(c: char, k: nat)
    ensures c == '0' ==> Exact(Repeat(c, k), 0) == 0
    ensures c < '0' && k > 0 ==> Exact(Repeat(c, k), 0) <= c as int - '0' as int
  {
    if k > 0 {
      var d := c as int - '0' as int;
      assert Repeat(c, k)[1..] == Repeat(c, k - 1);
      RepeatExact(c, k - 1);
      ExactSplit(Repeat(c, k - 1), d);
      var p := Pow(10, k - 1);
      if c < '0' {
        assert d * p <= d * 1;
      }
      if k == 1 {
        assert Exact(Repeat(c, 0), 0) == 0;
      }
    }
  }

  lemma {:induction false} PaddedExact(c: char, k: int, num: nat)
    ensures var s := Digits(num, 10);
            Exact(Repeat(c, k) + s, 0) == Exact(Repeat(c, k), 0) * Pow(10, |s|) + num
  {
    var s := Digits(num, 10);
    DigitsExact(num);
    ExactAppend(Repeat(c, k), s, 0);
    ExactSplit(s, Exact(Repeat(c, k), 0));
  }

  /** Zeros in front: the number is read when it fits. */
  lemma {:induction false} ZerosRead(k: int, num: nat)
    ensures Accumulate(Repeat('0', k) + Digits(num, 10), 0) == if InLong(num) then Some(num as int) else None
  {
    var s := Repeat('0', k) + Digits(num, 10);
    PaddedExact('0', k, num);
    DigitsExact(num);
    if k > 0 {
      RepeatExact('0', k);
    } else {
      assert Exact(Repeat('0', k), 0) == 0;
    }
    assert AllDecimal(Repeat('0', k));
    hide *;
    assert AllDecimal(s) by { AppendDecimal(Repeat('0', k), Digits(num, 10)); }
    assert InLong(0) by { ZeroInLong(); }
    DigitsRead(s, 0);
  }

  lemma {:induction false} ZeroInLong()
    ensures InLong(0)
  {}

  /** Spaces or dashes behind a sign never give the number back. */
  lemma {:induction false} JunkRead(c: char, k: int, num: nat)
    requires c < '0' && k > 0
    ensures var r := Accumulate(Repeat(c, k) + Digits(num, 10), 0); r.Some? ==> r.value < num
    ensures var r := Accumulate(Repeat(c, k) + Digits(num, 10), 0); c <= '-' && r.Some? ==> r.value < -(num as int)
  {
    var s := Digits(num, 10);
    PaddedExact(c, k, num);
    RepeatExact(c, k);
    DigitsExact(num);
    AccumulateIsExact(Repeat(c, k) + s, 0);
    JunkBelow(Exact(Repeat(c, k), 0), c as int - '0' as int, Pow(10, |s|), num);
    hide *;
  }

  lemma {:induction false} JunkBelow(e: int, low: int, p: nat, num: nat)
    requires e <= low < 0 && num < p
    ensures e * p + num < num && (low <= -3 ==> e * p + num < -(num as int))
  {
    assert e * p <= low * p;
    assert low * p <= -1 * p;
    assert low <= -3 ==> low * p <= -3 * p;
  }

  // ----- what is read of a printed number

  lemma {:induction false} SkipRepeat(k: int, s: string)
    requires |s| > 0 && s[0] != ' '
    ensures AfterSpaces(Repeat(' ', k) + s) == s
    decreases k
  {
    if k > 0 {
      assert (Repeat(' ', k) + s)[1..] == Repeat(' ', k - 1) + s;
      SkipRepeat(k - 1, s);
    } else {
      assert Repeat(' ', k) + s == s;
    }
  }

  /** A printed number, its sign in front of k padding characters. */
  function Printed(n: int, k: int, padc: char): string {
    (if n < 0 then "-" else "") + (Repeat(padc, k) + Digits(Magnitude(n), 10))
  }

  /** When the padding does no harm. */
  predicate Harmless(n: int, k: int, padc: char) {
    k <= 0 || padc == '0' || (padc == ' ' && n >= 0) || (padc == '-' && n == 0 && k == 1)
  }

  lemma {:induction false} NegativeRead(n: int, k: int, padc: char)
    requires n < 0 && InLong(n) && padc in {' ', '0', '-'}
    ensures NumberOf(Printed(n, k, padc)) == Some(n) <==> n != -0x8000_0000_0000_0000 && Harmless(n, k, padc)
  {
    var m := Magnitude(n);
    var s := Repeat(padc, k) + Digits(m, 10);
    assert Printed(n, k, padc) == ['-'] + s && m == -n;
    assert InLong(m) <==> n != -0x8000_0000_0000_0000;
    assert InLong(n);
    assert padc != '0' ==> padc < '0';
    assert Harmless(n, k, padc) <==> k <= 0 || padc == '0';
    hide *;
    SignedNumber(s);
    if k <= 0 || padc == '0' {
      NoRepeat(padc, k);
      ZerosRead(k, m);
    } else {
      JunkRead(padc, k, m);
    }
  }

  lemma {:induction false} NoRepeat(padc: char, k: int)
    ensures k <= 0 ==> Repeat(padc, k) == Repeat('0', k)
  {}

  lemma {:induction false} PositiveRead(n: int, k: int, padc: char)
    requires n >= 0 && InLong(n) && padc in {' ', '0', '-'}
    ensures NumberOf(Printed(n, k, padc)) == Some(n) <==> Harmless(n, k, padc)
  {
    hide Repeat, Digits, NumberOf, Printed, InLong;
    if k <= 0 || padc == '0' {
      ZerosReadBack(n, k);
      SamePrinted(n, k, padc);
    } else if padc == ' ' {
      SpacesReadBack(n, k);
    } else {
      DashRead(n, k);
    }
  }

  lemma {:induction false} SamePrinted(n: int, k: int, padc: char)
    requires k <= 0 || padc == '0'
    ensures Printed(n, k, padc) == Printed(n, k, '0')
  {
    NoRepeat(padc, k);
    hide Repeat, Digits;
  }

  lemma {:induction false} ZerosReadBack(n: int, k: int)
    requires n >= 0 && InLong(n)
    ensures NumberOf(Printed(n, k, '0')) == Some(n)
  {
    var d := Digits(n, 10);
    var s := Repeat('0', k) + d;
    assert Printed(n, k, '0') == s by { assert "" + s == s; }
    DigitsExact(n);
    assert d[0] in d;
    DigitFirst(k, d);
    hide Repeat, Digits;
    ZerosRead(k, n);
    PlainRead(s);
  }

  lemma {:induction false} SpacesReadBack(n: int, k: int)
    requires n >= 0 && InLong(n) && k > 0
    ensures NumberOf(Printed(n, k, ' ')) == Some(n)
  {
    var d := Digits(n, 10);
    var s := Repeat(' ', k) + d;
    assert Printed(n, k, ' ') == s by { assert "" + s == s; }
    ZerosReadBack(n, 0);
    assert Printed(n, 0, '0') == d by { assert Repeat('0', 0) + d == d; assert "" + d == d; }
    DigitsExact(n);
    assert d[0] in d;
    hide Repeat, Digits, NumberOf, InLong;
    SkipRepeat(k, d);
    SameRest(s, d);
  }

  lemma {:induction false} DigitFirst(k: int, d: string)
    requires |d| > 0 && IsDecimal(d[0])
    ensures IsDecimal((Repeat('0', k) + d)[0])
  {}

  lemma {:induction false} PlainRead(s: string)
    requires |s| > 0 && IsDecimal(s[0])
    ensures NumberOf(s) == Accumulate(s, 0)
  {
    hide Accumulate;
  }

  lemma {:induction false} SameRest(s: string, d: string)
    requires AfterSpaces(s) == d && |d| > 0 && IsDecimal(d[0])
    ensures NumberOf(s) == NumberOf(d)
  {
    hide Accumulate;
  }

  /** Dashes in front of a number that is not negative: the first is a sign. */
  lemma {:induction false} DashRead(n: int, k: int)
    requires n >= 0 && InLong(n) && k > 0
    ensures NumberOf(Printed(n, k, '-')) == Some(n) <==> n == 0 && k == 1
  {
    var d := Digits(n, 10);
    var s := Repeat('-', k - 1) + d;
    RepeatStep('-', k);
    assert Printed(n, k, '-') == ['-'] + s;
    assert (['-'] + s)[1..] == s && AfterSpaces(['-'] + s) == ['-'] + s;
    if k == 1 {
      NoRepeat('-', 0);
      ZerosRead(0, n);
    } else {
      JunkRead('-', k - 1, n);
    }
    hide *;
    assert k == 1 ==> Accumulate(s, 0) == Some(n as int);
    assert k > 1 && Accumulate(s, 0).Some? ==> Accumulate(s, 0).value < -n;
    SignedNumber(s);
    assert n == 0 ==> InLong(-n);
  }

  lemma {:induction false} SignedNumber(s: string)
    ensures NumberOf(['-'] + s)
         == (var r := Accumulate(s, 0);
             if r.Some? then (if InLong(-r.value) then Some(-r.value) else None) else None)
  {
    assert (['-'] + s)[1..] == s;
    hide Accumulate;
  }

  /** Printed with any padding and read again: the number comes back exactly when it is not the most negative one
      and the padding is none, zeros, spaces in front of a number without sign, or one dash in front of zero. */
  lemma {:induction false} ReadExactly(n: int, width: int, padc: char)
    requires InLong(n) && padc in {' ', '0', '-'}
    ensures NumberOf(Signed(n, width, padc)) == Some(n)
       <==> n != -0x8000_0000_0000_0000 && Harmless(n, width - |Digits(Magnitude(n), 10)|, padc)
  {
    var k := width - |Digits(Magnitude(n), 10)|;
    assert Signed(n, width, padc) == Printed(n, k, padc);
    if n < 0 {
      NegativeRead(n, k, padc);
    } else {
      PositiveRead(n, k, padc);
    }
  }

  /** A plus sign makes no difference. */
  lemma {:induction false} PlusRead(num: nat)
    ensures NumberOf(['+'] + Digits(num, 10)) == if InLong(num) then Some(num as int) else None
  {
    var d := Digits(num, 10);
    ZerosRead(0, num);
    assert Repeat('0', 0) + d == d;
    assert (['+'] + d)[1..] == d && AfterSpaces(['+'] + d) == ['+'] + d;
    hide Digits, Accumulate, Repeat, InLong;
  }
}
