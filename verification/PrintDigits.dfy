/** Printed digits in every base, and what the unsigned conversions print. */
module PrintDigits {
  import opened Bits
  import opened Powers
  import opened Printf
  import opened Wrappers

  /** The digit a character stands for, small letters behind the figures; none for other characters. */
  function DigitOf(c: char): (d: Option<nat>)
    ensures d.Some? ==> d.value < 16
  {
    if '0' <= c <= '9' then Some(c as int - '0' as int)
    else if 'a' <= c <= 'f' then Some(10 + (c as int - 'a' as int)) else None
  }

  /** A text of digits of a base. */
  predicate InBase(s: string, base: nat) {
    forall c | c in s :: DigitOf(c).Some? && DigitOf(c).value < base
  }

  /** Its value, most significant digit first. */
  function ValueIn(s: string, base: nat): nat
    requires InBase(s, base)
  {
    if s == [] then 0
    else
      assert forall c | c in s[..|s| - 1] :: c in s;
      ValueIn(s[..|s| - 1], base) * base + DigitOf(s[|s| - 1]).value
  }

  lemma {:induction false} CharIsDigit(d: nat)
    requires d < 16
    ensures DigitOf(DigitChar(d)) == Some(d)
  {}

  lemma {:induction false} OneMore(s: string, base: nat, d: nat)
    requires InBase(s, base) && d < base <= 16
    ensures InBase(s + [DigitChar(d)], base) && ValueIn(s + [DigitChar(d)], base) == ValueIn(s, base) * base + d
  {
    CharIsDigit(d);
    var t := s + [DigitChar(d)];
    assert t[..|t| - 1] == s && t[|t| - 1] == DigitChar(d);
    hide DigitOf, DigitChar;
  }

  /** The digits of a number in a base have its value there, and no leading zero. */
  lemma {:induction false} DigitsValue(num: nat, base: nat)
    requires 2 <= base <= 16
    ensures var s := Digits(num, base);
            InBase(s, base) && ValueIn(s, base) == num && (num > 0 ==> s[0] != '0')
  {
    if num < base {
      OneMore([], base, num);
      assert [] + [DigitChar(num)] == [DigitChar(num)];
      assert num > 0 ==> DigitChar(num) != '0';
    } else {
      assert Digits(num, base) == Digits(num / base, base) + [DigitChar(num % base)];
      hide *;
      Divides(num, base);
      DigitsValue(num / base, base);
      OneMore(Digits(num / base, base), base, num % base);
    }
  }

  lemma {:induction false} Divides(num: nat, base: nat)
    requires 2 <= base <= num
    ensures 0 < num / base < num && num % base < base && (num / base) * base + num % base == num
  {}

  /** The argument as the conversion takes it: reduced to 64 bits, or to 32 without a length flag. */
  lemma {:induction false} UnsignedIs(word: Long, lflag: nat)
    ensures var n := UnsignedArg(word, lflag);
            if lflag == 0 then n < TWO32 && (word - n) % TWO32 == 0 else n < TWO64 && (word - n) % TWO64 == 0
  {}

  function BaseOf(c: char): nat {
    if c == 'u' then 10 else if c == 'o' then 8 else 16
  }

  /** u prints decimal, o octal and x hexadecimal digits of the argument, and p hexadecimal ones behind 0x. */
  lemma {:induction false} UnsignedPrinted(c: char, f: Flags, slot: Slot)
    requires c in "uoxp"
    ensures var n := UnsignedArg(slot.word, if c == 'p' then 1 else f.lflag);
            var ds := Digits(n, BaseOf(c));
            && Convert(c, f, slot) ==
               (if c == 'p' then "0x" else "") + (Repeat(f.padc, f.width - |ds|) + ds)
            && InBase(ds, BaseOf(c)) && ValueIn(ds, BaseOf(c)) == n && (n > 0 ==> ds[0] != '0')
  {
    var n := UnsignedArg(slot.word, if c == 'p' then 1 else f.lflag);
    DigitsValue(n, BaseOf(c));
    hide Digits, Repeat, InBase, ValueIn, UnsignedArg;
    var p := Padded(f.padc, f.width, Digits(n, BaseOf(c)));
    assert "" + p == p;
  }
}
