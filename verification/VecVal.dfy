/** Four-state vectors: parsing of number strings into words, and their hexadecimal form. */
module VecVal {
  import opened Powers

  // ----- characters

  predicate Ignored(c: char) {
    c == ' ' || c == '\t' || c == '\n' || c == '\r' || c == 11 as char || c == 12 as char || c == '_'
  }

  function Lower(c: char): char {
    if 'A' <= c <= 'Z' then ((c as int) + 32) as char else c
  }

  function Upper(c: char): char {
    if 'a' <= c <= 'z' then ((c as int) - 32) as char else c
  }

  /** Hexadecimal digits and the two unknowns, in lower case. */
  predicate IsDigit(c: char) {
    '0' <= c <= '9' || 'a' <= c <= 'f' || c == 'x' || c == 'z'
  }

  /** The value of a character in the first or the second plane; any other character counts as zero. */
  function Ascii2Hex(c: char, plane: nat): (d: nat)
    ensures d < 16
  {
    if plane == 0 then
      if '0' <= c <= '9' then (c as int) - ('0' as int)
      else if 'a' <= c <= 'f' then (c as int) - ('a' as int) + 10
      else if c == 'x' then 15 else 0
    else if c == 'x' || c == 'z' then 15 else 0
  }

  /** The digit for a nibble of both planes. */
  function Hex2Ascii(a: nat, b: nat): char
    requires a < 16
  {
    if b == 0 then (if a < 10 then ('0' as int + a) as char else ('A' as int + a - 10) as char)
    else if b == 15 && a == 0 then 'Z'
    else if b == 15 && a == 15 then 'X'
    else 'x'
  }

  lemma {:induction false} DigitShown(c: char)
    requires IsDigit(c)
    ensures Hex2Ascii(Ascii2Hex(c, 0), Ascii2Hex(c, 1)) == Upper(c)
  {}

  // ----- strings

  /** White space and underscores removed, letters lower case. */
  function Clean(s: string): string {
    if s == [] then []
    else (if Ignored(s[0]) then [] else [Lower(s[0])]) + Clean(s[1..])
  }

  lemma {:induction false} CleanAppend(s: string, t: string)
    ensures Clean(s + t) == Clean(s) + Clean(t)
  {
    if s == [] {
      assert s + t == t;
    } else {
      assert (s + t)[0] == s[0] && (s + t)[1..] == s[1..] + t;
      CleanAppend(s[1..], t);
    }
  }

  /** Ignored characters make no difference, wherever they stand. */
  lemma {:induction false} IgnoredAnywhere(s: string, c: char, t: string)
    requires Ignored(c)
    ensures Clean(s + [c] + t) == Clean(s + t)
  {
    CleanAppend(s + [c], t);
    CleanAppend(s, [c]);
    CleanAppend(s, t);
    assert Clean([c]) == [] + Clean([]);
    hide Clean, Ignored;
  }

  /** The first place a text occurs, or the length. */
  function FindTick(s: string): (i: nat)
    ensures i <= |s| && (i < |s| ==> s[i] == '\'') && forall j | 0 <= j < i :: s[j] != '\''
  {
    if s == [] || s[0] == '\'' then 0 else 1 + FindTick(s[1..])
  }

  predicate Is0x(s: string, i: nat) {
    i + 1 < |s| && s[i] == '0' && s[i + 1] == 'x'
  }

  function Find0x(s: string): (i: nat)
    ensures i <= |s| && (i < |s| ==> Is0x(s, i)) && forall j | 0 <= j < i :: !Is0x(s, j)
  {
    if s == [] || Is0x(s, 0) then 0
    else
      assert forall j | 1 <= j < |s| :: Is0x(s, j) == Is0x(s[1..], j - 1);
      1 + Find0x(s[1..])
  }

  function Drop(s: string, n: nat): string {
    if n <= |s| then s[n..] else []
  }

  /** The base and the digits: behind a tick and its letter, behind 0x, or a plain decimal. */
  function FindBase(s: string): (nat, string) {
    var t := FindTick(s);
    if t < |s| then
      (if t + 1 >= |s| then 10
       else if s[t + 1] == 'b' then 2 else if s[t + 1] == 'd' then 10 else if s[t + 1] == 'h' then 16
       else if s[t + 1] == 'o' then 8 else if s[t + 1] == 'x' then 16 else 10, Drop(s, t + 2))
    else
      var z := Find0x(s);
      if z < |s| then (16, Drop(s, z + 2)) else (10, s)
  }

  /** Digits of a base that fill one word, and the bits of a digit that count. */
  function PerWord(base: nat): (n: nat)
    ensures n > 0
  {
    if base == 16 then 8 else if base == 10 then 9 else if base == 8 then 10 else 32
  }

  function DigitBits(base: nat, d: nat): nat {
    if base == 2 then d % 2 else if base == 8 then d % 8 else d
  }

  // ----- words

  /** The number the last n characters before `end` stand for. */
  function Value(s: string, end: nat, n: nat, base: nat, plane: nat): nat
    requires end <= |s|
    decreases n
  {
    if n == 0 || end == 0 then 0
    else DigitBits(base, Ascii2Hex(s[end - 1], plane)) + base * Value(s, end - 1, n - 1, base, plane)
  }

  /** Word w of a string, counted from the right. */
  function WordOf(s: string, w: nat, base: nat, plane: nat): nat {
    var n := PerWord(base);
    if w * n <= |s| then Value(s, |s| - w * n, n, base, plane) else 0
  }

  function Nibble(x: nat, k: nat): (d: nat)
    ensures d < 16
  {
    if k == 0 then x % 16 else Nibble(x / 16, k - 1)
  }

  /** A hexadecimal word shows its digits again. */
  lemma {:induction false} NibbleOfValue(s: string, end: nat, n: nat, plane: nat, k: nat)
    requires end <= |s| && k < n
    ensures Nibble(Value(s, end, n, 16, plane), k) == if k < end then Ascii2Hex(s[end - 1 - k], plane) else 0
  {
    if end == 0 {
      ZeroNibbles(k);
    } else {
      var d, rest := Ascii2Hex(s[end - 1], plane), Value(s, end - 1, n - 1, 16, plane);
      assert Value(s, end, n, 16, plane) == d + 16 * rest;
      assert (d + 16 * rest) / 16 == rest && (d + 16 * rest) % 16 == d;
      if k > 0 {
        NibbleOfValue(s, end - 1, n - 1, plane, k - 1);
      }
      hide Ascii2Hex, Value;
    }
  }

  lemma {:induction false} ZeroNibbles(k: nat)
    ensures Nibble(0, k) == 0
  {
    if k > 0 {
      ZeroNibbles(k - 1);
    }
  }

  /** Digit k from the right of the whole vector. */
  function Shown(avals: seq<nat>, bvals: seq<nat>, k: nat): char
    requires k / 8 < |avals| == |bvals|
  {
    Hex2Ascii(Nibble(avals[k / 8], k % 8), Nibble(bvals[k / 8], k % 8))
  }

  // ----- the class

  class VecVal {
    const width: nat
    const words: nat
    // the words of the vector in both planes, and the memory of one word behind them, which is not the vector's
    const avalbits: array<nat>
    const bvalbits: array<nat>

    predicate Valid()
    {
      && width > 0 && words == (width - 1) / 32 + 1
      && avalbits.Length == words + 1 && bvalbits.Length == words + 1 && avalbits != bvalbits
    }

    constructor (width: nat)
      requires width > 0
      ensures Valid() && this.width == width && fresh(avalbits) && fresh(bvalbits)
    {
      this.width := width;
      words := (width - 1) / 32 + 1;
      avalbits := new nat[(width - 1) / 32 + 2];
      bvalbits := new nat[(width - 1) / 32 + 2];
    }

    method Set0()
      requires Valid()
      modifies avalbits, bvalbits
      ensures forall i | 0 <= i < words :: avalbits[i] == 0 && bvalbits[i] == 0
      ensures avalbits[words] == old(avalbits[words]) && bvalbits[words] == old(bvalbits[words])
    {
      for i := 0 to words
        invariant forall j | 0 <= j < i :: avalbits[j] == 0 && bvalbits[j] == 0
        invariant avalbits[words] == old(avalbits[words]) && bvalbits[words] == old(bvalbits[words])
      {
        avalbits[i], bvalbits[i] := 0, 0;
      }
    }

    /** The parsed number, in the words before `till`. */
    ghost predicate Holds(s: string, base: nat, till: nat)
      requires Valid() && till <= words + 1
      reads avalbits, bvalbits
    {
      forall w | 0 <= w < till :: avalbits[w] == WordOf(s, w, base, 0) && bvalbits[w] == WordOf(s, w, base, 1)
    }

    /**
     Parses a number. The words of the vector hold the digits that belong to them; the word behind the vector is
     written, with the digits that would belong to it, exactly when there are more digits than fit.
     */
    method SetHex(input: string) returns (ghost written: nat)
      requires Valid()
      modifies avalbits, bvalbits
      ensures var f := FindBase(Clean(input));
              && written <= words + 1
              && (written > words <==> |f.1| > words * PerWord(f.0))
              && Holds(f.1, f.0, if written > words then words + 1 else words)
      ensures written <= words ==>
                avalbits[words] == old(avalbits[words]) && bvalbits[words] == old(bvalbits[words])
    {
      Set0();
      var s := CleanUp(input);
      var f := FindBase(s);
      written := FillWords(f.1, f.0);
    }

    method FillWords(s: string, base: nat) returns (ghost written: nat)
      requires Valid()
      requires forall i | 0 <= i < words :: avalbits[i] == 0 && bvalbits[i] == 0
      modifies avalbits, bvalbits
      ensures written <= words + 1 && (written > words <==> |s| > words * PerWord(base))
      ensures Holds(s, base, if written > words then words + 1 else words)
      ensures written <= words ==>
                avalbits[words] == old(avalbits[words]) && bvalbits[words] == old(bvalbits[words])
    {
      hide WordOf, Left, PerWord;
      var location := |s| - 1;
      var word := 0;
      LeftStarts(|s|, PerWord(base));
      while location >= 0
        invariant 0 <= word <= words + 1 && location == Left(|s|, word, PerWord(base))
        invariant word > 0 ==> Left(|s|, word - 1, PerWord(base)) >= 0
        invariant Holds(s, base, word)
        invariant forall w | word <= w < words :: avalbits[w] == 0 && bvalbits[w] == 0
        invariant word <= words ==>
                    avalbits[words] == old(avalbits[words]) && bvalbits[words] == old(bvalbits[words])
        decreases location + 1
      {
        if word > words {
          break;
        }
        LeftSteps(|s|, word, PerWord(base));
        var locationCopy := location;
        var a, b;
        a, locationCopy := Ascii2Int(s, locationCopy, base, 0);
        b, location := Ascii2Int(s, location, base, 1);
        WordRead(s, word, base);
        avalbits[word], bvalbits[word] := a, b;
        word := word + 1;
      }
      written := word;
      LeftExactly(|s|, words, PerWord(base));
      if word <= words {
        LeftFalls(|s|, word, words, PerWord(base));
        BeyondString(s, word, words, base);
      }
    }

    /** A text that shows the lowest digits of the vector, most significant first. */
    ghost predicate Shows(s: string)
      requires Valid() && |s| <= 8 * words
      reads avalbits, bvalbits
    {
      forall k | 0 <= k < |s| :: s[|s| - 1 - k] == Shown(avalbits[..], bvalbits[..], k)
    }

    /** The digits of the vector, as many as its width has. */
    method GetAsciiHex() returns (s: string)
      requires Valid()
      ensures |s| == (width + 3) / 4 <= 8 * words && Shows(s)
    {
      s := "";
      var i := 0;
      while i < words - 1
        invariant 0 <= i <= words - 1 && |s| == 8 * i
        invariant forall k | 0 <= k < |s| :: s[|s| - 1 - k] == Shown(avalbits[..], bvalbits[..], k)
      {
        s := Prepend(s, i, 8);
        i := i + 1;
      }
      var widthMod32 := (width - 1) % 32 + 1;
      s := Prepend(s, i, (widthMod32 + 3) / 4);
    }

    /** The lowest n digits of word i in front of what is there. */
    method Prepend(s0: string, i: nat, n: nat) returns (s: string)
      requires Valid() && i < words && n <= 8 && |s0| == 8 * i
      requires forall k | 0 <= k < |s0| :: s0[|s0| - 1 - k] == Shown(avalbits[..], bvalbits[..], k)
      ensures |s| == |s0| + n
      ensures forall k | 0 <= k < |s| :: s[|s| - 1 - k] == Shown(avalbits[..], bvalbits[..], k)
    {
      s := s0;
      hide Hex2Ascii, Nibble;
      for j := 0 to n
        invariant |s| == |s0| + j
        invariant forall k | 0 <= k < |s| :: s[|s| - 1 - k] == Shown(avalbits[..], bvalbits[..], k)
      {
        ghost var before := s;
        assert (8 * i + j) / 8 == i && (8 * i + j) % 8 == j;
        s := [Hex2Ascii(Nibble(avalbits[i], j), Nibble(bvalbits[i], j))] + s;
        forall k | 0 <= k < |s|
          ensures s[|s| - 1 - k] == Shown(avalbits[..], bvalbits[..], k)
        {
          if k < |before| {
            assert s[|s| - 1 - k] == before[|before| - 1 - k];
          }
        }
      }
    }
  }

  /** The first k characters of the input are as they were, the rest is clean. */
  predicate CleanFrom(s: string, input: string, k: int) {
    0 <= k <= |s| && k <= |input| && s[..k] == input[..k] && s[k..] == Clean(input[k..])
  }

  /** Removal of ignored characters and lowering, from the end. */
  method CleanUp(input: string) returns (s: string)
    ensures s == Clean(input)
  {
    hide *;
    s := input;
    var location := |s| - 1;
    CleanStarts(input);
    while location >= 0
      invariant CleanFrom(s, input, location + 1)
      decreases location + 1
    {
      CleanBounds(s, input, location + 1);
      CleanStep(s, input, location);
      if Ignored(s[location]) {
        s := s[..location] + s[location + 1..];
      } else if IsUpper(s[location]) {
        s := s[location := Lower(s[location])];
      }
      location := location - 1;
    }
    CleanBounds(s, input, location + 1);
  }

  predicate IsUpper(c: char) {
    'A' <= c <= 'Z'
  }

  lemma {:induction false} CleanStarts(input: string)
    ensures CleanFrom(input, input, |input|)
  {
    assert input[|input|..] == [];
  }

  lemma {:induction false} CleanBounds(s: string, input: string, k: int)
    requires CleanFrom(s, input, k)
    ensures 0 <= k <= |s| && k <= |input|
    ensures k == 0 ==> s == Clean(input)
  {
    assert k == 0 ==> s[k..] == s && input[k..] == input;
  }

  lemma {:induction false} CleanStep(s: string, input: string, k: nat)
    requires CleanFrom(s, input, k + 1) && k < |s|
    ensures Ignored(s[k]) ==> CleanFrom(s[..k] + s[k + 1..], input, k)
    ensures !Ignored(s[k]) && IsUpper(s[k]) ==> CleanFrom(s[k := Lower(s[k])], input, k)
    ensures !Ignored(s[k]) && !IsUpper(s[k]) ==> CleanFrom(s, input, k)
  {
    CleanNext(s, input, k);
    assert !IsUpper(s[k]) ==> Lower(s[k]) == s[k];
    hide Lower, Ignored, Clean, IsUpper;
    var t := if Ignored(s[k]) then s[..k] + s[k + 1..] else s[k := Lower(s[k])];
    assert t[..k] == s[..k];
    assert t[k..] == (if Ignored(s[k]) then [] else [Lower(s[k])]) + s[k + 1..];
    assert s[k := s[k]] == s;
  }

  lemma {:induction false} CleanNext(s: string, input: string, k: nat)
    requires CleanFrom(s, input, k + 1)
    ensures k < |s| && k < |input| && s[..k] == input[..k]
    ensures Clean(input[k..]) == (if Ignored(s[k]) then [] else [Lower(s[k])]) + s[k + 1..]
  {
    assert s[k] == s[..k + 1][k] == input[..k + 1][k] == input[k];
    assert s[..k] == s[..k + 1][..k] == input[..k + 1][..k] == input[..k];
    assert input[k..][0] == input[k] && input[k..][1..] == input[k + 1..];
    hide Lower, Ignored;
  }

  /** The number at the right end of a string, and where it starts. */
  method Ascii2Int(s: string, index: int, base: nat, plane: nat) returns (result: nat, left: int)
    requires -1 <= index < |s|
    ensures result == Value(s, index + 1, PerWord(base), base, plane)
    ensures left == (if index + 1 >= PerWord(base) then index - PerWord(base) else -1)
  {
    hide *;
    result, left := 0, index;
    var digits: nat, mult: nat := PerWord(base), 1;
    while digits > 0 && left >= 0
      invariant -1 <= left < |s| && left == index - (PerWord(base) - digits)
      invariant result + mult * Value(s, left + 1, digits, base, plane) ==
                Value(s, index + 1, PerWord(base), base, plane)
      decreases digits
    {
      var d := DigitBits(base, Ascii2Hex(s[left], plane));
      ValueStep(s, left, digits, base, plane, mult);
      result := result + d * mult;
      digits, left, mult := digits - 1, left - 1, mult * base;
    }
    ValueEnds(s, left + 1, digits, base, plane);
    assert mult * 0 == 0;
  }

  lemma {:induction false} ValueStep(s: string, left: nat, digits: nat, base: nat, plane: nat, mult: nat)
    requires left < |s| && digits > 0
    ensures mult * Value(s, left + 1, digits, base, plane)
         == DigitBits(base, Ascii2Hex(s[left], plane)) * mult + (mult * base) * Value(s, left, digits - 1, base, plane)
  {
    assert Value(s, left + 1, digits, base, plane)
        == DigitBits(base, Ascii2Hex(s[left], plane)) + base * Value(s, left, digits - 1, base, plane);
    hide *;
    Horner(mult, DigitBits(base, Ascii2Hex(s[left], plane)), base, Value(s, left, digits - 1, base, plane));
  }

  lemma {:induction false} ValueEnds(s: string, end: nat, n: nat, base: nat, plane: nat)
    requires end <= |s| && (n == 0 || end == 0)
    ensures Value(s, end, n, base, plane) == 0
  {}

  lemma {:induction false} Horner(mult: nat, d: nat, base: nat, rest: nat)
    ensures mult * (d + base * rest) == d * mult + (mult * base) * rest
  {}

  /** Where word w ends in a string of `len` characters with n to a word. */
  function Left(len: nat, w: nat, n: nat): int {
    (if w * n <= len then len - w * n else 0) - 1
  }

  lemma {:induction false} LeftStarts(len: nat, n: nat)
    ensures Left(len, 0, n) == len - 1
  {}

  lemma {:induction false} LeftSteps(len: nat, w: nat, n: nat)
    requires n > 0 && Left(len, w, n) >= 0
    ensures Left(len, w + 1, n) == if Left(len, w, n) + 1 >= n then Left(len, w, n) - n else -1
    ensures Left(len, w, n) < len && Left(len, w + 1, n) < Left(len, w, n)
  {
    assert (w + 1) * n == w * n + n;
  }

  /** There is something left for word w exactly when the words before it are full and not enough. */
  lemma {:induction false} LeftExactly(len: nat, w: nat, n: nat)
    ensures Left(len, w, n) >= 0 <==> len > w * n
  {}

  lemma {:induction false} LeftFalls(len: nat, v: nat, w: nat, n: nat)
    requires v <= w && Left(len, v, n) < 0
    ensures Left(len, w, n) < 0
  {
    assert v * n <= w * n;
  }

  lemma {:induction false} WordRead(s: string, w: nat, base: nat)
    requires Left(|s|, w, PerWord(base)) >= 0
    ensures forall plane: nat ::
              WordOf(s, w, base, plane) == Value(s, Left(|s|, w, PerWord(base)) + 1, PerWord(base), base, plane)
  {}

  lemma {:induction false} BeyondString(s: string, w: nat, words: nat, base: nat)
    requires Left(|s|, w, PerWord(base)) < 0
    ensures forall v | w <= v < words :: WordOf(s, v, base, 0) == 0 == WordOf(s, v, base, 1)
  {
    var n := PerWord(base);
    forall v | w <= v < words
      ensures WordOf(s, v, base, 0) == 0 == WordOf(s, v, base, 1)
    {
      assert v * n >= w * n;
    }
  }

  // ----- prefixes

  /** A tick and the letter of a base: everything up to there is dropped. */
  lemma {:induction false} TickBase(p: string, letter: char, d: string)
    requires '\'' !in p
    ensures FindBase(p + ['\'', letter] + d)
         == (if letter == 'b' then 2 else if letter == 'o' then 8
             else if letter == 'h' || letter == 'x' then 16 else 10, d)
  {
    var s := p + ['\'', letter] + d;
    assert s[|p|] == '\'' && s[|p| + 1] == letter;
    assert forall j | 0 <= j < |p| :: s[j] == p[j] && p[j] in p;
    assert FindTick(s) == |p|;
    assert s[|p| + 2..] == d;
  }

  /** A text without tick: a first 0x makes it hexadecimal, and everything up to there is dropped. */
  lemma {:induction false} CBase(p: string, d: string)
    requires '\'' !in p && '\'' !in d
    requires forall j | 0 <= j < |p| :: !Is0x(p, j)
    ensures FindBase(p + "0x" + d) == (16, d)
  {
    var s := p + "0x" + d;
    assert '\'' !in s;
    assert FindTick(s) == |s|;
    assert s[|p|] == '0' && s[|p| + 1] == 'x';
    assert Is0x(s, |p|);
    assert forall j | 0 <= j < |p| :: s[j] == p[j];
    forall j | 0 <= j < |p|
      ensures !Is0x(s, j)
    {
      assert !Is0x(p, j);
    }
    assert Find0x(s) == |p|;
    assert s[|p| + 2..] == d;
  }

  /** A bare text is decimal, also when its digits are hexadecimal. */
  lemma {:induction false} BareIsDecimal(s: string)
    requires '\'' !in s && forall j | 0 <= j < |s| :: !Is0x(s, j)
    ensures FindBase(s) == (10, s)
  {
    assert FindTick(s) == |s|;
  }

  // ----- the round trip

  /** The last n digits of a text in upper case, behind zeros where there are fewer. */
  function Padded(d: string, n: nat): (s: string)
    ensures |s| == n
  {
    seq(n, i requires 0 <= i < n => if n - 1 - i < |d| then Upper(d[|d| - n + i]) else '0')
  }

  /** The digits of a hexadecimal text come out again in upper case, behind zeros. */
  lemma {:induction false} HexRoundTrip(v: VecVal, input: string, d: string, s: string)
    requires v.Valid() && |s| <= 8 * v.words
    requires FindBase(Clean(input)) == (16, d) && forall c | c in d :: IsDigit(c)
    requires v.Holds(FindBase(Clean(input)).1, FindBase(Clean(input)).0, v.words) && v.Shows(s)
    ensures s == Padded(d, |s|)
  {
    hide WordOf, Nibble, Upper, Ascii2Hex, FindBase, Clean, Shown, Hex2Ascii;
    forall i | 0 <= i < |s|
      ensures s[i] == Padded(d, |s|)[i]
    {
      var k := |s| - 1 - i;
      assert v.avalbits[..][k / 8] == WordOf(d, k / 8, 16, 0) && v.bvalbits[..][k / 8] == WordOf(d, k / 8, 16, 1);
      assert s[|s| - 1 - k] == Shown(v.avalbits[..], v.bvalbits[..], k);
      ShownDigit(d, k, v.avalbits[..], v.bvalbits[..]);
    }
  }

  lemma {:induction false} ShownDigit(d: string, k: nat, avals: seq<nat>, bvals: seq<nat>)
    requires k / 8 < |avals| == |bvals| && forall c | c in d :: IsDigit(c)
    requires avals[k / 8] == WordOf(d, k / 8, 16, 0) && bvals[k / 8] == WordOf(d, k / 8, 16, 1)
    ensures Shown(avals, bvals, k) == if k < |d| then Upper(d[|d| - 1 - k]) else '0'
  {
    DigitOfWord(d, k / 8, k % 8, 0);
    DigitOfWord(d, k / 8, k % 8, 1);
    if k < |d| {
      assert d[|d| - 1 - k] in d;
      DigitShown(d[|d| - 1 - k]);
    }
    hide WordOf, Nibble, Upper, Ascii2Hex;
  }

  lemma {:induction false} DigitOfWord(d: string, w: nat, k: nat, plane: nat)
    requires k < 8
    ensures Nibble(WordOf(d, w, 16, plane), k)
         == if 8 * w + k < |d| then Ascii2Hex(d[|d| - 1 - (8 * w + k)], plane) else 0
  {
    if w * 8 <= |d| {
      NibbleOfValue(d, |d| - w * 8, 8, plane, k);
    } else {
      ZeroNibbles(k);
    }
    hide Nibble, Value, Ascii2Hex;
  }

  // ----- texts without prefix

  /** The base is sixteen exactly behind a tick with h or x, or without a tick behind 0x. */
  lemma {:induction false} SixteenExactly(s: string)
    ensures FindBase(s).0 == 16 <==>
            if '\'' in s then exists t | 0 <= t < |s| - 1 :: s[t] == '\'' && '\'' !in s[..t] && s[t + 1] in {'h', 'x'}
            else exists i | 0 <= i < |s| :: Is0x(s, i)
  {
    var t := FindTick(s);
    if t < |s| {
      assert '\'' in s && '\'' !in s[..t];
      assert forall u | t < u < |s| :: s[..u][t] == '\'';
    } else if Find0x(s) < |s| {
      assert Is0x(s, Find0x(s));
    }
  }

  lemma {:induction false} ValueZero(s: string, end: nat, n: nat, plane: nat)
    requires end <= |s| && end <= n
    ensures Value(s, end, n, 16, plane) == 0 <==> forall i | 0 <= i < end :: Ascii2Hex(s[i], plane) == 0
    ensures Value(s, end, n, 10, plane) == 0 <==> forall i | 0 <= i < end :: Ascii2Hex(s[i], plane) == 0
    decreases n
  {
    if end > 0 {
      ValueZero(s, end - 1, n - 1, plane);
      assert forall base | base == 10 || base == 16 ::
               Value(s, end, n, base, plane) ==
               Ascii2Hex(s[end - 1], plane) + base * Value(s, end - 1, n - 1, base, plane);
      hide Ascii2Hex, Value;
    }
  }

  /** Read as decimal, digits are worth at most what they are worth as hexadecimal, and less beyond the last. */
  lemma {:induction false} DecimalBelow(s: string, end: nat, n: nat, plane: nat)
    requires end <= |s| && end <= n
    ensures Value(s, end, n, 10, plane) <= Value(s, end, n, 16, plane)
    ensures Value(s, end, n, 10, plane) == Value(s, end, n, 16, plane) <==>
            forall i | 0 <= i < end - 1 :: Ascii2Hex(s[i], plane) == 0
    decreases n
  {
    if end > 0 {
      DecimalBelow(s, end - 1, n - 1, plane);
      ValueZero(s, end - 1, n - 1, plane);
      var x, d := Ascii2Hex(s[end - 1], plane), Value(s, end - 1, n - 1, 10, plane);
      var h := Value(s, end - 1, n - 1, 16, plane);
      assert Value(s, end, n, 10, plane) == x + 10 * d && Value(s, end, n, 16, plane) == x + 16 * h;
      hide Ascii2Hex, Value;
    }
  }

  lemma {:induction false} SameBeyond(s: string, end: nat, m: nat, n: nat, base: nat, plane: nat)
    requires end <= |s| && end <= m && end <= n
    ensures Value(s, end, m, base, plane) == Value(s, end, n, base, plane)
    decreases m
  {
    if end > 0 {
      SameBeyond(s, end - 1, m - 1, n - 1, base, plane);
      hide Ascii2Hex, DigitBits;
    }
  }

  /**
   A text of up to eight digits without prefix is decimal, and gives the word it would give behind a hexadecimal
   prefix exactly when all its digits but the last are zeros.
   */
  lemma {:induction false} BareExactly(d: string)
    requires 0 < |d| <= 8 && forall c | c in d :: IsDigit(c)
    requires forall i | 0 <= i < |d| :: !Is0x(d, i)
    ensures FindBase(d) == (10, d)
    ensures WordOf(d, 0, 10, 0) == WordOf(d, 0, 16, 0) && WordOf(d, 0, 10, 1) == WordOf(d, 0, 16, 1) <==>
            forall i | 0 <= i < |d| - 1 :: d[i] == '0'
  {
    assert '\'' !in d by { assert !IsDigit('\''); }
    BareIsDecimal(d);
    SameBeyond(d, |d|, 9, 8, 10, 0);
    SameBeyond(d, |d|, 9, 8, 10, 1);
    DecimalBelow(d, |d|, 8, 0);
    DecimalBelow(d, |d|, 8, 1);
    assert forall plane | plane == 0 || plane == 1 ::
             WordOf(d, 0, 10, plane) == Value(d, |d|, 9, 10, plane)
             && WordOf(d, 0, 16, plane) == Value(d, |d|, 8, 16, plane);
    hide FindBase, Value, WordOf, Is0x;
    assert forall i | 0 <= i < |d| :: d[i] in d;
    ZeroDigit(d);
  }

  lemma {:induction false} ZeroDigit(d: string)
    requires forall c | c in d :: IsDigit(c)
    ensures forall i | 0 <= i < |d| :: d[i] == '0' <==> Ascii2Hex(d[i], 0) == 0 && Ascii2Hex(d[i], 1) == 0
  {
    assert forall i | 0 <= i < |d| :: d[i] in d;
  }

  // ----- texts that are too long

  /** Nine digits for one word: the ninth goes into the word behind the vector. */
  lemma {:induction false} NineDigitsTooMany()
    ensures var f := FindBase(Clean("'h123456789"));
            |f.1| > 1 * PerWord(f.0) && WordOf(f.1, 1, f.0, 0) == 1 && WordOf(f.1, 0, f.0, 0) == 0x2345_6789
  {
    var p, d: string := "", "123456789";
    AlreadyClean("'h123456789");
    assert "'h123456789" == p + ['\'', 'h'] + d;
    TickBase(p, 'h', d);
    hide FindBase, Clean;
    NineDigits(d);
  }

  lemma {:induction false} NineDigits(d: string)
    requires d == "123456789"
    ensures WordOf(d, 1, 16, 0) == 1 && WordOf(d, 0, 16, 0) == 0x2345_6789
  {
    assert Value(d, 1, 8, 16, 0) == 1 + 16 * Value(d, 0, 7, 16, 0) && Value(d, 0, 7, 16, 0) == 0;
    assert Value(d, 1, 0, 16, 0) == 0;
    assert Value(d, 2, 1, 16, 0) == 2;
    assert Value(d, 3, 2, 16, 0) == 0x23;
    assert Value(d, 4, 3, 16, 0) == 0x234;
    assert Value(d, 5, 4, 16, 0) == 0x2345;
    assert Value(d, 6, 5, 16, 0) == 0x2_3456;
    assert Value(d, 7, 6, 16, 0) == 0x23_4567;
    assert Value(d, 8, 7, 16, 0) == 0x234_5678;
    assert Value(d, 9, 8, 16, 0) == 0x2345_6789;
  }

  lemma {:induction false} AlreadyClean(s: string)
    requires forall c | c in s :: !Ignored(c) && Lower(c) == c
    ensures Clean(s) == s
  {
    if s != [] {
      assert s[0] in s && forall c | c in s[1..] :: c in s;
      AlreadyClean(s[1..]);
      hide Ignored, Lower;
    }
  }

  // ----- words stay in 32 bits

  lemma {:induction false} ValueBound(s: string, end: nat, n: nat, base: nat, plane: nat, top: nat)
    requires end <= |s| && base >= 2
    requires forall d | 0 <= d < 16 :: DigitBits(base, d) <= top
    ensures (base - 1) * Value(s, end, n, base, plane) <= top * (Pow(base, n) - 1)
    decreases n
  {
    if n == 0 || end == 0 {
      assert top * (Pow(base, n) - 1) >= 0;
    } else {
      var d, rest := DigitBits(base, Ascii2Hex(s[end - 1], plane)), Value(s, end - 1, n - 1, base, plane);
      var p := Pow(base, n - 1);
      ValueBound(s, end - 1, n - 1, base, plane, top);
      assert Value(s, end, n, base, plane) == d + base * rest && Pow(base, n) == base * p;
      assert d <= top;
      hide *;
      BoundStep(base, d, rest, p, top);
    }
  }

  lemma {:induction false} BoundStep(base: nat, d: nat, rest: nat, p: nat, top: nat)
    requires base >= 2 && d <= top && (base - 1) * rest <= top * (p - 1)
    ensures (base - 1) * (d + base * rest) <= top * (base * p - 1)
  {
    var x, y := (base - 1) * rest, top * (p - 1);
    assert (base - 1) * (d + base * rest) == (base - 1) * d + base * x;
    assert (base - 1) * d <= (base - 1) * top;
    assert base * x <= base * y;
    assert (base - 1) * top + base * y == top * (base * p - 1);
  }

  /** A word of digits of each base that FindBase gives fits in 32 bits, whatever characters stand there. */
  lemma {:induction false} WordsFit(s: string, w: nat, base: nat, plane: nat)
    requires base in {2, 8, 10, 16}
    ensures WordOf(s, w, base, plane) < 0x1_0000_0000
  {
    var n := PerWord(base);
    if w * n <= |s| {
      var v := Value(s, |s| - w * n, n, base, plane);
      ValueBound(s, |s| - w * n, n, base, plane, if base == 2 then 1 else if base == 8 then 7 else 15);
      PowersHere();
      assert WordOf(s, w, base, plane) == v;
      hide *;
      assert (base - 1) * v < (base - 1) * 0x1_0000_0000;
    }
  }

  lemma {:induction false} PowersHere()
    ensures Pow(2, 32) == 0x1_0000_0000 && Pow(8, 10) == 0x4000_0000 && Pow(10, 9) == 1_000_000_000
    ensures Pow(16, 8) == 0x1_0000_0000
  {
    assert Pow(2, 4) == 16;
    PowSum(2, 4, 4);
    PowSum(2, 8, 8);
    PowSum(2, 16, 16);
    assert Pow(8, 5) == 32768;
    PowSum(8, 5, 5);
    assert Pow(10, 4) == 10000;
    PowSum(10, 4, 5);
    assert Pow(10, 5) == 10 * Pow(10, 4);
    assert Pow(16, 4) == 65536;
    PowSum(16, 4, 4);
  }
}
