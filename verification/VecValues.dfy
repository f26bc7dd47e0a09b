/** What texts of digits are worth in a four-state vector: word by word, and as a whole. */
module VecValues {
  import opened Powers
  import opened VecVal

  predicate IsBase(base: nat) {
    base == 2 || base == 8 || base == 10 || base == 16
  }

  /** The figures of a word are worth thirty-two bits. */
  predicate FillsWord(base: nat) {
    base == 2 || base == 16
  }

  /** Figures of a base, in the characters texts are cleaned to. */
  predicate Figures(s: string, base: nat) {
    forall c | c in s :: Figure(c, base)
  }

  predicate Figure(c: char, base: nat) {
    if base == 16 then '0' <= c <= '9' || 'a' <= c <= 'f' else '0' <= c && c as int < '0' as int + base
  }

  function FigureOf(c: char): int {
    if c <= '9' then c as int - '0' as int else c as int - 'a' as int + 10
  }

  /** The value of a text, most significant figure first. */
  function Worth(s: string, base: nat): int {
    if s == [] then 0 else Worth(s[..|s| - 1], base) * base + FigureOf(s[|s| - 1])
  }

  lemma {:induction false} FigureCounts(c: char, base: nat)
    requires IsBase(base) && Figure(c, base)
    ensures DigitBits(base, Ascii2Hex(c, 0)) == FigureOf(c) && DigitBits(base, Ascii2Hex(c, 1)) == 0
  {}

  /** The last n figures before `end`, or as many as there are. */
  function Last(s: string, end: nat, n: nat): string
    requires end <= |s|
  {
    s[if end > n then end - n else 0..end]
  }

  lemma {:induction false} LastStep(s: string, end: nat, n: nat)
    requires 0 < end <= |s| && n > 0
    ensures var t := Last(s, end, n); |t| > 0 && t[|t| - 1] == s[end - 1] && t[..|t| - 1] == Last(s, end - 1, n - 1)
  {}

  /** A word is worth what the figures that fall to it are worth, and nothing in the second plane. */
  lemma {:induction false} ValueIsWorth(s: string, end: nat, n: nat, base: nat)
    requires IsBase(base) && Figures(s, base) && end <= |s|
    ensures Value(s, end, n, base, 0) == Worth(Last(s, end, n), base) && Value(s, end, n, base, 1) == 0
    decreases n
  {
    if n == 0 || end == 0 {
      assert Last(s, end, n) == [];
    } else {
      ValueIsWorth(s, end - 1, n - 1, base);
      LastStep(s, end, n);
      assert s[end - 1] in s;
      FigureCounts(s[end - 1], base);
      WorthStep(Last(s, end, n), base);
      ValueStepIs(s, end, n, base, 0);
      ValueStepIs(s, end, n, base, 1);
    }
    hide *;
  }

  lemma {:induction false} WorthStep(s: string, base: nat)
    requires |s| > 0
    ensures Worth(s, base) == Worth(s[..|s| - 1], base) * base + FigureOf(s[|s| - 1])
  {
    hide FigureOf;
  }

  lemma {:induction false} ValueStepIs(s: string, end: nat, n: nat, base: nat, plane: nat)
    requires 0 < end <= |s| && n > 0
    ensures Value(s, end, n, base, plane) ==
            DigitBits(base, Ascii2Hex(s[end - 1], plane)) + Value(s, end - 1, n - 1, base, plane) * base
  {
    hide DigitBits, Ascii2Hex;
  }

  /** Figures that fall to a word: eight hexadecimal, nine decimal, ten octal, or thirty-two binary ones. */
  function PerWordOf(base: nat): nat
    requires IsBase(base)
  {
    if base == 16 then 8 else if base == 10 then 9 else if base == 8 then 10 else 32
  }

  /** Word w of a vector is worth the w-th group of figures from the right. */
  lemma {:induction false} WordIsWorth(s: string, w: nat, base: nat)
    requires IsBase(base) && Figures(s, base)
    ensures var n := PerWordOf(base);
            && WordOf(s, w, base, 1) == 0
            && WordOf(s, w, base, 0) == if w * n <= |s| then Worth(Last(s, |s| - w * n, n), base) else 0
  {
    var n := PerWordOf(base);
    assert PerWord(base) == n;
    if w * n <= |s| {
      ValueIsWorth(s, |s| - w * n, n, base);
    }
    hide Value, Worth, Last, Figures;
  }

  // ----- hexadecimal and binary texts: the vector as one number

  /** A number in the words above the first. */
  function Higher(x: int): int {
    Pow(2, 32) * x
  }

  /** The words from w on as one number. */
  ghost function NumberFrom(s: string, w: nat, base: nat): int
    decreases |s| - w
  {
    if w > |s| then 0 else WordOf(s, w, base, 0) + Higher(NumberFrom(s, w + 1, base))
  }

  lemma {:induction false} WorthJoin(s: string, t: string, base: nat)
    ensures Worth(s + t, base) == Worth(s, base) * Pow(base, |t|) + Worth(t, base)
    decreases |t|
  {
    if t == [] {
      assert s + t == s;
    } else {
      var u, k := t[..|t| - 1], |t| - 1;
      assert (s + t)[..|s + t| - 1] == s + u && (s + t)[|s + t| - 1] == t[k];
      WorthStep(s + t, base);
      WorthStep(t, base);
      WorthJoin(s, u, base);
      assert Pow(base, |t|) == base * Pow(base, k);
      var a, p, b, d := Worth(s, base), Pow(base, k), Worth(u, base), FigureOf(t[k]);
      hide *;
      JoinStep(a, p, b, d, base);
    }
  }

  lemma {:induction false} JoinStep(a: int, p: int, b: int, d: int, base: nat)
    ensures (a * p + b) * base + d == a * (base * p) + (b * base + d)
  {
    assert (a * p) * base == a * (base * p);
  }

  /** Where the figures for word w end; not positive when none are left. */
  function EndOf(s: string, w: nat, base: nat): int
    requires IsBase(base)
  {
    |s| - w * PerWordOf(base)
  }

  lemma {:induction false} EndNext(s: string, w: nat, base: nat)
    requires IsBase(base)
    ensures EndOf(s, w + 1, base) == EndOf(s, w, base) - PerWordOf(base) && EndOf(s, w, base) <= |s| - 8 * w
    ensures EndOf(s, 0, base) == |s| && PerWordOf(base) >= 8
  {
    var n := PerWordOf(base);
    assert (w + 1) * n == w * n + n;
    assert w * 8 <= w * n;
  }

  lemma {:induction false} WordAt(s: string, w: nat, base: nat)
    requires IsBase(base) && Figures(s, base)
    ensures EndOf(s, w, base) <= |s|
    ensures WordOf(s, w, base, 0) ==
            if EndOf(s, w, base) >= 0 then Worth(Last(s, EndOf(s, w, base), PerWordOf(base)), base) else 0
  {
    WordIsWorth(s, w, base);
    hide WordOf, Worth, Last, Figures, PerWordOf;
  }

  lemma {:induction false} NothingFrom(s: string, w: nat, base: nat)
    requires FillsWord(base) && Figures(s, base) && EndOf(s, w, base) <= 0
    ensures NumberFrom(s, w, base) == 0
    decreases |s| - w
  {
    if w <= |s| {
      NumberStep(s, w, base);
      assert IsBase(base);
      hide *;
      WordAt(s, w, base);
      if EndOf(s, w, base) == 0 {
        NoFigures(s, PerWordOf(base), base);
      }
      EndNext(s, w, base);
      NothingFrom(s, w + 1, base);
    }
  }

  lemma {:induction false} NoFigures(s: string, n: nat, base: nat)
    ensures Worth(Last(s, 0, n), base) == 0
  {}

  lemma {:induction false} FullWord(base: nat)
    requires FillsWord(base)
    ensures Pow(base, PerWordOf(base)) == Pow(2, 32)
  {
    assert Pow(16, 2) == 256 && Pow(2, 8) == 256;
    hide Pow;
    PowSum(16, 2, 2);
    PowSum(16, 4, 4);
    PowSum(2, 8, 8);
    PowSum(2, 16, 16);
  }

  /** The words from w on are worth the figures that are left for them. */
  lemma {:induction false} RestIsWorth(s: string, w: nat, base: nat)
    requires FillsWord(base) && Figures(s, base) && EndOf(s, w, base) >= 0
    ensures EndOf(s, w, base) <= |s| && NumberFrom(s, w, base) == Worth(s[..EndOf(s, w, base)], base)
    decreases EndOf(s, w, base)
  {
    assert IsBase(base);
    hide *;
    EndNext(s, w, base);
    NumberStep(s, w, base);
    WordAt(s, w, base);
    var end, n := EndOf(s, w, base), PerWordOf(base);
    if end <= n {
      ShortRest(s, end, n);
      NothingFrom(s, w + 1, base);
    } else {
      RestIsWorth(s, w + 1, base);
      JoinedWord(s, end, base);
    }
  }

  /** The last word of figures and what stands before it. */
  lemma {:induction false} JoinedWord(s: string, end: nat, base: nat)
    requires FillsWord(base) && IsBase(base) && PerWordOf(base) < end <= |s|
    ensures var n := PerWordOf(base);
            Worth(s[..end], base) == Higher(Worth(s[..end - n], base)) + Worth(Last(s, end, n), base)
  {
    var n := PerWordOf(base);
    var x := Worth(s[..end - n], base);
    assert Higher(x) == Pow(2, 32) * x;
    hide *;
    LongRest(s, end, n);
    WorthJoin(s[..end - n], Last(s, end, n), base);
    FullWord(base);
    Commuted(Pow(2, 32), x);
  }

  lemma {:induction false} Commuted(a: int, b: int)
    ensures a * b == b * a
  {}

  lemma {:induction false} NumberStep(s: string, w: nat, base: nat)
    requires w <= |s|
    ensures NumberFrom(s, w, base) == WordOf(s, w, base, 0) + Higher(NumberFrom(s, w + 1, base))
    ensures Higher(0) == 0
  {
    hide WordOf, Pow;
  }

  lemma {:induction false} ShortRest(s: string, end: nat, n: nat)
    requires end <= n && end <= |s|
    ensures Last(s, end, n) == s[..end]
  {}

  lemma {:induction false} LongRest(s: string, end: nat, n: nat)
    requires n < end <= |s|
    ensures s[..end] == s[..end - n] + Last(s, end, n) && |Last(s, end, n)| == n
  {}

  /** A hexadecimal or binary text: the words of the vector, thirty-two bits each, are its value. */
  lemma {:induction false} VectorIsWorth(s: string, base: nat)
    requires FillsWord(base) && Figures(s, base)
    ensures NumberFrom(s, 0, base) == Worth(s, base)
  {
    EndNext(s, 0, base);
    RestIsWorth(s, 0, base);
    assert s[..|s|] == s;
  }

  // ----- how texts are written

  /** Letters count the same in either case. */
  lemma {:induction false} CaseIgnored(s: string, t: string)
    requires |s| == |t| && forall i | 0 <= i < |s| :: Lower(s[i]) == Lower(t[i])
    ensures Clean(s) == Clean(t)
  {
    if s != [] {
      assert Lower(s[0]) == Lower(t[0]);
      SameCase(s[0], t[0]);
      CaseIgnored(s[1..], t[1..]);
    }
    hide Lower, Ignored;
  }

  lemma {:induction false} SameCase(a: char, b: char)
    requires Lower(a) == Lower(b)
    ensures Ignored(a) == Ignored(b)
  {}

  lemma {:induction false} NoTickLeft(s: string)
    requires '\'' !in s
    ensures '\'' !in Clean(s)
  {
    if s != [] {
      assert s[0] in s && forall c | c in s[1..] :: c in s;
      NoTickLeft(s[1..]);
      assert Lower(s[0]) != '\'';
    }
    hide Lower, Ignored;
  }

  lemma {:induction false} DigitsStay(d: string)
    requires forall c | c in d :: IsDigit(c)
    ensures Clean(d) == d
  {
    forall c | c in d
      ensures !Ignored(c) && Lower(c) == c
    {}
    AlreadyClean(d);
  }

  /** Anything without a tick, a tick and h or x, and digits: the digits, and base sixteen. */
  lemma {:induction false} HexText(before: string, letter: char, d: string)
    requires '\'' !in before && (letter == 'h' || letter == 'x') && forall c | c in d :: IsDigit(c)
    ensures FindBase(Clean(before + ['\'', letter] + d)) == (16, d)
  {
    CleanAppend(before + ['\'', letter], d);
    CleanAppend(before, ['\'', letter]);
    NoTickLeft(before);
    DigitsStay(d);
    AlreadyClean(['\'', letter]);
    assert Clean(before + ['\'', letter] + d) == Clean(before) + ['\'', letter] + d;
    hide Clean, FindBase;
    TickBase(Clean(before), letter, d);
  }
}
