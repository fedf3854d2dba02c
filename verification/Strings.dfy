/** Text shared by the other modules: lexicographic order, decimal numerals,
    lines and trimming. */
module Strings {

  datatype Option<+T> = None | Some(value: T) {
    function GetOr(default: T): T {
      match this case None => default case Some(v) => v
    }
  }

  // ---- Lexicographic order ----------------------------------------------

  predicate Less(a: string, b: string) {
    b != [] && (a == [] || a[0] < b[0] || (a[0] == b[0] && Less(a[1..], b[1..])))
  }

  lemma {:induction false} LessIrreflexive(a: string)
    ensures !Less(a, a)
  {
    if a != [] {
      LessIrreflexive(a[1..]);
    }
  }

  lemma {:induction false} LessTransitive(a: string, b: string, c: string)
    requires Less(a, b) && Less(b, c)
    ensures Less(a, c)
  {
    if a != [] && a[0] == b[0] == c[0] {
      LessTransitive(a[1..], b[1..], c[1..]);
    }
  }

  lemma {:induction false} LessTotal(a: string, b: string)
    ensures a == b || Less(a, b) || Less(b, a)
  {
    if a != [] && b != [] && a[0] == b[0] {
      LessTotal(a[1..], b[1..]);
      assert a == [a[0]] + a[1..] && b == [b[0]] + b[1..];
    }
  }

  lemma LessAsymmetric(a: string, b: string)
    requires Less(a, b)
    ensures !Less(b, a) && a != b
  {
    LessIrreflexive(a);
    if Less(b, a) {
      LessTransitive(a, b, a);
    }
  }

  /** Strings that start with blocks of one length compare block first. */
  lemma {:induction false} LessBlocks(a: string, x: string, b: string, y: string)
    requires |a| == |b|
    ensures Less(a + x, b + y) <==> Less(a, b) || (a == b && Less(x, y))
  {
    if a == [] {
      assert a + x == x && b + y == y;
    } else {
      assert (a + x)[1..] == a[1..] + x && (b + y)[1..] == b[1..] + y;
      LessBlocks(a[1..], x, b[1..], y);
      assert a == [a[0]] + a[1..] && b == [b[0]] + b[1..];
    }
  }

  // ---- Decimal numerals --------------------------------------------------

  predicate IsDigit(c: char) { '0' <= c <= '9' }

  predicate AllDigits(s: string) { forall i :: 0 <= i < |s| ==> IsDigit(s[i]) }

  function DigitValue(c: char): nat
    requires IsDigit(c)
  {
    c as int - '0' as int
  }

  function DigitChar(d: nat): (c: char)
    requires d < 10
    ensures IsDigit(c) && DigitValue(c) == d
  {
    ('0' as int + d) as char
  }

  function Digits(n: nat): (s: string)
    ensures s != [] && AllDigits(s)
  {
    if n < 10 then [DigitChar(n)] else Digits(n / 10) + [DigitChar(n % 10)]
  }

  function Value(s: string): nat
    requires AllDigits(s)
  {
    if s == [] then 0 else 10 * Value(s[..|s| - 1]) + DigitValue(s[|s| - 1])
  }

  lemma {:induction false} ValueOfDigits(n: nat)
    ensures Value(Digits(n)) == n
  {
    if n >= 10 {
      ValueOfDigits(n / 10);
      assert Digits(n)[..|Digits(n)| - 1] == Digits(n / 10);
    }
  }

  function Zeros(n: nat): (s: string)
    ensures |s| == n && AllDigits(s)
  {
    if n == 0 then "" else ['0'] + Zeros(n - 1)
  }

  /** Zero-padded to at least `width` places. */
  function Padded(n: nat, width: nat): (s: string)
    ensures AllDigits(s) && |s| >= width
  {
    var s := Digits(n);
    if |s| < width then Zeros(width - |s|) + s else s
  }

  lemma {:induction false} ValueSkipsZeros(k: nat, s: string)
    requires AllDigits(s)
    ensures Value(Zeros(k) + s) == Value(s)
  {
    var t := Zeros(k) + s;
    if s != [] {
      assert t[..|t| - 1] == Zeros(k) + s[..|s| - 1];
      ValueSkipsZeros(k, s[..|s| - 1]);
    } else if k > 0 {
      assert t[..|t| - 1] == Zeros(k - 1) + [] by {
        ZerosEnd(k);
      }
      ZerosEnd(k);
      ValueSkipsZeros(k - 1, []);
    }
  }

  lemma {:induction false} ZerosEnd(k: nat)
    requires k > 0
    ensures Zeros(k) == Zeros(k - 1) + ['0']
  {
    if k > 1 {
      ZerosEnd(k - 1);
    }
  }

  lemma ValueOfPadded(n: nat, width: nat)
    ensures Value(Padded(n, width)) == n
  {
    hide Digits, Value, Zeros;
    ValueOfDigits(n);
    if |Digits(n)| < width {
      ValueSkipsZeros(width - |Digits(n)|, Digits(n));
    }
  }

  function Power10(n: nat): nat {
    if n == 0 then 1 else 10 * Power10(n - 1)
  }

  lemma {:induction false} DigitsFit(n: nat, width: nat)
    requires n < Power10(width) && width > 0
    ensures |Digits(n)| <= width
  {
    if n >= 10 {
      DigitsFit(n / 10, width - 1);
    }
  }

  lemma PaddedWidth(n: nat, width: nat)
    requires n < Power10(width) && width > 0
    ensures |Padded(n, width)| == width
  {
    DigitsFit(n, width);
  }

  /** Numerals of one width compare as text exactly as they do as numbers. */
  lemma {:induction false} NumeralOrder(a: string, b: string)
    requires AllDigits(a) && AllDigits(b) && |a| == |b|
    ensures Less(a, b) <==> Value(a) < Value(b)
    decreases |a|
  {
    if a != [] {
      var n := |a| - 1;
      assert a == a[..n] + [a[n]] && b == b[..n] + [b[n]];
      LessBlocks(a[..n], [a[n]], b[..n], [b[n]]);
      NumeralOrder(a[..n], b[..n]);
      NumeralOrder(b[..n], a[..n]);
      LessTotal(a[..n], b[..n]);
      LessIrreflexive(a[..n]);
    }
  }

  function Decimal(n: int): string {
    if n < 0 then "-" + Digits(-n) else Digits(n)
  }

  /** How many digits a text starts with. */
  function DigitRun(t: string): (n: nat)
    ensures n <= |t| && AllDigits(t[..n])
  {
    if t != [] && IsDigit(t[0]) then 1 + DigitRun(t[1..]) else 0
  }

  lemma {:induction false} DigitRunStops(s: string, k: string)
    requires AllDigits(s)
    requires k != [] ==> !IsDigit(k[0])
    ensures DigitRun(s + k) == |s|
  {
    if s == [] {
      assert s + k == k;
    } else {
      assert (s + k)[1..] == s[1..] + k;
      DigitRunStops(s[1..], k);
    }
  }

  // ---- Splitting at a character --------------------------------------------

  /** How far the text goes before the first `c`. */
  function Until(s: string, c: char): (n: nat)
    ensures n <= |s| && c !in s[..n]
    ensures n < |s| ==> s[n] == c
  {
    if s == "" || s[0] == c then 0 else 1 + Until(s[1..], c)
  }

  lemma {:induction false} UntilStops(a: string, c: char, rest: string)
    requires c !in a && (rest == "" || rest[0] == c)
    ensures Until(a + rest, c) == |a|
  {
    if a == "" {
      assert a + rest == rest;
    } else {
      assert (a + rest)[1..] == a[1..] + rest;
      UntilStops(a[1..], c, rest);
    }
  }

  /** The part before the first `c` is determined by the whole. */
  lemma SplitUnique(a: string, x: string, b: string, y: string, c: char)
    requires c !in a && c !in b && (x == "" || x[0] == c) && (y == "" || y[0] == c)
    requires a + x == b + y
    ensures a == b && x == y
  {
    var s := a + x;
    UntilStops(a, c, x);
    UntilStops(b, c, y);
    assert a == s[..|a|] && x == s[|a|..] && b == s[..|b|] && y == s[|b|..];
  }

  const NUL: char := '\U{0000}'

  // ---- Lines ---------------------------------------------------------------

  predicate OneLine(s: string) { '\n' !in s }

  function Unlines(ls: seq<string>): string {
    if ls == [] then "" else ls[0] + "\n" + Unlines(ls[1..])
  }

  function LineEnd(t: string): (n: nat)
    ensures n <= |t| && OneLine(t[..n])
    ensures n < |t| ==> t[n] == '\n'
  {
    if t == [] || t[0] == '\n' then 0 else 1 + LineEnd(t[1..])
  }

  /** The lines a `getline` loop reads; a last line needs no newline. */
  function Lines(t: string): seq<string>
    decreases |t|
  {
    if t == "" then []
    else
      var n := LineEnd(t);
      if n == |t| then [t] else [t[..n]] + Lines(t[n + 1..])
  }

  lemma {:induction false} LineEndStops(s: string, k: string)
    requires OneLine(s)
    ensures LineEnd(s + "\n" + k) == |s|
  {
    var t := s + "\n" + k;
    if s != [] {
      assert t[1..] == s[1..] + "\n" + k;
      LineEndStops(s[1..], k);
    }
  }

  lemma {:induction false} LinesOfUnlines(ls: seq<string>)
    requires forall i :: 0 <= i < |ls| ==> OneLine(ls[i])
    ensures Lines(Unlines(ls)) == ls
  {
    if ls != [] {
      var t := Unlines(ls);
      LineEndStops(ls[0], Unlines(ls[1..]));
      assert t[..|ls[0]|] == ls[0];
      assert t[|ls[0]| + 1..] == Unlines(ls[1..]);
      LinesOfUnlines(ls[1..]);
    }
  }

  /** A last line needs no newline. */
  lemma {:induction false} LinesOfUnfinished(ls: seq<string>, last: string)
    requires (forall i :: 0 <= i < |ls| ==> OneLine(ls[i])) && OneLine(last)
    ensures Lines(Unlines(ls) + last) == ls + if last == "" then [] else [last]
  {
    if ls == [] {
      assert Unlines(ls) + last == last;
      NoNewline(last);
    } else {
      var t := Unlines(ls) + last;
      assert t == ls[0] + "\n" + (Unlines(ls[1..]) + last);
      LineEndStops(ls[0], Unlines(ls[1..]) + last);
      assert t[..|ls[0]|] == ls[0];
      assert t[|ls[0]| + 1..] == Unlines(ls[1..]) + last;
      LinesOfUnfinished(ls[1..], last);
    }
  }

  lemma {:induction false} NoNewline(s: string)
    requires OneLine(s)
    ensures LineEnd(s) == |s|
  {
    if s != "" {
      assert s[0] in s && forall c <- s[1..] :: c in s;
      NoNewline(s[1..]);
    }
  }

  // ---- Trimming ------------------------------------------------------------

  /** Unicode White_Space, as Rust's `char::is_whitespace` tests it. */
  predicate IsSpace(c: char) {
    || '\U{0009}' <= c <= '\U{000D}' || c == ' ' || c == '\U{0085}' || c == '\U{00A0}'
    || c == '\U{1680}' || '\U{2000}' <= c <= '\U{200A}' || c == '\U{2028}'
    || c == '\U{2029}' || c == '\U{202F}' || c == '\U{205F}' || c == '\U{3000}'
  }

  /** There are twenty-five such characters. */
  lemma SpacesAre(c: char)
    ensures IsSpace(c)
       <==> c in {'\t', '\n', '\U{000B}', '\U{000C}', '\r', ' ', '\U{0085}', '\U{00A0}', '\U{1680}',
                  '\U{2000}', '\U{2001}', '\U{2002}', '\U{2003}', '\U{2004}', '\U{2005}', '\U{2006}',
                  '\U{2007}', '\U{2008}', '\U{2009}', '\U{200A}', '\U{2028}', '\U{2029}', '\U{202F}',
                  '\U{205F}', '\U{3000}'}
  {
  }

  function TrimStart(s: string): string {
    if s != [] && IsSpace(s[0]) then TrimStart(s[1..]) else s
  }

  function TrimEnd(s: string): string {
    if s != [] && IsSpace(s[|s| - 1]) then TrimEnd(s[..|s| - 1]) else s
  }

  function Trim(s: string): string {
    TrimEnd(TrimStart(s))
  }

  predicate Trimmed(s: string) {
    s != [] ==> !IsSpace(s[0]) && !IsSpace(s[|s| - 1])
  }

  lemma TrimKeeps(s: string)
    requires Trimmed(s)
    ensures Trim(s) == s && TrimStart(s) == s && TrimEnd(s) == s
  {
  }

  /** Blanks and tabs. */
  predicate Padding(s: string) {
    forall i :: 0 <= i < |s| ==> s[i] == ' ' || s[i] == '\t'
  }

  /** Padding on either side goes, and nothing else. */
  lemma TrimPadded(a: string, s: string, b: string)
    requires Padding(a) && Padding(b) && Trimmed(s)
    ensures Trim(a + s + b) == s
  {
    TrimStartPadded(a, s + b);
    assert a + (s + b) == a + s + b;
    if s == "" {
      TrimStartPadded(b, "");
      assert b + "" == s + b == b;
    } else {
      assert TrimStart(s + b) == s + b;
      TrimEndPadded(s, b);
    }
  }

  lemma {:induction false} TrimStartPadded(a: string, s: string)
    requires Padding(a)
    ensures TrimStart(a + s) == TrimStart(s)
  {
    if a == "" {
      assert a + s == s;
    } else {
      assert (a + s)[1..] == a[1..] + s;
      TrimStartPadded(a[1..], s);
    }
  }

  lemma {:induction false} TrimEndPadded(s: string, b: string)
    requires Padding(b)
    ensures TrimEnd(s + b) == TrimEnd(s)
  {
    if b == "" {
      assert s + b == s;
    } else {
      var n := |b| - 1;
      assert (s + b)[..|s + b| - 1] == s + b[..n];
      TrimEndPadded(s, b[..n]);
    }
  }
}
