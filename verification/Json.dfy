/** JSON values, their two printed forms (the compact canonical one that is
    hashed and the indented one of the applied record), and a reader that
    undoes both. The grammar is RFC 8259; strings are its section 7. */
module Json {
  import opened Strings

  /** A parsed value. Objects are maps, as in jsoncpp and serde_json. */
  datatype Json =
    | Null
    | Bool(b: bool)
    | Num(n: int)
    | Str(s: string)
    | Arr(items: seq<Json>)
    | Obj(members: map<string, Json>)

  // ---- Keys in order ------------------------------------------------------

  ghost predicate Ascending(ks: seq<string>) {
    forall i, j :: 0 <= i < j < |ks| ==> Less(ks[i], ks[j])
  }

  function InsertKey(k: string, ks: seq<string>): seq<string> {
    if ks == [] || Less(k, ks[0]) then [k] + ks else [ks[0]] + InsertKey(k, ks[1..])
  }

  lemma {:induction false} InsertKeyElements(k: string, ks: seq<string>, x: string)
    ensures x in InsertKey(k, ks) <==> x == k || x in ks
  {
    if ks != [] && !Less(k, ks[0]) {
      InsertKeyElements(k, ks[1..], x);
      assert ks == [ks[0]] + ks[1..];
    }
  }

  lemma {:induction false} InsertKeyAscends(k: string, ks: seq<string>)
    requires Ascending(ks) && k !in ks
    ensures Ascending(InsertKey(k, ks))
  {
    if ks == [] {
    } else if Less(k, ks[0]) {
      forall j | 0 <= j < |ks| ensures Less(k, ks[j]) {
        if j > 0 { LessTransitive(k, ks[0], ks[j]); }
      }
    } else {
      InsertKeyAscends(k, ks[1..]);
      LessTotal(k, ks[0]);
      var tail := InsertKey(k, ks[1..]);
      forall j | 0 <= j < |tail| ensures Less(ks[0], tail[j]) {
        InsertKeyElements(k, ks[1..], tail[j]);
      }
    }
  }

  ghost function SortedKeys(s: set<string>): (ks: seq<string>)
    ensures Ascending(ks) && forall x :: x in ks <==> x in s
  {
    if s == {} then [] else
      var k :| k in s;
      var ks := SortedKeys(s - {k});
      InsertKeyAscends(k, ks);
      assert forall x :: x in InsertKey(k, ks) <==> x == k || x in ks by {
        forall x { InsertKeyElements(k, ks, x); }
      }
      InsertKey(k, ks)
  }

  lemma FirstElement(s: seq<string>)
    ensures s == [] || s[0] in s
  {
  }

  lemma TailKeys(a: seq<string>)
    requires Ascending(a) && a != []
    ensures Ascending(a[1..])
    ensures forall x :: x in a[1..] <==> x in a && x != a[0]
  {
    LessIrreflexive(a[0]);
    assert a == [a[0]] + a[1..];
  }

  lemma {:induction false} AscendingUnique(a: seq<string>, b: seq<string>)
    requires Ascending(a) && Ascending(b)
    requires forall x :: x in a <==> x in b
    ensures a == b
  {
    FirstElement(a);
    FirstElement(b);
    if a != [] {
      if a[0] != b[0] {
        LessAsymmetric(a[0], b[0]);
      }
      TailKeys(a);
      TailKeys(b);
      AscendingUnique(a[1..], b[1..]);
    }
  }

  method SortKeys(s: set<string>) returns (ks: seq<string>)
    ensures ks == SortedKeys(s)
  {
    ks := [];
    var rest := s;
    while rest != {}
      invariant rest <= s && Ascending(ks)
      invariant forall x :: x in ks <==> x in s && x !in rest
      decreases rest
    {
      var k :| k in rest;
      forall x { InsertKeyElements(k, ks, x); }
      InsertKeyAscends(k, ks);
      ks, rest := InsertKey(k, ks), rest - {k};
    }
    AscendingUnique(ks, SortedKeys(s));
  }

  // ---- Strings --------------------------------------------------------------

  function HexChar(d: nat): char
    requires d < 16
  {
    if d < 10 then ('0' as int + d) as char else ('a' as int + d - 10) as char
  }

  /** `\uXXXX` for a 16-bit code unit. */
  function CodeUnit(n: nat): (s: string)
    requires n < 0x1_0000
    ensures |s| == 6
  {
    ['\\', 'u', HexChar(n / 4096), HexChar(n / 256 % 16), HexChar(n / 16 % 16), HexChar(n % 16)]
  }

  /** A character inside a string; in the ASCII form, what is beyond ASCII is
      written as one code unit or a surrogate pair. */
  function Escape(c: char, ascii: bool): string {
    if c == '"' then "\\\""
    else if c == '\\' then "\\\\"
    else if c == '\n' then "\\n"
    else if c == '\r' then "\\r"
    else if c == '\t' then "\\t"
    else if c == '\U{0008}' then "\\b"
    else if c == '\U{000C}' then "\\f"
    else if c < ' ' then CodeUnit(c as int)
    else if !ascii || c < '\U{0080}' then [c]
    else if c < '\U{10000}' then CodeUnit(c as int)
    else CodeUnit(0xD800 + (c as int - 0x1_0000) / 0x400) + CodeUnit(0xDC00 + (c as int - 0x1_0000) % 0x400)
  }

  function PutChars(s: string, ascii: bool, k: string): string {
    if s == "" then k else Escape(s[0], ascii) + PutChars(s[1..], ascii, k)
  }

  function PutString(s: string, ascii: bool, k: string): string {
    "\"" + PutChars(s, ascii, "\"" + k)
  }

  // ---- Printing -------------------------------------------------------------

  datatype Style = Compact(ascii: bool) | Pretty(indent: nat)

  function InAscii(st: Style): bool {
    st.Compact? && st.ascii
  }

  function Spaces(n: nat): string {
    if n == 0 then "" else " " + Spaces(n - 1)
  }

  function Inner(st: Style): Style {
    match st case Compact(_) => st case Pretty(i) => Pretty(i + 1)
  }

  /** What stands before each element, and before the closing bracket. */
  function OpenGap(st: Style): string {
    match st case Compact(_) => "" case Pretty(i) => "\n" + Spaces(2 * (i + 1))
  }

  function CloseGap(st: Style): string {
    match st case Compact(_) => "" case Pretty(i) => "\n" + Spaces(2 * i)
  }

  function Colon(st: Style): string {
    match st case Compact(_) => ":" case Pretty(_) => ": "
  }

  /** The text of `v` followed by `k`. */
  ghost function Put(v: Json, st: Style, k: string): string
    decreases v, 1, 0
  {
    match v
    case Null => "null" + k
    case Bool(b) => (if b then "true" else "false") + k
    case Num(n) => Decimal(n) + k
    case Str(s) => PutString(s, InAscii(st), k)
    case Arr(items) =>
      if items == [] then "[]" + k
      else "[" + PutItems(v, 0, st, CloseGap(st) + ("]" + k))
    case Obj(members) =>
      if members == map[] then "{}" + k
      else "{" + PutMembers(v, SortedKeys(members.Keys), 0, st, CloseGap(st) + ("}" + k))
  }

  ghost function PutItems(v: Json, i: nat, st: Style, k: string): string
    requires v.Arr? && i <= |v.items|
    decreases v, 0, |v.items| - i
  {
    if i == |v.items| then k
    else (if i > 0 then "," else "")
         + (OpenGap(st) + Put(v.items[i], Inner(st), PutItems(v, i + 1, st, k)))
  }

  ghost predicate KeysOf(v: Json, ks: seq<string>) {
    v.Obj? && forall x :: x in ks ==> x in v.members
  }

  ghost function PutMember(v: Json, key: string, st: Style, k: string): string
    requires KeysOf(v, [key])
    decreases v, 0, 0
  {
    assert key in [key];
    PutString(key, InAscii(st), Colon(st) + Put(v.members[key], Inner(st), k))
  }

  ghost function PutMembers(v: Json, ks: seq<string>, i: nat, st: Style, k: string): string
    requires KeysOf(v, ks) && i <= |ks|
    decreases v, 0, |ks| - i + 1
  {
    if i == |ks| then k
    else (if i > 0 then "," else "")
         + (OpenGap(st) + PutMember(v, ks[i], st, PutMembers(v, ks, i + 1, st, k)))
  }

  // ---- Printing is appending -------------------------------------------------

  lemma {:induction false} PutCharsAppends(s: string, ascii: bool, a: string, b: string)
    ensures PutChars(s, ascii, a + b) == PutChars(s, ascii, a) + b
  {
    hide Escape;
    if s != "" {
      PutCharsAppends(s[1..], ascii, a, b);
    }
  }

  lemma PutStringAppends(s: string, ascii: bool, a: string, b: string)
    ensures PutString(s, ascii, a + b) == PutString(s, ascii, a) + b
  {
    hide PutChars;
    PutCharsAppends(s, ascii, "\"" + a, b);
    assert "\"" + (a + b) == ("\"" + a) + b;
    var t := PutChars(s, ascii, "\"" + a);
    assert "\"" + (t + b) == ("\"" + t) + b;
  }

  lemma Regroup(x: string, y: string, z: string, b: string)
    ensures x + (y + (z + b)) == (x + (y + z)) + b
  {
  }

  lemma PutLeafAppends(v: Json, st: Style, a: string, b: string)
    requires v.Arr? ==> v.items == []
    requires v.Obj? ==> v.members == map[]
    ensures Put(v, st, a + b) == Put(v, st, a) + b
  {
    hide Decimal, PutString;
    match v
    case Null => assert "null" + (a + b) == ("null" + a) + b;
    case Bool(c) => var w := if c then "true" else "false"; assert w + (a + b) == (w + a) + b;
    case Num(n) => assert Decimal(n) + (a + b) == (Decimal(n) + a) + b;
    case Str(s) => PutStringAppends(s, InAscii(st), a, b);
    case Arr(_) => assert "[]" + (a + b) == ("[]" + a) + b;
    case Obj(_) => assert "{}" + (a + b) == ("{}" + a) + b;
  }

  /** Printing a value in front of `a + b` is printing it in front of `a` and
      then appending `b`: the printers only ever push onto their buffer. */
  lemma {:induction false} PutAppends(v: Json, st: Style, a: string, b: string)
    ensures Put(v, st, a + b) == Put(v, st, a) + b
    decreases v, 1, 0
  {
    hide PutItems, PutMembers, CloseGap;
    if v.Arr? && v.items != [] {
      var tail := CloseGap(st) + ("]" + a);
      Regroup(CloseGap(st), "]", a, b);
      PutItemsAppends(v, 0, st, tail, b);
      assert "[" + (PutItems(v, 0, st, tail) + b) == ("[" + PutItems(v, 0, st, tail)) + b;
    } else if v.Obj? && v.members != map[] {
      var ks, tail := SortedKeys(v.members.Keys), CloseGap(st) + ("}" + a);
      Regroup(CloseGap(st), "}", a, b);
      PutMembersAppends(v, ks, 0, st, tail, b);
      assert "{" + (PutMembers(v, ks, 0, st, tail) + b) == ("{" + PutMembers(v, ks, 0, st, tail)) + b;
    } else {
      PutLeafAppends(v, st, a, b);
    }
  }

  lemma {:induction false} PutItemsAppends(v: Json, i: nat, st: Style, a: string, b: string)
    requires v.Arr? && i <= |v.items|
    ensures PutItems(v, i, st, a + b) == PutItems(v, i, st, a) + b
    decreases v, 0, |v.items| - i
  {
    hide Put, OpenGap, Inner;
    if i < |v.items| {
      PutItemsAppends(v, i + 1, st, a, b);
      PutAppends(v.items[i], Inner(st), PutItems(v, i + 1, st, a), b);
      Regroup(if i > 0 then "," else "", OpenGap(st), Put(v.items[i], Inner(st), PutItems(v, i + 1, st, a)), b);
    }
  }

  lemma {:induction false} PutMemberAppends(v: Json, key: string, st: Style, a: string, b: string)
    requires KeysOf(v, [key])
    ensures PutMember(v, key, st, a + b) == PutMember(v, key, st, a) + b
    decreases v, 0, 0
  {
    assert key in [key];
    PutAppends(v.members[key], Inner(st), a, b);
    var t := Put(v.members[key], Inner(st), a);
    assert Colon(st) + (t + b) == (Colon(st) + t) + b;
    PutStringAppends(key, InAscii(st), Colon(st) + t, b);
  }

  lemma {:induction false} PutMembersAppends(v: Json, ks: seq<string>, i: nat, st: Style, a: string, b: string)
    requires KeysOf(v, ks) && i <= |ks|
    ensures PutMembers(v, ks, i, st, a + b) == PutMembers(v, ks, i, st, a) + b
    decreases v, 0, |ks| - i + 1
  {
    hide PutMember, OpenGap;
    if i < |ks| {
      PutMembersAppends(v, ks, i + 1, st, a, b);
      PutMemberAppends(v, ks[i], st, PutMembers(v, ks, i + 1, st, a), b);
      Regroup(if i > 0 then "," else "", OpenGap(st), PutMember(v, ks[i], st, PutMembers(v, ks, i + 1, st, a)), b);
    }
  }

  // ---- Reading ---------------------------------------------------------------

  datatype Parsed<+T> = Fail | Got(value: T, rest: string)

  predicate IsBlank(c: char) { c == ' ' || c == '\n' || c == '\r' || c == '\t' }

  function SkipBlanks(t: string): (r: string)
    ensures |r| <= |t|
  {
    if t != "" && IsBlank(t[0]) then SkipBlanks(t[1..]) else t
  }

  function HexValue(c: char): (v: Option<nat>)
    ensures v.Some? ==> v.value < 16
  {
    if IsDigit(c) then Some(DigitValue(c))
    else if 'a' <= c <= 'f' then Some(c as int - 'a' as int + 10)
    else if 'A' <= c <= 'F' then Some(c as int - 'A' as int + 10)
    else None
  }

  /** The code unit that a text names by four hexadecimal digits. */
  function ReadUnit(t: string): Option<nat> {
    if |t| < 6 || t[0] != '\\' || t[1] != 'u' then None
    else match (HexValue(t[2]), HexValue(t[3]), HexValue(t[4]), HexValue(t[5]))
      case (Some(a), Some(b), Some(c), Some(d)) => Some(4096 * a + 256 * b + 16 * c + d)
      case _ => None
  }

  /** A character by its code unit, or by its two surrogates; a surrogate on its
      own is refused. */
  function ReadUnicode(t: string): (p: Parsed<char>)
    ensures p.Got? ==> |p.rest| < |t|
  {
    match ReadUnit(t)
    case None => Fail
    case Some(n) =>
      if n < 0xD800 || 0xE000 <= n < 0x1_0000 then Got(n as char, t[6..])
      else if n >= 0xDC00 then Fail
      else match ReadUnit(t[6..])
        case None => Fail
        case Some(m) =>
          if 0xDC00 <= m < 0xE000 then Got((0x1_0000 + 0x400 * (n - 0xD800) + (m - 0xDC00)) as char, t[12..])
          else Fail
  }

  /** One character of a string body: plain, or an escape of section 7. */
  function ReadChar(t: string): (p: Parsed<char>)
    ensures p.Got? ==> |p.rest| < |t|
  {
    if t == "" || t[0] < ' ' || t[0] == '"' then Fail
    else if t[0] != '\\' then Got(t[0], t[1..])
    else if |t| < 2 then Fail
    else match t[1]
      case '"' => Got('"', t[2..])
      case '\\' => Got('\\', t[2..])
      case '/' => Got('/', t[2..])
      case 'n' => Got('\n', t[2..])
      case 'r' => Got('\r', t[2..])
      case 't' => Got('\t', t[2..])
      case 'b' => Got('\U{0008}', t[2..])
      case 'f' => Got('\U{000C}', t[2..])
      case 'u' => ReadUnicode(t)
      case _ => Fail
  }

  /** The body of a string up to its closing quote. */
  function ReadChars(t: string): (p: Parsed<string>)
    ensures p.Got? ==> |p.rest| < |t|
    decreases |t|
  {
    if t != "" && t[0] == '"' then Got("", t[1..])
    else match ReadChar(t)
      case Fail => Fail
      case Got(c, r) =>
        match ReadChars(r)
        case Fail => Fail
        case Got(s, r') => Got([c] + s, r')
  }

  function ReadNumber(t: string): (p: Parsed<Json>)
    ensures p.Got? ==> |p.rest| < |t|
  {
    var negative := t != "" && t[0] == '-';
    var u := if negative then t[1..] else t;
    var n := DigitRun(u);
    if n == 0 then Fail
    else
      var m: int := Value(u[..n]);
      Got(Num(if negative then -m else m), u[n..])
  }

  function Read(text: string): (p: Parsed<Json>)
    ensures p.Got? ==> |p.rest| < |text|
    decreases |text|, 0
  {
    var t := SkipBlanks(text);
    if t == "" then Fail
    else if t[0] == '"' then
      (match ReadChars(t[1..]) case Fail => Fail case Got(s, r) => Got(Str(s), r))
    else if t[0] == '[' then
      var u := SkipBlanks(t[1..]);
      if u != "" && u[0] == ']' then Got(Arr([]), u[1..]) else ReadItems(u, [])
    else if t[0] == '{' then
      var u := SkipBlanks(t[1..]);
      if u != "" && u[0] == '}' then Got(Obj(map[]), u[1..]) else ReadMembers(u, map[])
    else if "null" <= t then Got(Null, t[4..])
    else if "true" <= t then Got(Bool(true), t[4..])
    else if "false" <= t then Got(Bool(false), t[5..])
    else ReadNumber(t)
  }

  /** Elements up to the closing bracket, after those in `done`. */
  function ReadItems(t: string, done: seq<Json>): (p: Parsed<Json>)
    ensures p.Got? ==> |p.rest| < |t|
    decreases |t|, 1
  {
    match Read(t)
    case Fail => Fail
    case Got(v, r) =>
      var u := SkipBlanks(r);
      if u == "" then Fail
      else if u[0] == ',' then ReadItems(u[1..], done + [v])
      else if u[0] == ']' then Got(Arr(done + [v]), u[1..])
      else Fail
  }

  function ReadKey(text: string): (p: Parsed<string>)
    ensures p.Got? ==> |p.rest| < |text|
  {
    var t := SkipBlanks(text);
    if t == "" || t[0] != '"' then Fail
    else match ReadChars(t[1..])
      case Fail => Fail
      case Got(key, r) =>
        var u := SkipBlanks(r);
        if u == "" || u[0] != ':' then Fail else Got(key, u[1..])
  }

  /** Members up to the closing brace; a repeated key keeps its last value. */
  function ReadMembers(t: string, done: map<string, Json>): (p: Parsed<Json>)
    ensures p.Got? ==> |p.rest| < |t|
    decreases |t|, 1
  {
    match ReadKey(t)
    case Fail => Fail
    case Got(key, r) =>
      match Read(r)
      case Fail => Fail
      case Got(v, r') =>
        var u := SkipBlanks(r');
        if u == "" then Fail
        else if u[0] == ',' then ReadMembers(u[1..], done[key := v])
        else if u[0] == '}' then Got(Obj(done[key := v]), u[1..])
        else Fail
  }

  /** A whole document: one value and nothing after it but blanks. */
  function ReadDocument(text: string): Option<Json> {
    match Read(text)
    case Fail => None
    case Got(v, rest) => if SkipBlanks(rest) == "" then Some(v) else None
  }

  // ---- The reader undoes the printers ------------------------------------------

  predicate Blank(g: string) { forall i :: 0 <= i < |g| ==> IsBlank(g[i]) }

  lemma {:induction false} SkipGap(g: string, t: string)
    requires Blank(g)
    ensures SkipBlanks(g + t) == SkipBlanks(t)
  {
    if g == "" {
      assert g + t == t;
    } else {
      assert (g + t)[1..] == g[1..] + t;
      SkipGap(g[1..], t);
    }
  }

  lemma {:induction false} SpacesBlank(n: nat)
    ensures Blank(Spaces(n))
  {
    if n > 0 {
      SpacesBlank(n - 1);
    }
  }

  lemma GapsBlank(st: Style)
    ensures Blank(OpenGap(st)) && Blank(CloseGap(st))
  {
    if st.Pretty? {
      SpacesBlank(2 * (st.indent + 1));
      SpacesBlank(2 * st.indent);
    }
  }

  lemma HexReadsBack(d: nat)
    requires d < 16
    ensures HexValue(HexChar(d)) == Some(d)
  {
  }

  lemma Quotients(n: nat)
    ensures n / 256 == n / 16 / 16 && n / 4096 == n / 256 / 16
  {
    var q, c := n / 16 / 16, n / 16 % 16;
    assert n / 16 == 16 * q + c && n == 16 * (n / 16) + n % 16;
    assert 256 * q <= n < 256 * q + 256;
    var p := n / 256 / 16;
    assert n == 256 * (n / 256) + n % 256 && n / 256 == 16 * p + n / 256 % 16;
    assert 4096 * p <= n < 4096 * p + 4096;
  }

  lemma FourDigits(n: nat)
    ensures n == 4096 * (n / 4096) + 256 * (n / 256 % 16) + 16 * (n / 16 % 16) + n % 16
  {
    Quotients(n);
    var a, b, c := n / 4096, n / 256, n / 16;
    assert n == 16 * c + n % 16 && c == 16 * b + c % 16 && b == 16 * a + b % 16;
  }

  lemma ReadCodeUnit(n: nat, k: string)
    requires n < 0x1_0000
    ensures ReadUnit(CodeUnit(n) + k) == Some(n) && (CodeUnit(n) + k)[6..] == k
  {
    hide HexChar, HexValue;
    HexReadsBack(n / 4096);
    HexReadsBack(n / 256 % 16);
    HexReadsBack(n / 16 % 16);
    HexReadsBack(n % 16);
    FourDigits(n);
  }

  lemma ReadPair(c: char, k: string)
    requires c >= '\U{10000}'
    ensures ReadUnicode(Escape(c, true) + k) == Got(c, k)
  {
    hide CodeUnit, ReadUnit;
    var n := c as int - 0x1_0000;
    var hi, lo := 0xD800 + n / 0x400, 0xDC00 + n % 0x400;
    var t := CodeUnit(hi) + (CodeUnit(lo) + k);
    assert Escape(c, true) + k == t;
    ReadCodeUnit(hi, CodeUnit(lo) + k);
    ReadCodeUnit(lo, k);
    assert t[12..] == k;
  }

  lemma ReadEscape(c: char, ascii: bool, k: string)
    ensures ReadChar(Escape(c, ascii) + k) == Got(c, k)
    ensures Escape(c, ascii)[0] != '"'
  {
    hide ReadUnit;
    var e := Escape(c, ascii);
    var t := e + k;
    if |e| == 6 {
      assert e == CodeUnit(c as int);
      ReadCodeUnit(c as int, k);
    } else if |e| == 12 {
      ReadPair(c, k);
    } else if |e| == 2 {
      assert t[2..] == k;
    } else {
      assert t[1..] == k;
    }
  }

  lemma {:induction false} ReadPutChars(s: string, ascii: bool, k: string)
    ensures ReadChars(PutChars(s, ascii, "\"" + k)) == Got(s, k)
  {
    hide ReadChar, Escape;
    if s == "" {
      assert ("\"" + k)[1..] == k;
    } else {
      ReadEscape(s[0], ascii, PutChars(s[1..], ascii, "\"" + k));
      ReadPutChars(s[1..], ascii, k);
      assert s == [s[0]] + s[1..];
    }
  }

  lemma ReadPutNumber(n: int, k: string)
    requires k != "" ==> !IsDigit(k[0])
    ensures ReadNumber(Decimal(n) + k) == Got(Num(n), k)
  {
    hide Digits, Value, DigitRun;
    var m := if n < 0 then -n else n;
    var ds := Digits(m);
    DigitRunStops(ds, k);
    ValueOfDigits(m);
    assert (ds + k)[..|ds|] == ds && (ds + k)[|ds|..] == k;
    if n < 0 {
      assert (Decimal(n) + k)[1..] == ds + k;
    } else {
      assert IsDigit(ds[0]);
    }
  }

  /** A printed value starts with a character that is neither blank nor a
      closing bracket. */
  lemma PutHead(v: Json, st: Style, k: string)
    ensures var t := Put(v, st, k);
            t != "" && !IsBlank(t[0]) && t[0] != ']' && t[0] != '}'
  {
    hide PutChars, PutItems, PutMembers, Digits;
    if v.Num? {
      assert IsDigit(Decimal(v.n)[0]) || Decimal(v.n)[0] == '-';
    }
  }

  lemma ReadGap(g: string, t: string)
    requires Blank(g)
    ensures Read(g + t) == Read(t)
  {
    SkipGap(g, t);
  }

  /** A number must be followed by something that is not a digit. */
  predicate Delimited(k: string) {
    k != "" ==> !IsDigit(k[0])
  }

  /** Reading a printed value gives back the value and the text after it, in
      either style and at every depth of indentation. */
  lemma {:induction false} ReadPut(v: Json, st: Style, k: string)
    requires Delimited(k)
    ensures Read(Put(v, st, k)) == Got(v, k)
    decreases v, 1, 0
  {
    hide Read, Put;
    if v.Arr? && v.items != [] {
      ReadPutArray(v, st, k);
    } else if v.Obj? && v.members != map[] {
      ReadPutObject(v, st, k);
    } else {
      ReadPutLeaf(v, st, k);
    }
  }

  lemma ReadWord(word: string, k: string)
    requires word in {"null", "true", "false"}
    ensures Read(word + k)
         == Got(if word == "null" then Null else Bool(word == "true"), k)
  {
    hide ReadItems, ReadMembers, ReadNumber, ReadChars;
    var t := word + k;
    assert t[..|word|] == word && t[|word|..] == k;
    assert SkipBlanks(t) == t;
  }

  lemma ReadEmptyBrackets(k: string)
    ensures Read("[]" + k) == Got(Arr([]), k) && Read("{}" + k) == Got(Obj(map[]), k)
  {
    hide ReadItems, ReadMembers, ReadNumber, ReadChars;
    assert ("[]" + k)[1..] == "]" + k && ("]" + k)[1..] == k;
    assert ("{}" + k)[1..] == "}" + k && ("}" + k)[1..] == k;
  }

  lemma ReadPutText(s: string, ascii: bool, k: string)
    ensures Read(PutString(s, ascii, k)) == Got(Str(s), k)
  {
    hide ReadItems, ReadMembers, ReadNumber, ReadChars, PutChars;
    assert PutString(s, ascii, k)[1..] == PutChars(s, ascii, "\"" + k);
    ReadPutChars(s, ascii, k);
  }

  lemma ReadPutLeaf(v: Json, st: Style, k: string)
    requires Delimited(k)
    requires v.Arr? ==> v.items == []
    requires v.Obj? ==> v.members == map[]
    ensures Read(Put(v, st, k)) == Got(v, k)
  {
    hide Read, PutString, Decimal, ReadNumber;
    match v
    case Null => ReadWord("null", k);
    case Bool(b) => ReadWord(if b then "true" else "false", k);
    case Num(n) =>
      ReadPutNumber(n, k);
      ReadNumberHead(n, k);
    case Str(s) => ReadPutText(s, InAscii(st), k);
    case Arr(_) => ReadEmptyBrackets(k);
    case Obj(_) => ReadEmptyBrackets(k);
  }

  lemma ReadNumberHead(n: int, k: string)
    ensures Read(Decimal(n) + k) == ReadNumber(Decimal(n) + k)
  {
    hide ReadItems, ReadMembers, ReadNumber, ReadChars, Digits;
    var t := Decimal(n) + k;
    assert IsDigit(t[0]) || t[0] == '-';
    assert SkipBlanks(t) == t;
  }

  // One step of each reading loop, so that the proofs below need not look
  // inside the reader.

  lemma ReadBracket(g: string, t: string)
    requires Blank(g) && t != "" && !IsBlank(t[0])
    ensures t[0] != ']' ==> Read("[" + (g + t)) == ReadItems(t, [])
    ensures t[0] != '}' ==> Read("{" + (g + t)) == ReadMembers(t, map[])
  {
    hide ReadItems, ReadMembers, ReadNumber, ReadChars;
    SkipGap(g, t);
    assert ("[" + (g + t))[1..] == g + t && ("{" + (g + t))[1..] == g + t;
  }

  lemma ReadItemsStep(t: string, done: seq<Json>, v: Json, r: string, u: string)
    requires Read(t) == Got(v, r)
    ensures SkipBlanks(r) == "," + u ==> ReadItems(t, done) == ReadItems(u, done + [v])
    ensures SkipBlanks(r) == "]" + u ==> ReadItems(t, done) == Got(Arr(done + [v]), u)
  {
    hide Read, SkipBlanks;
    assert ("," + u)[1..] == u && ("]" + u)[1..] == u;
  }

  lemma ReadMembersStep(t: string, done: map<string, Json>, key: string, r: string, v: Json, r': string, u: string)
    requires ReadKey(t) == Got(key, r) && Read(r) == Got(v, r')
    ensures SkipBlanks(r') == "," + u ==> ReadMembers(t, done) == ReadMembers(u, done[key := v])
    ensures SkipBlanks(r') == "}" + u ==> ReadMembers(t, done) == Got(Obj(done[key := v]), u)
  {
    hide Read, SkipBlanks, ReadKey;
    assert ("," + u)[1..] == u && ("}" + u)[1..] == u;
  }

  lemma SkipClose(st: Style, close: string, k: string)
    requires close == "]" || close == "}"
    ensures SkipBlanks(CloseGap(st) + (close + k)) == close + k
  {
    GapsBlank(st);
    SkipGap(CloseGap(st), close + k);
  }

  /** The text of element `i` and all that follows it. */
  ghost function ItemText(v: Json, i: nat, st: Style, k: string): string
    requires v.Arr? && i < |v.items|
  {
    Put(v.items[i], Inner(st), PutItems(v, i + 1, st, CloseGap(st) + ("]" + k)))
  }

  lemma ItemTailText(v: Json, i: nat, st: Style, k: string)
    requires v.Arr? && 0 < i <= |v.items|
    ensures var tail := PutItems(v, i, st, CloseGap(st) + ("]" + k));
            && Delimited(tail)
            && SkipBlanks(tail) == if i == |v.items| then "]" + k
                                   else "," + (OpenGap(st) + ItemText(v, i, st, k))
  {
    hide Put;
    if i == |v.items| {
      SkipClose(st, "]", k);
    }
  }

  lemma {:induction false} ReadPutItems(v: Json, i: nat, st: Style, k: string, gap: string)
    requires v.Arr? && i < |v.items| && Blank(gap)
    ensures ReadItems(gap + ItemText(v, i, st, k), v.items[..i]) == Got(v, k)
    decreases v, 0, |v.items| - i
  {
    hide Put, PutItems, Read, ReadItems, SkipBlanks, CloseGap, OpenGap, Blank;
    var tail := PutItems(v, i + 1, st, CloseGap(st) + ("]" + k));
    var text := ItemText(v, i, st, k);
    ItemTailText(v, i + 1, st, k);
    assert Read(gap + text) == Got(v.items[i], tail) by {
      ReadGap(gap, text);
      ReadPut(v.items[i], Inner(st), tail);
    }
    assert v.items[..i] + [v.items[i]] == v.items[..i + 1];
    if i + 1 == |v.items| {
      ReadItemsStep(gap + text, v.items[..i], v.items[i], tail, k);
      assert v.items[..i + 1] == v.items;
    } else {
      GapsBlank(st);
      ReadItemsStep(gap + text, v.items[..i], v.items[i], tail, OpenGap(st) + ItemText(v, i + 1, st, k));
      ReadPutItems(v, i + 1, st, k, OpenGap(st));
    }
  }

  lemma PutArrayText(v: Json, st: Style, k: string)
    requires v.Arr? && v.items != []
    ensures Put(v, st, k) == "[" + (OpenGap(st) + ItemText(v, 0, st, k))
  {
    hide PutMembers;
    var body := OpenGap(st) + ItemText(v, 0, st, k);
    assert "" + body == body;
  }

  lemma {:induction false} ReadPutArray(v: Json, st: Style, k: string)
    requires v.Arr? && v.items != []
    ensures Read(Put(v, st, k)) == Got(v, k)
    decreases v, 0, |v.items| + 2
  {
    hide Put, PutItems, Read, ReadItems;
    PutArrayText(v, st, k);
    var text := ItemText(v, 0, st, k);
    GapsBlank(st);
    PutHead(v.items[0], Inner(st), PutItems(v, 1, st, CloseGap(st) + ("]" + k)));
    ReadBracket(OpenGap(st), text);
    ReadPutItems(v, 0, st, k, "");
    assert "" + text == text;
  }

  /** The text of the member at key `i` and all that follows it. */
  ghost function MemberText(v: Json, i: nat, st: Style, k: string): string
    requires v.Obj? && i < |SortedKeys(v.members.Keys)|
  {
    var ks := SortedKeys(v.members.Keys);
    PutMember(v, ks[i], st, PutMembers(v, ks, i + 1, st, CloseGap(st) + ("}" + k)))
  }

  lemma MemberTailText(v: Json, i: nat, st: Style, k: string)
    requires v.Obj? && 0 < i <= |SortedKeys(v.members.Keys)|
    ensures var ks := SortedKeys(v.members.Keys);
            var tail := PutMembers(v, ks, i, st, CloseGap(st) + ("}" + k));
            && Delimited(tail)
            && SkipBlanks(tail) == if i == |ks| then "}" + k
                                   else "," + (OpenGap(st) + MemberText(v, i, st, k))
  {
    hide PutMember, SortedKeys;
    if i == |SortedKeys(v.members.Keys)| {
      SkipClose(st, "}", k);
    }
  }

  lemma ReadPutKey(key: string, st: Style, t: string, gap: string)
    requires Blank(gap)
    ensures ReadKey(gap + PutString(key, InAscii(st), Colon(st) + t)) == Got(key, if st.Compact? then t else " " + t)
  {
    hide PutChars, ReadChars;
    var u := PutString(key, InAscii(st), Colon(st) + t);
    SkipGap(gap, u);
    assert u[1..] == PutChars(key, InAscii(st), "\"" + (Colon(st) + t));
    ReadPutChars(key, InAscii(st), Colon(st) + t);
    assert (Colon(st) + t)[1..] == if st.Compact? then t else " " + t;
  }

  /** The members at the first `i` keys. */
  ghost function MembersBefore(v: Json, i: nat): map<string, Json>
    requires v.Obj? && i <= |SortedKeys(v.members.Keys)|
  {
    map x | x in v.members && x in SortedKeys(v.members.Keys)[..i] :: v.members[x]
  }

  lemma MembersGrow(v: Json, i: nat)
    requires v.Obj? && i < |SortedKeys(v.members.Keys)|
    ensures var ks := SortedKeys(v.members.Keys);
            && MembersBefore(v, i)[ks[i] := v.members[ks[i]]] == MembersBefore(v, i + 1)
            && (i + 1 == |ks| ==> MembersBefore(v, i + 1) == v.members)
  {
    hide SortedKeys;
    var ks := SortedKeys(v.members.Keys);
    assert ks[..i + 1] == ks[..i] + [ks[i]];
    assert i + 1 == |ks| ==> ks[..i + 1] == ks;
  }

  lemma {:induction false} ReadPutMembers(v: Json, i: nat, st: Style, k: string, gap: string)
    requires v.Obj? && i < |SortedKeys(v.members.Keys)| && Blank(gap)
    ensures ReadMembers(gap + MemberText(v, i, st, k), MembersBefore(v, i)) == Got(v, k)
    decreases v, 0, |SortedKeys(v.members.Keys)| - i + 1
  {
    assert Blank(" ");
    hide Put, PutMembers, PutString, Read, ReadKey, ReadMembers, SkipBlanks, SortedKeys, MembersBefore,
         CloseGap, Blank, IsBlank;
    var ks := SortedKeys(v.members.Keys);
    var key, val := ks[i], v.members[ks[i]];
    var tail := PutMembers(v, ks, i + 1, st, CloseGap(st) + ("}" + k));
    var text := Put(val, Inner(st), tail);
    MemberTailText(v, i + 1, st, k);
    ReadPutKey(key, st, text, gap);
    assert Read(text) == Got(val, tail) by {
      ReadPut(val, Inner(st), tail);
    }
    assert Read(" " + text) == Got(val, tail) by {
      ReadGap(" ", text);
    }
    MembersGrow(v, i);
    var r := if st.Compact? then text else " " + text;
    if i + 1 == |ks| {
      ReadMembersStep(gap + MemberText(v, i, st, k), MembersBefore(v, i), key, r, val, tail, k);
    } else {
      GapsBlank(st);
      ReadMembersStep(gap + MemberText(v, i, st, k), MembersBefore(v, i), key, r, val, tail,
                      OpenGap(st) + MemberText(v, i + 1, st, k));
      ReadPutMembers(v, i + 1, st, k, OpenGap(st));
    }
  }

  lemma SomeKey(v: Json)
    requires v.Obj? && v.members != map[]
    ensures SortedKeys(v.members.Keys) != []
  {
    hide SortedKeys;
    var x :| x in v.members;
    assert x in SortedKeys(v.members.Keys);
  }

  lemma PutObjectText(v: Json, st: Style, k: string)
    requires v.Obj? && v.members != map[] && SortedKeys(v.members.Keys) != []
    ensures Put(v, st, k) == "{" + (OpenGap(st) + MemberText(v, 0, st, k))
  {
    hide PutItems, SortedKeys, PutMember;
    var body := OpenGap(st) + MemberText(v, 0, st, k);
    assert "" + body == body;
  }

  lemma {:induction false} ReadPutObject(v: Json, st: Style, k: string)
    requires v.Obj? && v.members != map[]
    ensures Read(Put(v, st, k)) == Got(v, k)
    decreases v, 0, |SortedKeys(v.members.Keys)| + 2
  {
    hide Put, PutMembers, Read, ReadMembers, SortedKeys;
    SomeKey(v);
    PutObjectText(v, st, k);
    var text := MemberText(v, 0, st, k);
    assert text[0] == '"' by {
      hide PutChars;
    }
    GapsBlank(st);
    ReadBracket(OpenGap(st), text);
    assert MembersBefore(v, 0) == map[];
    ReadPutMembers(v, 0, st, k, "");
    assert "" + text == text;
  }

  /** A whole document, with any blanks behind it, reads back as printed. */
  lemma ReadPutDocument(v: Json, st: Style, blanks: string)
    requires Blank(blanks)
    ensures ReadDocument(Put(v, st, blanks)) == Some(v)
  {
    ReadPut(v, st, blanks);
    SkipGap(blanks, "");
    assert blanks + "" == blanks;
  }

  /** No two values share a printed form. */
  lemma PutInjective(v: Json, w: Json, st: Style)
    ensures Put(v, st, "") == Put(w, st, "") <==> v == w
  {
    ReadPut(v, st, "");
    ReadPut(w, st, "");
  }
}
