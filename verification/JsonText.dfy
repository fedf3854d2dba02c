/** How JSON texts are spelled: which characters of a string are escaped and
    how, and where a text breaks into lines. */
module JsonText {
  import opened Strings
  import opened Json

  // ---- Strings -----------------------------------------------------------------

  const HEX: string := "0123456789abcdef"

  /** Four lower-case hexadecimal digits. */
  function Hex4(n: nat): string
    requires n < 0x1_0000
  {
    [HEX[n / 4096], HEX[n / 256 % 16], HEX[n / 16 % 16], HEX[n % 16]]
  }

  lemma CodeUnitIsHex(n: nat)
    requires n < 0x1_0000
    ensures CodeUnit(n) == "\\u" + Hex4(n)
  {
    assert HEX[0] == '0' && HEX[1] == '1' && HEX[2] == '2' && HEX[3] == '3' && HEX[4] == '4' && HEX[5] == '5';
    assert HEX[6] == '6' && HEX[7] == '7' && HEX[8] == '8' && HEX[9] == '9' && HEX[10] == 'a' && HEX[11] == 'b';
    assert HEX[12] == 'c' && HEX[13] == 'd' && HEX[14] == 'e' && HEX[15] == 'f';
    assert forall d: nat :: d < 16 ==> HexChar(d) == HEX[d];
    hide HexChar;
  }

  /** Written as it is. */
  predicate PlainChar(c: char, ascii: bool) {
    c >= ' ' && c != '"' && c != '\\' && (ascii ==> c < '\U{0080}')
  }

  /** A string without quotes, backslashes and control characters is written
      unchanged between quotes; in the ASCII form, it must be ASCII. */
  lemma {:induction false} PlainStringUnchanged(s: string, ascii: bool, k: string)
    requires forall c <- s :: PlainChar(c, ascii)
    ensures PutString(s, ascii, k) == "\"" + s + "\"" + k
  {
    PlainBody(s, ascii, "\"" + k);
    assert "\"" + (s + ("\"" + k)) == "\"" + s + "\"" + k;
  }

  lemma {:induction false} PlainBody(s: string, ascii: bool, k: string)
    requires forall c <- s :: PlainChar(c, ascii)
    ensures PutChars(s, ascii, k) == s + k
  {
    assert forall c :: PlainChar(c, ascii) ==> Escape(c, ascii) == [c];
    hide Escape;
    if s == "" {
      assert s + k == k;
    } else {
      assert s[0] in s;
      assert forall c <- s[1..] :: c in s;
      PlainBody(s[1..], ascii, k);
      assert s + k == [s[0]] + (s[1..] + k);
    }
  }

  /** What stands between the quotes of one character. */
  function Between(c: char, ascii: bool): string {
    var t := PutString([c], ascii, "");
    if |t| < 2 then "" else t[1..|t| - 1]
  }

  lemma BetweenIsEscape(c: char, ascii: bool)
    ensures Between(c, ascii) == Escape(c, ascii)
  {
    hide Escape;
    assert [c][1..] == "" && PutChars("", ascii, "\"") == "\"";
    assert "\"" + "" == "\"";
    var t := "\"" + (Escape(c, ascii) + "\"");
    assert PutString([c], ascii, "") == t;
    assert t[1..|t| - 1] == Escape(c, ascii);
  }

  /** A string is written character by character. */
  lemma {:induction false} StringJoins(a: string, c: char, b: string, ascii: bool, k: string)
    ensures PutChars(a + [c] + b, ascii, k) == PutChars(a, ascii, Between(c, ascii) + PutChars(b, ascii, k))
  {
    hide Escape, Between;
    BetweenIsEscape(c, ascii);
    var s := a + [c] + b;
    if a == "" {
      assert s[0] == c && s[1..] == b;
    } else {
      assert s[0] == a[0] && s[1..] == a[1..] + [c] + b;
      StringJoins(a[1..], c, b, ascii, k);
    }
  }

  /** The characters with an escape of their own. */
  lemma ShortEscapes(ascii: bool)
    ensures Between('"', ascii) == "\\\"" && Between('\\', ascii) == "\\\\"
    ensures Between('\n', ascii) == "\\n" && Between('\r', ascii) == "\\r" && Between('\t', ascii) == "\\t"
    ensures Between('\U{0008}', ascii) == "\\b" && Between('\U{000C}', ascii) == "\\f"
  {
    BetweenIsEscape('"', ascii);
    BetweenIsEscape('\\', ascii);
    BetweenIsEscape('\n', ascii);
    BetweenIsEscape('\r', ascii);
    BetweenIsEscape('\t', ascii);
    BetweenIsEscape('\U{0008}', ascii);
    BetweenIsEscape('\U{000C}', ascii);
  }

  /** Every other control character is written by its number. */
  lemma ControlEscapes(c: char, ascii: bool)
    requires c < ' ' && c !in "\n\r\t\U{0008}\U{000C}"
    ensures Between(c, ascii) == ['\\', 'u', '0', '0', HEX[c as int / 16], HEX[c as int % 16]]
  {
    hide CodeUnit, Hex4, Between;
    var others := "\n\r\t\U{0008}\U{000C}";
    assert others[0] == '\n' && others[1] == '\r' && others[2] == '\t' && others[3] == '\U{0008}';
    assert others[4] == '\U{000C}';
    BetweenIsEscape(c, ascii);
    CodeUnitIsHex(c as int);
    SmallHex(c as int);
  }

  lemma SmallHex(n: nat)
    requires n < 256
    ensures "\\u" + Hex4(n) == ['\\', 'u', '0', '0', HEX[n / 16], HEX[n % 16]]
  {
    assert HEX[0] == '0' && n / 4096 == 0 && n / 256 == 0;
  }

  /** Where only ASCII may be written, what is beyond is written by its code unit,
      or by its surrogates (section 7 of RFC 8259). */
  lemma BeyondAscii(c: char)
    requires c >= '\U{0080}'
    ensures c < '\U{10000}' ==> Between(c, true) == "\\u" + Hex4(c as int)
    ensures c >= '\U{10000}' ==> exists hi: nat, lo: nat ::
      && 0xD800 <= hi < 0xDC00 <= lo < 0xE000 && c as int == 0x1_0000 + 0x400 * (hi - 0xD800) + (lo - 0xDC00)
      && Between(c, true) == "\\u" + Hex4(hi) + "\\u" + Hex4(lo)
    ensures Between(c, false) == [c]
  {
    hide CodeUnit, Hex4, Between;
    BetweenIsEscape(c, true);
    BetweenIsEscape(c, false);
    if c < '\U{10000}' {
      CodeUnitIsHex(c as int);
    } else {
      var n := c as int - 0x1_0000;
      var hi, lo := 0xD800 + n / 0x400, 0xDC00 + n % 0x400;
      CodeUnitIsHex(hi);
      CodeUnitIsHex(lo);
      assert "\\u" + Hex4(hi) + ("\\u" + Hex4(lo)) == "\\u" + Hex4(hi) + "\\u" + Hex4(lo);
    }
  }

  // ---- Only ASCII ----------------------------------------------------------------

  predicate Ascii(t: string) {
    forall i :: 0 <= i < |t| ==> t[i] < '\U{0080}'
  }

  lemma AsciiJoins(a: string, b: string)
    ensures Ascii(a + b) <==> Ascii(a) && Ascii(b)
  {
    if Ascii(a + b) {
      assert forall i :: 0 <= i < |a| ==> a[i] == (a + b)[i];
      assert forall i :: 0 <= i < |b| ==> b[i] == (a + b)[|a| + i];
    }
  }

  lemma {:induction false} CharsAscii(s: string, k: string)
    requires Ascii(k)
    ensures Ascii(PutChars(s, true, k))
  {
    assert s != "" ==> Ascii(Escape(s[0], true));
    hide Ascii, Escape;
    if s != "" {
      CharsAscii(s[1..], k);
      AsciiJoins(Escape(s[0], true), PutChars(s[1..], true, k));
    }
  }

  lemma StringAscii(s: string, k: string)
    requires Ascii(k)
    ensures Ascii(PutString(s, true, k))
  {
    hide PutChars;
    AsciiJoins("\"", k);
    CharsAscii(s, "\"" + k);
    AsciiJoins("\"", PutChars(s, true, "\"" + k));
  }

  /** The ASCII form holds nothing beyond ASCII, whatever the value. */
  lemma {:induction false} PutAscii(v: Json, k: string)
    requires Ascii(k)
    ensures Ascii(Put(v, Compact(true), k))
    decreases v, 1, 0
  {
    assert v.Num? ==> Ascii(Decimal(v.n));
    hide PutItems, PutMembers, PutString, Ascii, SortedKeys;
    AsciiWords();
    match v
    case Null => AsciiJoins("null", k);
    case Bool(b) => AsciiJoins(if b then "true" else "false", k);
    case Num(n) =>
      AsciiJoins(Decimal(n), k);
    case Str(s) => StringAscii(s, k);
    case Arr(items) =>
      AsciiJoins("[]", k);
      AsciiJoins("]", k);
      ItemsAscii(v, 0, "]" + k);
      assert "" + ("]" + k) == "]" + k;
      AsciiJoins("[", PutItems(v, 0, Compact(true), "]" + k));
    case Obj(members) =>
      AsciiJoins("{}", k);
      AsciiJoins("}", k);
      var ks := SortedKeys(members.Keys);
      MembersAscii(v, ks, 0, "}" + k);
      assert "" + ("}" + k) == "}" + k;
      AsciiJoins("{", PutMembers(v, ks, 0, Compact(true), "}" + k));
  }

  lemma AsciiWords()
    ensures Ascii("") && Ascii(",") && Ascii(":") && Ascii("null") && Ascii("true") && Ascii("false")
    ensures Ascii("[") && Ascii("]") && Ascii("[]") && Ascii("{") && Ascii("}") && Ascii("{}")
  {
  }

  lemma {:induction false} ItemsAscii(v: Json, i: nat, k: string)
    requires v.Arr? && i <= |v.items| && Ascii(k)
    ensures Ascii(PutItems(v, i, Compact(true), k))
    decreases v, 0, |v.items| - i
  {
    hide Put, Ascii;
    if i < |v.items| {
      ItemsAscii(v, i + 1, k);
      PutAscii(v.items[i], PutItems(v, i + 1, Compact(true), k));
      AsciiWords();
      var t := Put(v.items[i], Compact(true), PutItems(v, i + 1, Compact(true), k));
      AsciiJoins("", t);
      AsciiJoins(if i > 0 then "," else "", "" + t);
    }
  }

  lemma {:induction false} MembersAscii(v: Json, ks: seq<string>, i: nat, k: string)
    requires KeysOf(v, ks) && i <= |ks| && Ascii(k)
    ensures Ascii(PutMembers(v, ks, i, Compact(true), k))
    decreases v, 0, |ks| - i + 1
  {
    hide Put, Ascii, PutString;
    if i < |ks| {
      MembersAscii(v, ks, i + 1, k);
      AsciiWords();
      var rest := PutMembers(v, ks, i + 1, Compact(true), k);
      PutAscii(v.members[ks[i]], rest);
      var value := Put(v.members[ks[i]], Compact(true), rest);
      AsciiJoins(":", value);
      StringAscii(ks[i], ":" + value);
      var t := PutString(ks[i], true, ":" + value);
      AsciiJoins("", t);
      AsciiJoins(if i > 0 then "," else "", "" + t);
    }
  }

  // ---- Elements and members ----------------------------------------------------------

  function Joined(parts: seq<string>): string {
    if parts == [] then ""
    else if |parts| == 1 then parts[0]
    else parts[0] + "," + Joined(parts[1..])
  }

  /** One member of an object, written by itself. */
  ghost function MemberPart(v: Json, key: string, ascii: bool): string
    requires v.Obj? && key in v.members
  {
    PutString(key, ascii, "") + ":" + Put(v.members[key], Compact(ascii), "")
  }

  ghost function MemberParts(v: Json, ks: seq<string>, i: nat, ascii: bool): seq<string>
    requires KeysOf(v, ks) && i <= |ks|
    decreases |ks| - i
  {
    if i == |ks| then [] else [MemberPart(v, ks[i], ascii)] + MemberParts(v, ks, i + 1, ascii)
  }

  ghost function ItemParts(v: Json, i: nat, ascii: bool): seq<string>
    requires v.Arr? && i <= |v.items|
    decreases |v.items| - i
  {
    if i == |v.items| then [] else [Put(v.items[i], Compact(ascii), "")] + ItemParts(v, i + 1, ascii)
  }

  lemma JoinedFirst(part: string, rest: seq<string>, k: string)
    ensures Joined([part] + rest) + k == part + ((if rest == [] then "" else "," + Joined(rest)) + k)
  {
    assert ([part] + rest)[1..] == rest;
  }

  lemma MemberPartThen(v: Json, key: string, ascii: bool, k: string)
    requires KeysOf(v, [key]) && key in v.members
    ensures PutMember(v, key, Compact(ascii), k) == MemberPart(v, key, ascii) + k
  {
    hide Put, PutString;
    var value := Put(v.members[key], Compact(ascii), "");
    PutAppends(v.members[key], Compact(ascii), "", k);
    assert "" + k == k && "" + (":" + (value + k)) == ":" + (value + k);
    PutStringAppends(key, ascii, "", ":" + (value + k));
    assert PutString(key, ascii, "") + (":" + (value + k)) == (PutString(key, ascii, "") + ":" + value) + k;
  }

  lemma {:induction false} MembersJoined(v: Json, ks: seq<string>, i: nat, ascii: bool, k: string)
    requires KeysOf(v, ks) && i <= |ks|
    ensures var parts := MemberParts(v, ks, i, ascii);
            PutMembers(v, ks, i, Compact(ascii), k) == (if parts != [] && i > 0 then "," else "") + (Joined(parts) + k)
    decreases |ks| - i
  {
    hide PutMember, MemberPart, Joined;
    if i == |ks| {
      assert "" + ("" + k) == k;
      RestJoined([], k);
    } else {
      var rest := PutMembers(v, ks, i + 1, Compact(ascii), k);
      MembersJoined(v, ks, i + 1, ascii, k);
      MemberPartThen(v, ks[i], ascii, rest);
      JoinedFirst(MemberPart(v, ks[i], ascii), MemberParts(v, ks, i + 1, ascii), k);
      RestJoined(MemberParts(v, ks, i + 1, ascii), k);
      var t := PutMember(v, ks[i], Compact(ascii), rest);
      assert "" + t == t;
    }
  }

  lemma RestJoined(parts: seq<string>, k: string)
    ensures (if parts != [] then "," else "") + (Joined(parts) + k)
         == (if parts == [] then "" else "," + Joined(parts)) + k
    ensures Joined([]) == ""
  {
  }

  /** An object is written with its keys in ascending order, whoever sorted them,
      each with its value behind a colon. */
  lemma ObjectText(v: Json, ks: seq<string>, ascii: bool)
    requires v.Obj? && Ascending(ks) && forall x :: x in ks <==> x in v.members
    ensures Put(v, Compact(ascii), "") == "{" + Joined(MemberParts(v, ks, 0, ascii)) + "}"
  {
    assert Joined([]) == "" && MemberParts(v, [], 0, ascii) == [];
    hide PutMembers, SortedKeys, MemberParts, Joined;
    AscendingUnique(ks, SortedKeys(v.members.Keys));
    MembersJoined(v, ks, 0, ascii, "}");
    assert "" + ("}" + "") == "}" && "{}" + "" == "{" + "}";
    if v.members == map[] {
      FirstElement(ks);
    } else {
      var t := Joined(MemberParts(v, ks, 0, ascii)) + "}";
      assert "" + t == t;
      assert "{" + t == "{" + Joined(MemberParts(v, ks, 0, ascii)) + "}";
    }
  }

  lemma {:induction false} ItemsJoined(v: Json, i: nat, ascii: bool, k: string)
    requires v.Arr? && i <= |v.items|
    ensures var parts := ItemParts(v, i, ascii);
            PutItems(v, i, Compact(ascii), k) == (if parts != [] && i > 0 then "," else "") + (Joined(parts) + k)
    decreases |v.items| - i
  {
    assert Joined([]) == "";
    hide Put, Joined;
    if i == |v.items| {
      assert "" + ("" + k) == k;
    } else {
      var rest := PutItems(v, i + 1, Compact(ascii), k);
      ItemsJoined(v, i + 1, ascii, k);
      PutAppends(v.items[i], Compact(ascii), "", rest);
      assert "" + rest == rest;
      JoinedFirst(Put(v.items[i], Compact(ascii), ""), ItemParts(v, i + 1, ascii), k);
      RestJoined(ItemParts(v, i + 1, ascii), k);
      var t := Put(v.items[i], Compact(ascii), rest);
      assert "" + t == t;
    }
  }

  /** An array is written with its elements in order. */
  lemma ArrayText(v: Json, ascii: bool)
    requires v.Arr?
    ensures Put(v, Compact(ascii), "") == "[" + Joined(ItemParts(v, 0, ascii)) + "]"
  {
    assert Joined([]) == "";
    hide PutItems, Joined;
    ItemsJoined(v, 0, ascii, "]");
    assert "" + ("]" + "") == "]" && "[]" + "" == "[" + "]";
    var t := Joined(ItemParts(v, 0, ascii)) + "]";
    assert "" + t == t;
    assert "[" + t == "[" + Joined(ItemParts(v, 0, ascii)) + "]";
  }

  /** Numbers are written in decimal without leading zeros, words as they are. */
  lemma LeafText(n: nat, ascii: bool)
    ensures Put(Null, Compact(ascii), "") == "null"
    ensures Put(Bool(true), Compact(ascii), "") == "true" && Put(Bool(false), Compact(ascii), "") == "false"
    ensures var t := Put(Num(n), Compact(ascii), "");
            t != "" && AllDigits(t) && Value(t) == n && (t[0] == '0' ==> t == "0")
    ensures var m: int := n;
            n > 0 ==> Put(Num(-m), Compact(ascii), "") == "-" + Put(Num(m), Compact(ascii), "")
  {
    hide Digits;
    assert Digits(n) + "" == Digits(n);
    ValueOfDigits(n);
    NoLeadingZero(n);
    assert Digits(0) == "0" by { NoLeadingZero(0); }
  }

  lemma {:induction false} NoLeadingZero(n: nat)
    ensures Digits(n)[0] == '0' <==> n == 0
    ensures n == 0 ==> Digits(n) == "0"
  {
    if n >= 10 {
      NoLeadingZero(n / 10);
    }
  }

  // ---- Lines and blanks -------------------------------------------------------------

  /** A new line at this depth, or nothing if the text is to be on one. */
  function NewLine(depth: Option<nat>): string {
    match depth case None => "" case Some(d) => "\n" + seq(2 * d, i => ' ')
  }

  function Deeper(depth: Option<nat>): Option<nat> {
    match depth case None => None case Some(d) => Some(d + 1)
  }

  function Shallower(depth: Option<nat>): Option<nat> {
    match depth case None => None case Some(d) => Some(if d == 0 then 0 else d - 1)
  }

  /** Lays out a text anew, knowing nothing but its characters. Outside of
      strings blanks go; and if there are to be lines, one begins behind an
      opening bracket and a comma and before a closing bracket, indented by two
      for each bracket that is open, and a blank follows each colon. Empty
      brackets stay together. */
  function Relaid(t: string, depth: Option<nat>, quoted: bool): string {
    if t == "" then ""
    else if quoted then
      if t[0] == '\\' && |t| > 1 then t[..2] + Relaid(t[2..], depth, true)
      else [t[0]] + Relaid(t[1..], depth, t[0] != '"')
    else if t[0] == ' ' || t[0] == '\n' || t[0] == '\r' || t[0] == '\t' then Relaid(t[1..], depth, false)
    else if |t| > 1 && (t[..2] == "[]" || t[..2] == "{}") then t[..2] + Relaid(t[2..], depth, false)
    else if t[0] == '[' || t[0] == '{' then
      [t[0]] + (NewLine(Deeper(depth)) + Relaid(t[1..], Deeper(depth), false))
    else if t[0] == ']' || t[0] == '}' then
      NewLine(Shallower(depth)) + ([t[0]] + Relaid(t[1..], Shallower(depth), false))
    else if t[0] == ',' then "," + (NewLine(depth) + Relaid(t[1..], depth, false))
    else if t[0] == ':' then (if depth.Some? then ": " else ":") + Relaid(t[1..], depth, false)
    else [t[0]] + Relaid(t[1..], depth, t[0] == '"')
  }

  /** The style that a layout belongs to. */
  function StyleOf(depth: Option<nat>, ascii: bool): Style {
    match depth case None => Compact(ascii) case Some(d) => Pretty(d)
  }

  lemma RelaidInside(c: char, r: string, depth: Option<nat>)
    ensures c != '\\' && c != '"' ==> Relaid([c] + r, depth, true) == [c] + Relaid(r, depth, true)
    ensures Relaid(['\\', c] + r, depth, true) == ['\\', c] + Relaid(r, depth, true)
  {
    assert ([c] + r)[1..] == r;
    var t := ['\\', c] + r;
    assert t[..2] == ['\\', c] && t[2..] == r;
  }

  lemma {:induction false} RelaidUnit(n: nat, r: string, depth: Option<nat>)
    requires n < 0x1_0000
    ensures Relaid(CodeUnit(n) + r, depth, true) == CodeUnit(n) + Relaid(r, depth, true)
  {
    hide Relaid;
    var u := CodeUnit(n);
    var r5 := [u[5]] + r;
    var r4 := [u[4]] + r5;
    var r3 := [u[3]] + r4;
    var r2 := [u[2]] + r3;
    assert u + r == ['\\', 'u'] + r2;
    RelaidInside('u', r2, depth);
    RelaidInside(u[2], r3, depth);
    RelaidInside(u[3], r4, depth);
    RelaidInside(u[4], r5, depth);
    RelaidInside(u[5], r, depth);
    var s := Relaid(r, depth, true);
    assert u + s == ['\\', 'u'] + ([u[2]] + ([u[3]] + ([u[4]] + ([u[5]] + s))));
  }

  lemma RelaidEscape(c: char, ascii: bool, r: string, depth: Option<nat>)
    ensures Relaid(Escape(c, ascii) + r, depth, true) == Escape(c, ascii) + Relaid(r, depth, true)
  {
    hide Relaid, CodeUnit;
    var e := Escape(c, ascii);
    if |e| == 12 {
      var n := c as int - 0x1_0000;
      var hi, lo := CodeUnit(0xD800 + n / 0x400), CodeUnit(0xDC00 + n % 0x400);
      RelaidUnit(0xD800 + n / 0x400, lo + r, depth);
      RelaidUnit(0xDC00 + n % 0x400, r, depth);
      assert (hi + lo) + r == hi + (lo + r);
      assert (hi + lo) + Relaid(r, depth, true) == hi + (lo + Relaid(r, depth, true));
    } else if |e| == 6 {
      RelaidUnit(c as int, r, depth);
    } else if |e| == 2 {
      RelaidInside(e[1], r, depth);
    } else {
      RelaidInside(c, r, depth);
    }
  }

  lemma {:induction false} RelaidChars(s: string, ascii: bool, k: string, depth: Option<nat>)
    ensures Relaid(PutChars(s, ascii, "\"" + k), depth, true) == PutChars(s, ascii, "\"" + Relaid(k, depth, false))
  {
    hide Escape;
    if s == "" {
      assert ("\"" + k)[1..] == k;
    } else {
      hide Relaid;
      RelaidEscape(s[0], ascii, PutChars(s[1..], ascii, "\"" + k), depth);
      RelaidChars(s[1..], ascii, k, depth);
    }
  }

  lemma RelaidString(s: string, ascii: bool, k: string, depth: Option<nat>)
    ensures Relaid(PutString(s, ascii, k), depth, false) == PutString(s, ascii, Relaid(k, depth, false))
  {
    hide PutChars;
    RelaidChars(s, ascii, k, depth);
    assert PutString(s, ascii, k)[1..] == PutChars(s, ascii, "\"" + k);
  }

  /** Nothing in the text asks for a different layout. */
  predicate Inert(w: string) {
    forall i :: 0 <= i < |w| ==> !IsBlank(w[i]) && w[i] !in {'[', ']', '{', '}', ',', ':', '"'}
  }

  lemma RelaidOther(c: char, r: string, depth: Option<nat>)
    requires Inert([c])
    ensures Relaid([c] + r, depth, false) == [c] + Relaid(r, depth, false)
  {
    hide NewLine;
    assert [c][0] == c && ([c] + r)[1..] == r;
    NoEmptyPair([c], r);
  }

  lemma {:induction false} RelaidInert(w: string, k: string, depth: Option<nat>)
    requires Inert(w)
    ensures Relaid(w + k, depth, false) == w + Relaid(k, depth, false)
  {
    if w == "" {
      assert w + k == k;
    } else {
      hide Relaid;
      assert w + k == [w[0]] + (w[1..] + k);
      RelaidInert(w[1..], k, depth);
      RelaidOther(w[0], w[1..] + k, depth);
      assert w + Relaid(k, depth, false) == [w[0]] + (w[1..] + Relaid(k, depth, false));
    }
  }

  lemma RelaidEmpty(k: string, depth: Option<nat>)
    ensures Relaid("[]" + k, depth, false) == "[]" + Relaid(k, depth, false)
    ensures Relaid("{}" + k, depth, false) == "{}" + Relaid(k, depth, false)
  {
    assert ("[]" + k)[..2] == "[]" && ("[]" + k)[2..] == k;
    assert ("{}" + k)[..2] == "{}" && ("{}" + k)[2..] == k;
  }

  lemma RelaidOpen(t: string, depth: Option<nat>)
    requires t != "" && t[0] != ']' && t[0] != '}'
    ensures Relaid("[" + t, depth, false) == "[" + (NewLine(Deeper(depth)) + Relaid(t, Deeper(depth), false))
    ensures Relaid("{" + t, depth, false) == "{" + (NewLine(Deeper(depth)) + Relaid(t, Deeper(depth), false))
  {
    assert ("[" + t)[1..] == t && ("{" + t)[1..] == t;
    assert ("[" + t)[..2][1] == t[0] && ("{" + t)[..2][1] == t[0];
  }

  lemma NoEmptyPair(c: string, t: string)
    requires |c| == 1 && c[0] != '[' && c[0] != '{'
    ensures (c + t)[0] == c[0]
    ensures |c + t| > 1 ==> (c + t)[..2] != "[]" && (c + t)[..2] != "{}"
  {
    if |c + t| > 1 {
      assert (c + t)[..2][0] == c[0];
    }
  }

  lemma RelaidClose(t: string, depth: Option<nat>)
    ensures Relaid("]" + t, Deeper(depth), false) == NewLine(depth) + ("]" + Relaid(t, depth, false))
    ensures Relaid("}" + t, Deeper(depth), false) == NewLine(depth) + ("}" + Relaid(t, depth, false))
  {
    hide NewLine;
    assert ("]" + t)[1..] == t && ("}" + t)[1..] == t;
    assert Shallower(Deeper(depth)) == depth;
    NoEmptyPair("]", t);
    NoEmptyPair("}", t);
  }

  lemma RelaidSign(t: string, depth: Option<nat>)
    ensures Relaid("," + t, depth, false) == "," + (NewLine(depth) + Relaid(t, depth, false))
    ensures Relaid(":" + t, depth, false) == (if depth.Some? then ": " else ":") + Relaid(t, depth, false)
  {
    hide NewLine;
    assert ("," + t)[1..] == t && (":" + t)[1..] == t;
    NoEmptyPair(",", t);
    NoEmptyPair(":", t);
  }

  lemma {:induction false} SpacesAre(n: nat)
    ensures Spaces(n) == seq(n, i => ' ')
  {
    if n > 0 {
      SpacesAre(n - 1);
      assert seq(n, i => ' ') == [' '] + seq(n - 1, i => ' ');
    }
  }

  /** The gaps of a style are new lines of its layout. */
  lemma GapsAreNewLines(depth: Option<nat>, ascii: bool)
    ensures var st := StyleOf(depth, ascii);
            && OpenGap(st) == NewLine(Deeper(depth)) && CloseGap(st) == NewLine(depth)
            && Inner(st) == StyleOf(Deeper(depth), ascii)
            && Colon(st) == if depth.Some? then ": " else ":"
  {
    if depth.Some? {
      SpacesAre(2 * (depth.value + 1));
      SpacesAre(2 * depth.value);
    }
  }

  /** Main result. The compact text of a value, laid out on one line, stays as it
      is, so it has no blank outside of strings; and laid out in lines, it is the
      indented text. */
  lemma {:induction false} RelaidPut(v: Json, ascii: bool, k: string, depth: Option<nat>)
    requires depth.Some? ==> !ascii
    ensures Relaid(Put(v, Compact(ascii), k), depth, false)
         == Put(v, StyleOf(depth, ascii), Relaid(k, depth, false))
    decreases v, 1, 0
  {
    assert v.Num? ==> Inert(Decimal(v.n));
    hide Relaid, PutItems, PutMembers, PutString, SortedKeys, OpenGap, CloseGap, NewLine;
    match v
    case Null => RelaidWords(k, depth);
    case Bool(_) => RelaidWords(k, depth);
    case Num(n) =>
      RelaidInert(Decimal(n), k, depth);
    case Str(s) => RelaidString(s, ascii, k, depth);
    case Arr(items) =>
      if items == [] {
        RelaidEmpty(k, depth);
      } else {
        RelaidArray(v, ascii, k, depth);
      }
    case Obj(members) =>
      if members == map[] {
        RelaidEmpty(k, depth);
      } else {
        RelaidObject(v, ascii, k, depth);
      }
  }

  lemma RelaidWords(k: string, depth: Option<nat>)
    ensures Relaid("null" + k, depth, false) == "null" + Relaid(k, depth, false)
    ensures Relaid("true" + k, depth, false) == "true" + Relaid(k, depth, false)
    ensures Relaid("false" + k, depth, false) == "false" + Relaid(k, depth, false)
  {
    hide Relaid;
    RelaidInert("null", k, depth);
    RelaidInert("true", k, depth);
    RelaidInert("false", k, depth);
  }

  lemma {:induction false} RelaidArray(v: Json, ascii: bool, k: string, depth: Option<nat>)
    requires v.Arr? && v.items != [] && (depth.Some? ==> !ascii)
    ensures Relaid(Put(v, Compact(ascii), k), depth, false)
         == Put(v, StyleOf(depth, ascii), Relaid(k, depth, false))
    decreases v, 0, |v.items| + 2
  {
    hide Relaid, PutItems, NewLine;
    var st, tail := Compact(ascii), "]" + k;
    var body := PutItems(v, 0, st, tail);
    assert "" + tail == tail && Put(v, st, k) == "[" + body;
    FirstItem(v, ascii, tail);
    RelaidOpen(body, depth);
    RelaidItems(v, 0, ascii, tail, depth);
    RelaidClose(k, depth);
    GapsAreNewLines(depth, ascii);
    ItemsFrom(v, 0, StyleOf(depth, ascii), Relaid(tail, Deeper(depth), false));
  }

  lemma FirstItem(v: Json, ascii: bool, k: string)
    requires v.Arr? && v.items != []
    ensures var t := PutItems(v, 0, Compact(ascii), k); t != "" && t[0] != ']' && t[0] != '}'
  {
    hide Put;
    var t := Put(v.items[0], Compact(ascii), PutItems(v, 1, Compact(ascii), k));
    PutHead(v.items[0], Compact(ascii), PutItems(v, 1, Compact(ascii), k));
    assert "" + ("" + t) == t;
  }

  /** The text of the elements from `i` on, without what stands before it. */
  ghost function ItemsAt(v: Json, i: nat, st: Style, k: string): string
    requires v.Arr? && i < |v.items|
  {
    Put(v.items[i], Inner(st), PutItems(v, i + 1, st, k))
  }

  lemma ItemsFrom(v: Json, i: nat, st: Style, k: string)
    requires v.Arr? && i < |v.items|
    ensures PutItems(v, i, st, k) == (if i > 0 then "," else "") + (OpenGap(st) + ItemsAt(v, i, st, k))
    ensures i == 0 ==> PutItems(v, 0, st, k) == OpenGap(st) + ItemsAt(v, 0, st, k)
  {
    hide Put;
    var t := OpenGap(st) + ItemsAt(v, i, st, k);
    assert "" + t == t;
  }

  /** From element `i` on; the first one is laid out behind a gap already. */
  lemma {:induction false} RelaidItems(v: Json, i: nat, ascii: bool, k: string, depth: Option<nat>)
    requires v.Arr? && i <= |v.items| && (i == 0 ==> v.items != []) && (depth.Some? ==> !ascii)
    ensures var to := Relaid(k, Deeper(depth), false);
            Relaid(PutItems(v, i, Compact(ascii), k), Deeper(depth), false)
            == if i == 0 then ItemsAt(v, 0, StyleOf(depth, ascii), to)
               else PutItems(v, i, StyleOf(depth, ascii), to)
    decreases v, 0, |v.items| - i
  {
    hide Put, Relaid, NewLine;
    if i < |v.items| {
      var st, st', to := Compact(ascii), StyleOf(depth, ascii), Relaid(k, Deeper(depth), false);
      var t := ItemsAt(v, i, st, k);
      RelaidItems(v, i + 1, ascii, k, depth);
      RelaidPut(v.items[i], ascii, PutItems(v, i + 1, st, k), Deeper(depth));
      GapsAreNewLines(depth, ascii);
      GapsAreNewLines(None, ascii);
      assert Relaid(t, Deeper(depth), false) == ItemsAt(v, i, st', to);
      assert "" + t == t;
      if i == 0 {
        ItemsFrom(v, 0, st, k);
      } else {
        ItemsFrom(v, i, st, k);
        ItemsFrom(v, i, st', to);
        RelaidSign(t, Deeper(depth));
      }
    }
  }

  lemma {:induction false} RelaidObject(v: Json, ascii: bool, k: string, depth: Option<nat>)
    requires v.Obj? && v.members != map[] && (depth.Some? ==> !ascii)
    ensures Relaid(Put(v, Compact(ascii), k), depth, false)
         == Put(v, StyleOf(depth, ascii), Relaid(k, depth, false))
    decreases v, 0, |SortedKeys(v.members.Keys)| + 2
  {
    hide Relaid, PutMembers, NewLine, SortedKeys;
    SomeKey(v);
    var ks := SortedKeys(v.members.Keys);
    var st, tail := Compact(ascii), "}" + k;
    var body := PutMembers(v, ks, 0, st, tail);
    assert "" + tail == tail && Put(v, st, k) == "{" + body;
    FirstMember(v, ks, ascii, tail);
    RelaidOpen(body, depth);
    RelaidMembers(v, ks, 0, ascii, tail, depth);
    RelaidClose(k, depth);
    GapsAreNewLines(depth, ascii);
    MembersFrom(v, ks, 0, StyleOf(depth, ascii), Relaid(tail, Deeper(depth), false));
  }

  lemma FirstMember(v: Json, ks: seq<string>, ascii: bool, k: string)
    requires KeysOf(v, ks) && ks != []
    ensures var t := PutMembers(v, ks, 0, Compact(ascii), k); t != "" && t[0] != ']' && t[0] != '}'
  {
    hide PutChars, Put;
  }

  /** The text of the members from `i` on, without what stands before it. */
  ghost function MembersAt(v: Json, ks: seq<string>, i: nat, st: Style, k: string): string
    requires KeysOf(v, ks) && i < |ks|
  {
    PutMember(v, ks[i], st, PutMembers(v, ks, i + 1, st, k))
  }

  lemma MembersFrom(v: Json, ks: seq<string>, i: nat, st: Style, k: string)
    requires KeysOf(v, ks) && i < |ks|
    ensures PutMembers(v, ks, i, st, k) == (if i > 0 then "," else "") + (OpenGap(st) + MembersAt(v, ks, i, st, k))
    ensures i == 0 ==> PutMembers(v, ks, 0, st, k) == OpenGap(st) + MembersAt(v, ks, 0, st, k)
  {
    hide PutMember;
    var t := OpenGap(st) + MembersAt(v, ks, i, st, k);
    assert "" + t == t;
  }

  lemma {:induction false} RelaidMembers(v: Json, ks: seq<string>, i: nat, ascii: bool, k: string, depth: Option<nat>)
    requires KeysOf(v, ks) && i <= |ks| && (i == 0 ==> ks != []) && (depth.Some? ==> !ascii)
    ensures var to := Relaid(k, Deeper(depth), false);
            Relaid(PutMembers(v, ks, i, Compact(ascii), k), Deeper(depth), false)
            == if i == 0 then MembersAt(v, ks, 0, StyleOf(depth, ascii), to)
               else PutMembers(v, ks, i, StyleOf(depth, ascii), to)
    decreases v, 0, |ks| - i + 1
  {
    hide PutMember, Relaid, NewLine;
    if i < |ks| {
      var st, st', to := Compact(ascii), StyleOf(depth, ascii), Relaid(k, Deeper(depth), false);
      var t := MembersAt(v, ks, i, st, k);
      RelaidMembers(v, ks, i + 1, ascii, k, depth);
      RelaidMember(v, ks[i], ascii, PutMembers(v, ks, i + 1, st, k), depth);
      GapsAreNewLines(depth, ascii);
      GapsAreNewLines(None, ascii);
      assert Relaid(t, Deeper(depth), false) == MembersAt(v, ks, i, st', to);
      assert "" + t == t;
      if i == 0 {
        MembersFrom(v, ks, 0, st, k);
      } else {
        MembersFrom(v, ks, i, st, k);
        MembersFrom(v, ks, i, st', to);
        RelaidSign(t, Deeper(depth));
      }
    }
  }

  lemma {:induction false} RelaidMember(v: Json, key: string, ascii: bool, k: string, depth: Option<nat>)
    requires KeysOf(v, [key]) && (depth.Some? ==> !ascii)
    ensures Relaid(PutMember(v, key, Compact(ascii), k), Deeper(depth), false)
         == PutMember(v, key, StyleOf(depth, ascii), Relaid(k, Deeper(depth), false))
    decreases v, 0, 0
  {
    hide PutString, Relaid, NewLine, Put;
    assert key in [key];
    var value := Put(v.members[key], Compact(ascii), k);
    RelaidPut(v.members[key], ascii, k, Deeper(depth));
    GapsAreNewLines(depth, ascii);
    RelaidString(key, ascii, ":" + value, Deeper(depth));
    RelaidSign(value, Deeper(depth));
  }
}
