/** What becomes of a record that was not written to its end, or that something
    was appended to. */
module RecordText {
  import opened Strings
  import opened Manifests
  import opened Json
  import opened ManifestIO

  // ---- Reading does not look behind what it takes -------------------------------------------

  lemma {:induction false} BlanksThen(t: string, more: string)
    requires SkipBlanks(t) != ""
    ensures SkipBlanks(t + more) == SkipBlanks(t) + more
  {
    if t != "" {
      assert (t + more)[1..] == t[1..] + more;
      if IsBlank(t[0]) {
        BlanksThen(t[1..], more);
      }
    }
  }

  lemma UnitThen(t: string, more: string)
    requires ReadUnit(t).Some?
    ensures |t| >= 6 && ReadUnit(t + more) == ReadUnit(t) && (t + more)[6..] == t[6..] + more
  {
  }

  lemma UnicodeThen(t: string, more: string)
    requires ReadUnicode(t).Got?
    ensures ReadUnicode(t + more) == Got(ReadUnicode(t).value, ReadUnicode(t).rest + more)
  {
    hide ReadUnit;
    UnitThen(t, more);
    var n := ReadUnit(t).value;
    if 0xD800 <= n < 0xDC00 {
      UnitThen(t[6..], more);
      assert (t + more)[12..] == t[12..] + more;
    }
  }

  lemma CharThen(t: string, more: string)
    requires ReadChar(t).Got?
    ensures ReadChar(t + more) == Got(ReadChar(t).value, ReadChar(t).rest + more)
  {
    hide ReadUnicode;
    assert (t + more)[0] == t[0] && (t + more)[1..] == t[1..] + more;
    if t[0] == '\\' {
      assert (t + more)[1] == t[1] && (t + more)[2..] == t[2..] + more;
      if t[1] == 'u' {
        UnicodeThen(t, more);
      }
    }
  }

  lemma {:induction false} CharsThen(t: string, more: string)
    requires ReadChars(t).Got?
    ensures ReadChars(t + more) == Got(ReadChars(t).value, ReadChars(t).rest + more)
    decreases |t|
  {
    assert ReadChar(t).Got? ==> t != "";
    hide ReadChar;
    if t != "" {
      assert (t + more)[0] == t[0] && (t + more)[1..] == t[1..] + more;
    }
    if !(t != "" && t[0] == '"') {
      CharThen(t, more);
      CharsThen(ReadChar(t).rest, more);
    }
  }

  lemma {:induction false} RunThen(t: string, more: string)
    requires DigitRun(t) < |t| || more == "" || !IsDigit(more[0])
    ensures DigitRun(t + more) == DigitRun(t)
  {
    if t == "" {
      assert t + more == more;
    } else {
      assert (t + more)[1..] == t[1..] + more;
      if IsDigit(t[0]) {
        RunThen(t[1..], more);
      }
    }
  }

  /** A number that ends before the text does. */
  lemma NumberThen(t: string, more: string)
    requires ReadNumber(t).Got? && ReadNumber(t).rest != ""
    ensures ReadNumber(t + more) == Got(ReadNumber(t).value, ReadNumber(t).rest + more)
  {
    hide DigitRun, Value;
    var negative := t != "" && t[0] == '-';
    var u := if negative then t[1..] else t;
    assert t != "" && (t + more)[0] == t[0];
    assert (if negative then (t + more)[1..] else t + more) == u + more;
    RunThen(u, more);
    var n := DigitRun(u);
    assert (u + more)[..n] == u[..n] && (u + more)[n..] == u[n..] + more;
  }

  /** The value ends where it ends, whatever follows: it is no number, or the
      number is followed by something. */
  predicate Ended(p: Parsed<Json>) {
    p.Got? && (p.value.Num? ==> p.rest != "")
  }

  function More<T>(p: Parsed<T>, more: string): Parsed<T>
    requires p.Got?
  {
    Got(p.value, p.rest + more)
  }

  lemma {:induction false} ReadThen(text: string, more: string)
    requires Ended(Read(text))
    ensures Read(text + more) == More(Read(text), more)
    decreases |text|, 0
  {
    var t := SkipBlanks(text);
    assert t != "" by { EmptyRefused(text); }
    BlanksThen(text, more);
    assert SkipBlanks(t) == t && SkipBlanks(t + more) == t + more by { HeadsNotBlank(text); }
    if t[0] == '[' || t[0] == '{' {
      BracketThen(text, t, more);
    } else {
      LeafThen(text, t, more);
    }
  }

  lemma EmptyRefused(text: string)
    requires Read(text).Got?
    ensures SkipBlanks(text) != ""
  {
    hide ReadItems, ReadMembers, ReadChars, ReadNumber;
  }

  lemma {:induction false} HeadsNotBlank(text: string)
    ensures var t := SkipBlanks(text); t == "" || !IsBlank(t[0])
  {
    if text != "" && IsBlank(text[0]) {
      HeadsNotBlank(text[1..]);
    }
  }

  lemma LeafThen(text: string, t: string, more: string)
    requires t == SkipBlanks(text) && t != "" && t[0] != '[' && t[0] != '{' && SkipBlanks(text + more) == t + more
    requires Ended(Read(text))
    ensures Read(text + more) == More(Read(text), more)
  {
    assert ReadNumber(t).Got? ==> ReadNumber(t).value.Num?;
    hide ReadItems, ReadMembers, ReadChars, ReadNumber, SkipBlanks;
    assert (t + more)[0] == t[0] && (t + more)[1..] == t[1..] + more;
    if t[0] == '"' {
      CharsThen(t[1..], more);
    } else if "null" <= t || "true" <= t || "false" <= t {
      WordThen(t, more);
    } else {
      assert Read(text) == ReadNumber(t);
      NumberHead(t, more);
      NumberThen(t, more);
    }
  }

  lemma NumberHead(t: string, more: string)
    requires ReadNumber(t).Got?
    ensures t != "" && (t[0] == '-' || IsDigit(t[0]))
    ensures !("null" <= t + more) && !("true" <= t + more) && !("false" <= t + more)
  {
    assert "null"[0] == 'n' && "true"[0] == 't' && "false"[0] == 'f';
    assert t != "" ==> (t + more)[0] == t[0];
  }

  lemma WordThen(t: string, more: string)
    requires "null" <= t || "true" <= t || "false" <= t
    ensures "null" <= t ==> "null" <= t + more && (t + more)[4..] == t[4..] + more
    ensures "true" <= t ==> "true" <= t + more && (t + more)[4..] == t[4..] + more && !("null" <= t + more)
    ensures "false" <= t ==> "false" <= t + more && (t + more)[5..] == t[5..] + more
    ensures "false" <= t ==> !("null" <= t + more) && !("true" <= t + more)
  {
    assert "null"[0] == 'n' && "true"[0] == 't' && "false"[0] == 'f';
    assert (t + more)[0] == t[0];
  }

  lemma {:induction false} BracketThen(text: string, t: string, more: string)
    requires t == SkipBlanks(text) && t != "" && (t[0] == '[' || t[0] == '{') && SkipBlanks(text + more) == t + more
    requires |t| <= |text| && Read(text).Got?
    ensures Read(text + more) == More(Read(text), more)
    decreases |text|, 0, 0
  {
    hide ReadItems, ReadMembers, ReadChars, ReadNumber;
    var u := SkipBlanks(t[1..]);
    assert (t + more)[0] == t[0] && (t + more)[1..] == t[1..] + more;
    assert u != "" by { OpenRefused(text, t); }
    BlanksThen(t[1..], more);
    assert (u + more)[0] == u[0] && (u + more)[1..] == u[1..] + more;
    if t[0] == '[' && u[0] != ']' {
      ItemsThen(u, [], more);
    } else if t[0] == '{' && u[0] != '}' {
      MembersThen(u, map[], more);
    }
  }

  lemma OpenRefused(text: string, t: string)
    requires t == SkipBlanks(text) && t != "" && (t[0] == '[' || t[0] == '{') && Read(text).Got?
    ensures SkipBlanks(t[1..]) != ""
  {
    assert ReadItems("", []) == Fail && ReadMembers("", map[]) == Fail;
    hide ReadChars, ReadNumber;
    assert SkipBlanks("") == "";
  }

  lemma {:induction false} ItemsThen(t: string, done: seq<Json>, more: string)
    requires ReadItems(t, done).Got?
    ensures ReadItems(t + more, done) == More(ReadItems(t, done), more)
    decreases |t|, 1
  {
    hide Read;
    var r, v := Read(t).rest, Read(t).value;
    var u := SkipBlanks(r);
    assert u != "";
    assert r != "" by { assert SkipBlanks("") == ""; }
    ReadThen(t, more);
    BlanksThen(r, more);
    assert (u + more)[0] == u[0] && (u + more)[1..] == u[1..] + more;
    if u[0] == ',' {
      ItemsThen(u[1..], done + [v], more);
    }
  }

  lemma KeyThen(text: string, more: string)
    requires ReadKey(text).Got?
    ensures ReadKey(text + more) == More(ReadKey(text), more)
  {
    hide ReadChars;
    var t := SkipBlanks(text);
    BlanksThen(text, more);
    assert (t + more)[0] == t[0] && (t + more)[1..] == t[1..] + more;
    CharsThen(t[1..], more);
    var r := ReadChars(t[1..]).rest;
    var u := SkipBlanks(r);
    BlanksThen(r, more);
    assert (u + more)[0] == u[0] && (u + more)[1..] == u[1..] + more;
  }

  lemma {:induction false} MembersThen(t: string, done: map<string, Json>, more: string)
    requires ReadMembers(t, done).Got?
    ensures ReadMembers(t + more, done) == More(ReadMembers(t, done), more)
    decreases |t|, 1
  {
    hide Read, ReadKey;
    KeyThen(t, more);
    var key, r := ReadKey(t).value, ReadKey(t).rest;
    var v, r' := Read(r).value, Read(r).rest;
    var u := SkipBlanks(r');
    assert u != "";
    assert r' != "" by { assert SkipBlanks("") == ""; }
    ReadThen(r, more);
    BlanksThen(r', more);
    assert (u + more)[0] == u[0] && (u + more)[1..] == u[1..] + more;
    if u[0] == ',' {
      MembersThen(u[1..], done[key := v], more);
    }
  }

  // ---- Records cut short, records written over ------------------------------------------------

  /** No proper beginning of a printed list or object is a document. */
  lemma CutDocumentRefused(v: Json, st: Style, n: nat)
    requires (v.Arr? || v.Obj?) && n < |Put(v, st, "")|
    ensures ReadDocument(Put(v, st, "")[..n]) == None
  {
    hide Put, Read;
    var text := Put(v, st, "");
    var cut, more := text[..n], text[n..];
    assert cut + more == text;
    ReadPut(v, st, "");
    if ReadDocument(cut).Some? {
      BracketsOnly(v, st, cut);
      ReadThen(cut, more);
    }
  }

  /** What begins like a list or an object reads as no number. */
  lemma BracketsOnly(v: Json, st: Style, cut: string)
    requires (v.Arr? || v.Obj?) && cut <= Put(v, st, "") && Read(cut).Got?
    ensures !Read(cut).value.Num?
  {
    hide ReadChars, ReadNumber, PutItems, PutMembers, SortedKeys;
    assert cut != "" by { EmptyRefused(cut); }
    assert cut[0] == Put(v, st, "")[0];
    assert SkipBlanks(cut) == cut;
    hide Put;
    ItemsNoNumber(SkipBlanks(cut[1..]), []);
    MembersNoNumber(SkipBlanks(cut[1..]), map[]);
  }

  lemma {:induction false} ItemsNoNumber(t: string, done: seq<Json>)
    ensures ReadItems(t, done).Got? ==> ReadItems(t, done).value.Arr?
    decreases |t|
  {
    hide Read;
    if Read(t).Got? {
      var u := SkipBlanks(Read(t).rest);
      if u != "" && u[0] == ',' {
        ItemsNoNumber(u[1..], done + [Read(t).value]);
      }
    }
  }

  lemma {:induction false} MembersNoNumber(t: string, done: map<string, Json>)
    ensures ReadMembers(t, done).Got? ==> ReadMembers(t, done).value.Obj?
    decreases |t|
  {
    hide Read, ReadKey;
    if ReadKey(t).Got? && Read(ReadKey(t).rest).Got? {
      var u := SkipBlanks(Read(ReadKey(t).rest).rest);
      if u != "" && u[0] == ',' {
        MembersNoNumber(u[1..], done[ReadKey(t).value := Read(ReadKey(t).rest).value]);
      }
    }
  }

  /** A record that was not written to its end is never taken for another one: no
      beginning of its text loads, but for the one that lacks only the last
      newline, which loads as the record itself. */
  lemma CutRecordRefused(m: Manifest, n: nat)
    requires n < |PrettyText(m)|
    ensures LoadText(PrettyText(m)[..n]) == if n == |PrettyText(m)| - 1 then Some(m) else None
  {
    hide Put, ReadDocument, ParseManifest, ManifestJson;
    var v := ManifestJson(m);
    var text := Put(v, Pretty(0), "");
    assert PrettyText(m)[..n] == text[..n];
    if n == |text| {
      assert text[..n] == text;
      assert Blank("");
      ReadPutDocument(v, Pretty(0), "");
      ManifestRoundTrip(m);
    } else {
      CutDocumentRefused(v, Pretty(0), n);
    }
  }

  /** And what is appended to a record has to be blank. */
  lemma AppendedTextRefusedIff(m: Manifest, more: string)
    ensures LoadText(PrettyText(m) + more) == if SkipBlanks(more) == "" then Some(m) else None
  {
    hide Put, Read, ParseManifest, ManifestJson;
    var v := ManifestJson(m);
    PutAppends(v, Pretty(0), "", "\n" + more);
    assert "" + ("\n" + more) == "\n" + more;
    assert PrettyText(m) + more == Put(v, Pretty(0), "") + ("\n" + more);
    ReadPut(v, Pretty(0), "\n" + more);
    assert ("\n" + more)[1..] == more;
    ManifestRoundTrip(m);
  }

  /** Of a key that is given twice, the last value counts. */
  lemma RepeatedKey(key: string, v: Json, w: Json)
    ensures ReadDocument("{" + PutString(key, false, ":" + Put(v, Compact(false),
                         "," + PutString(key, false, ":" + Put(w, Compact(false), "}")))))
         == Some(Obj(map[key := w]))
  {
    hide Put, PutString, Read, ReadKey, ReadMembers, SkipBlanks;
    var st := Compact(false);
    var last := Put(w, st, "}");
    var second := PutString(key, false, ":" + last);
    var one := Put(v, st, "," + second);
    var first := PutString(key, false, ":" + one);
    PlainStart(key, ":" + one, second);
    ReadBracket("", first);
    assert "" + first == first && "{" + ("" + first) == "{" + first;
    ReadPutKey(key, st, one, "");
    ReadPutKey(key, st, last, "");
    assert "" + second == second;
    ReadPut(v, st, "," + second);
    ReadPut(w, st, "}");
    ReadMembersStep(first, map[], key, one, v, "," + second, second);
    var none: map<string, Json> := map[];
    ReadMembersStep(second, none[key := v], key, last, w, "}", "");
    assert none[key := v][key := w] == map[key := w];
  }

  lemma PlainStart(key: string, k: string, t: string)
    ensures PutString(key, false, k) != "" && PutString(key, false, k)[0] == '"'
    ensures SkipBlanks("," + t) == "," + t && SkipBlanks("}") == "}" + "" && SkipBlanks("") == ""
  {
    hide PutChars;
  }
}
