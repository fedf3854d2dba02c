/** Two line parsers of the state reader, .repo files and `rpm -V` output, each
    against a printer that it undoes. */
module LineParsers {
  import opened Strings

  // ---- Repository files ------------------------------------------------------------------

  type Int64 = n: int | -0x8000_0000_0000_0000 <= n < 0x8000_0000_0000_0000

  datatype Repo = Repo(
    alias: string, name: string, url: string, kind: string,
    enabled: bool, gpgcheck: bool, autorefresh: bool, priority: Int64)

  function FreshRepo(alias: string): Repo {
    Repo(alias, "", "", "rpm-md", false, false, false, 0)
  }

  function ParseBool(v: string): bool {
    Trim(v) in {"1", "true", "yes", "on"}
  }

  /** A whole decimal number with an optional sign, or 0. */
  function ParseInt(s: string): Int64 {
    var signed := s != "" && (s[0] == '-' || s[0] == '+');
    var u := if signed then s[1..] else s;
    if u == "" || DigitRun(u) < |u| then 0
    else
      var m: int := Value(u[..DigitRun(u)]);
      var n: int := if signed && s[0] == '-' then -m else m;
      if -0x8000_0000_0000_0000 <= n < 0x8000_0000_0000_0000 then n else 0
  }

  lemma IntReadsBack(n: Int64)
    ensures ParseInt(Decimal(n)) == n
  {
    var m: int := if n < 0 then -(n as int) else n;
    var ds := Digits(m);
    DigitRunStops(ds, "");
    assert ds + "" == ds && ds[..|ds|] == ds;
    ValueOfDigits(m);
    if n < 0 {
      assert Decimal(n)[1..] == ds;
    } else {
      assert IsDigit(ds[0]);
    }
  }

  /** The line loop's state: finished records and the one under construction. */
  datatype RepoState = RepoState(done: seq<Repo>, cur: Option<Repo>)

  predicate IsSection(line: string) {
    line != "" && line[0] == '[' && line[|line| - 1] == ']' && |line| > 1
  }

  predicate IsComment(line: string) {
    line == "" || line[0] == '#' || line[0] == ';'
  }

  function SetField(r: Repo, key: string, val: string): Repo {
    if key == "name" then r.(name := val)
    else if key == "baseurl" then r.(url := val)
    else if key == "type" then r.(kind := val)
    else if key == "enabled" then r.(enabled := ParseBool(val))
    else if key == "gpgcheck" then r.(gpgcheck := ParseBool(val))
    else if key == "autorefresh" then r.(autorefresh := ParseBool(val))
    else if key == "priority" then r.(priority := ParseInt(val))
    else r
  }

  function Finished(st: RepoState): seq<Repo> {
    if st.cur.Some? then st.done + [st.cur.value] else st.done
  }

  function RepoLine(st: RepoState, raw: string): RepoState {
    var line := Trim(raw);
    if IsComment(line) then st
    else if IsSection(line) then RepoState(Finished(st), Some(FreshRepo(line[1..|line| - 1])))
    else
      var eq := Until(line, '=');
      if eq == |line| || st.cur.None? then st
      else st.(cur := Some(SetField(st.cur.value, Trim(line[..eq]), Trim(line[eq + 1..]))))
  }

  function RepoLines(st: RepoState, lines: seq<string>): RepoState {
    if lines == [] then st else RepoLine(RepoLines(st, lines[..|lines| - 1]), lines[|lines| - 1])
  }

  function Repos(lines: seq<string>): seq<Repo> {
    Finished(RepoLines(RepoState([], None), lines))
  }

  method ParseRepoFile(text: string) returns (repos: seq<Repo>)
    ensures repos == Repos(Lines(text))
  {
    hide Trim, SetField;
    var lines := Lines(text);
    repos := [];
    var cur: Option<Repo> := None;
    var haveSection := false;
    for i := 0 to |lines|
      invariant haveSection == cur.Some?
      invariant RepoLines(RepoState([], None), lines[..i]) == RepoState(repos, cur)
    {
      NextLine(RepoState([], None), lines, i);
      var line := Trim(lines[i]);
      if line == "" || line[0] == '#' || line[0] == ';' {
        continue;
      }
      if line[0] == '[' && line[|line| - 1] == ']' && |line| > 1 {
        if haveSection {
          repos := repos + [cur.value];
        }
        cur := Some(FreshRepo(line[1..|line| - 1]));
        haveSection := true;
        continue;
      }
      var eq := Until(line, '=');
      if eq < |line| {
        var key, val := Trim(line[..eq]), Trim(line[eq + 1..]);
        if cur.Some? {
          cur := Some(SetField(cur.value, key, val));
        }
      }
    }
    assert lines[..|lines|] == lines;
    if cur.Some? {
      repos := repos + [cur.value];
    }
  }

  lemma NextLine(st: RepoState, lines: seq<string>, i: nat)
    requires i < |lines|
    ensures RepoLines(st, lines[..i + 1]) == RepoLine(RepoLines(st, lines[..i]), lines[i])
  {
    assert lines[..i + 1][..i] == lines[..i];
  }

  // ---- The printer -----------------------------------------------------------------------

  function PrintBool(b: bool): string { if b then "1" else "0" }

  function PrintRepo(r: Repo): seq<string> {
    ["[" + r.alias + "]", PrintField("name", r.name), PrintField("baseurl", r.url), PrintField("type", r.kind),
     PrintField("enabled", PrintBool(r.enabled)), PrintField("gpgcheck", PrintBool(r.gpgcheck)),
     PrintField("autorefresh", PrintBool(r.autorefresh)), PrintField("priority", Decimal(r.priority))]
  }

  function PrintField(key: string, val: string): string { key + "=" + val }

  function PrintRepos(rs: seq<Repo>): seq<string> {
    if rs == [] then [] else PrintRepo(rs[0]) + PrintRepos(rs[1..])
  }

  predicate Printable(r: Repo) {
    Trimmed(r.name) && Trimmed(r.url) && Trimmed(r.kind)
  }

  predicate PlainKey(key: string) {
    key != "" && Trimmed(key) && '=' !in key && key[0] != '#' && key[0] != ';' && key[0] != '['
  }

  /** A `key=value` line with a trimmed value sets exactly that field. */
  lemma FieldLine(st: RepoState, key: string, val: string)
    requires st.cur.Some? && PlainKey(key) && Trimmed(val)
    ensures RepoLine(st, PrintField(key, val)) == st.(cur := Some(SetField(st.cur.value, key, val)))
  {
    hide SetField;
    var line := key + "=" + val;
    TrimKeeps(line);
    assert line == key + ("=" + val);
    UntilStops(key, '=', "=" + val);
    assert line[..|key|] == key && line[|key| + 1..] == val;
    TrimKeeps(key);
    TrimKeeps(val);
  }

  lemma SectionLine(st: RepoState, alias: string)
    ensures RepoLine(st, "[" + alias + "]") == RepoState(Finished(st), Some(FreshRepo(alias)))
  {
    var line := "[" + alias + "]";
    TrimKeeps(line);
    assert line[1..|line| - 1] == alias;
  }

  lemma KeysArePlain()
    ensures PlainKey("name") && PlainKey("baseurl") && PlainKey("type") && PlainKey("enabled")
    ensures PlainKey("gpgcheck") && PlainKey("autorefresh") && PlainKey("priority")
  {
  }

  lemma BoolReadsBack(b: bool)
    ensures ParseBool(PrintBool(b)) == b && Trimmed(PrintBool(b))
  {
    TrimKeeps(PrintBool(b));
    assert PrintBool(b)[0] == if b then '1' else '0';
  }

  lemma DecimalTrimmed(n: int)
    ensures Trimmed(Decimal(n))
  {
    var s := Decimal(n);
    assert (IsDigit(s[0]) || s[0] == '-') && IsDigit(s[|s| - 1]);
  }

  lemma FieldsReadBack(r: Repo)
    requires Printable(r)
    ensures var a := SetField(SetField(SetField(FreshRepo(r.alias), "name", r.name), "baseurl", r.url), "type", r.kind);
            var b := SetField(SetField(a, "enabled", PrintBool(r.enabled)), "gpgcheck", PrintBool(r.gpgcheck));
            SetField(SetField(b, "autorefresh", PrintBool(r.autorefresh)), "priority", Decimal(r.priority)) == r
  {
    hide ParseBool, ParseInt, PrintBool, Decimal;
    BoolReadsBack(r.enabled);
    BoolReadsBack(r.gpgcheck);
    BoolReadsBack(r.autorefresh);
    IntReadsBack(r.priority);
  }

  lemma RepoReadsBack(st: RepoState, r: Repo)
    requires Printable(r)
    ensures RepoLines(st, PrintRepo(r)) == RepoState(Finished(st), Some(r))
  {
    hide RepoLines, RepoLine, SetField, Trimmed, Decimal, PrintBool, PrintField;
    var ls := PrintRepo(r);
    KeysArePlain();
    BoolReadsBack(r.enabled);
    BoolReadsBack(r.gpgcheck);
    BoolReadsBack(r.autorefresh);
    DecimalTrimmed(r.priority);
    FieldsReadBack(r);
    NoLines(st);
    assert ls[..0] == [] && ls[..8] == ls;
    NextLine(st, ls, 0);
    SectionLine(st, r.alias);
    SetsField(st, ls, 1, "name", r.name);
    SetsField(st, ls, 2, "baseurl", r.url);
    SetsField(st, ls, 3, "type", r.kind);
    SetsField(st, ls, 4, "enabled", PrintBool(r.enabled));
    SetsField(st, ls, 5, "gpgcheck", PrintBool(r.gpgcheck));
    SetsField(st, ls, 6, "autorefresh", PrintBool(r.autorefresh));
    SetsField(st, ls, 7, "priority", Decimal(r.priority));
  }

  lemma NoLines(st: RepoState)
    ensures RepoLines(st, []) == st
  {
  }

  lemma SetsField(st: RepoState, ls: seq<string>, i: nat, key: string, val: string)
    requires i < |ls| && ls[i] == PrintField(key, val) && PlainKey(key) && Trimmed(val)
    requires RepoLines(st, ls[..i]).cur.Some?
    ensures var before := RepoLines(st, ls[..i]);
            RepoLines(st, ls[..i + 1]) == before.(cur := Some(SetField(before.cur.value, key, val)))
  {
    hide RepoLines, RepoLine, SetField, PlainKey, Trimmed, PrintField;
    NextLine(st, ls, i);
    FieldLine(RepoLines(st, ls[..i]), key, val);
  }

  lemma {:induction false} LinesJoin(st: RepoState, a: seq<string>, b: seq<string>)
    ensures RepoLines(st, a + b) == RepoLines(RepoLines(st, a), b)
    decreases |b|
  {
    hide RepoLine;
    if b == [] {
      assert a + b == a;
    } else {
      var n := |b| - 1;
      assert (a + b)[..|a + b| - 1] == a + b[..n];
      LinesJoin(st, a, b[..n]);
    }
  }

  lemma {:induction false} ReposReadBackFrom(st: RepoState, rs: seq<Repo>)
    requires forall r <- rs :: Printable(r)
    ensures Finished(RepoLines(st, PrintRepos(rs))) == Finished(st) + rs
    decreases |rs|
  {
    hide PrintRepo, Printable, RepoLine, RepoLines;
    if rs == [] {
      NoLines(st);
    } else {
      RepoReadsBack(st, rs[0]);
      LinesJoin(st, PrintRepo(rs[0]), PrintRepos(rs[1..]));
      ReposReadBackFrom(RepoState(Finished(st), Some(rs[0])), rs[1..]);
      assert rs == [rs[0]] + rs[1..];
    }
  }

  /** Printing any list of records with trimmed values and parsing the text
      gives the list back, one record per section. */
  lemma ReposReadBack(rs: seq<Repo>)
    requires forall r <- rs :: Printable(r)
    requires forall l <- PrintRepos(rs) :: OneLine(l)
    ensures Repos(Lines(Unlines(PrintRepos(rs)))) == rs
  {
    hide PrintRepos, Printable, Lines, Unlines, RepoLines;
    ReposReadBackFrom(RepoState([], None), rs);
    LinesOfUnlines(PrintRepos(rs));
    assert [] + rs == rs;
  }

  // ---- What the lines of a section say ----------------------------------------------------

  /** Padding is allowed at both ends of a line and around its first `=`. */
  lemma PaddedField(st: RepoState, a: string, key: string, b: string, c: string, val: string, d: string)
    requires st.cur.Some? && PlainKey(key) && Trimmed(val) && Padding(a) && Padding(b) && Padding(c) && Padding(d)
    ensures RepoLine(st, a + key + b + "=" + c + val + d) == st.(cur := Some(SetField(st.cur.value, key, val)))
  {
    assert Padding(c + d);
    hide SetField, IsSpace, Trim, Trimmed, Padding, RepoLine, Until;
    var tail, last := if val == "" then "" else c + val, if val == "" then c + d else d;
    var line := key + (b + ("=" + tail));
    assert a + key + b + "=" + c + val + d == a + line + last;
    assert Trimmed(line) by { EndsOfField(key, b, tail, val); }
    TrimPadded(a, line, last);
    assert line[0] == key[0];
    SplitField(key, b, tail);
    PaddedValue(c, val);
    AssignmentLine(st, a + key + b + "=" + c + val + d, line, key, val);
  }

  lemma AssignmentLine(st: RepoState, raw: string, line: string, key: string, val: string)
    requires st.cur.Some? && Trim(raw) == line && line != "" && line[0] != '#' && line[0] != ';' && line[0] != '['
    requires var n := Until(line, '='); n < |line| && Trim(line[..n]) == key && Trim(line[n + 1..]) == val
    ensures RepoLine(st, raw) == st.(cur := Some(SetField(st.cur.value, key, val)))
  {
    hide SetField, Trim, Until;
  }

  lemma SplitField(key: string, b: string, tail: string)
    requires '=' !in key && Trimmed(key) && Padding(b)
    ensures var line := key + (b + ("=" + tail));
            Until(line, '=') < |line| && Trim(line[..Until(line, '=')]) == key && line[Until(line, '=') + 1..] == tail
  {
    hide Trim, Trimmed;
    var line := key + (b + ("=" + tail));
    assert line == (key + b) + ("=" + tail);
    UntilStops(key + b, '=', "=" + tail);
    assert line[..|key + b|] == key + b && line[|key + b| + 1..] == tail;
    TrimPadded("", key, b);
    assert "" + key + b == key + b;
  }

  lemma PaddedValue(c: string, val: string)
    requires Padding(c) && Trimmed(val)
    ensures Trim(if val == "" then "" else c + val) == val
  {
    hide Trim;
    TrimPadded(c, val, "");
    TrimPadded("", val, "");
    assert c + val + "" == c + val && "" + val + "" == val;
  }

  lemma EndsOfField(key: string, b: string, tail: string, val: string)
    requires key != "" && Trimmed(key) && Trimmed(val)
    requires if val == "" then tail == "" else |tail| >= |val| && tail[|tail| - 1] == val[|val| - 1]
    ensures Trimmed(key + (b + ("=" + tail)))
  {
    var line := key + (b + ("=" + tail));
    assert line[0] == key[0];
    assert line[|line| - 1] == if val == "" then '=' else val[|val| - 1];
  }

  /** Blank lines, comments, lines without `=`, headers that are not closed, and
      fields in front of the first section say nothing. */
  lemma IgnoredLine(st: RepoState, raw: string)
    requires var t := Trim(raw);
             || t == "" || t[0] == '#' || t[0] == ';'
             || (t[0] != '[' && ('=' !in t || st.cur.None?))
             || (t[0] == '[' && t[|t| - 1] != ']')
    ensures RepoLine(st, raw) == st
  {
    hide Trim;
    var t := Trim(raw);
    if t != "" && t[0] == '[' && t[|t| - 1] != ']' && st.cur.Some? {
      hide SetField;
      var n := Until(t, '=');
      if n < |t| {
        TrimHead(t[..n]);
        BracketKey(st.cur.value, Trim(t[..n]), Trim(t[n + 1..]));
      }
    }
  }

  lemma {:induction false} TrimHead(s: string)
    requires s != "" && !IsSpace(s[0])
    ensures Trim(s) != "" && Trim(s)[0] == s[0]
  {
    hide IsSpace;
    assert TrimStart(s) == s;
    TrimEndHead(s);
  }

  lemma {:induction false} TrimEndHead(s: string)
    requires s != "" && !IsSpace(s[0])
    ensures TrimEnd(s) != "" && TrimEnd(s)[0] == s[0]
  {
    hide IsSpace;
    if IsSpace(s[|s| - 1]) {
      TrimEndHead(s[..|s| - 1]);
    }
  }

  lemma BracketKey(r: Repo, key: string, val: string)
    requires key != "" && key[0] == '['
    ensures SetField(r, key, val) == r
  {
    hide ParseBool, ParseInt;
  }

  function PrintFields(fields: seq<(string, string)>): seq<string> {
    if fields == [] then []
    else PrintFields(fields[..|fields| - 1]) + [PrintField(fields[|fields| - 1].0, fields[|fields| - 1].1)]
  }

  /** The last value that a key is given, or what holds without. */
  function LastOf(fields: seq<(string, string)>, key: string, default: string): string {
    if fields == [] then default
    else
      var n := |fields| - 1;
      if fields[n].0 == key then fields[n].1 else LastOf(fields[..n], key, default)
  }

  predicate IsOn(val: string) {
    val == "1" || val == "true" || val == "yes" || val == "on"
  }

  /** The record of a section, whatever fields it gives, in whatever order and
      however often. */
  ghost predicate Says(r: Repo, alias: string, fields: seq<(string, string)>) {
    && r.alias == alias
    && r.name == LastOf(fields, "name", "")
    && r.url == LastOf(fields, "baseurl", "")
    && r.kind == LastOf(fields, "type", "rpm-md")
    && (r.enabled <==> IsOn(LastOf(fields, "enabled", "0")))
    && (r.gpgcheck <==> IsOn(LastOf(fields, "gpgcheck", "0")))
    && (r.autorefresh <==> IsOn(LastOf(fields, "autorefresh", "0")))
    && r.priority == ParseInt(LastOf(fields, "priority", "0"))
  }

  lemma SetSays(r: Repo, alias: string, fields: seq<(string, string)>, key: string, val: string)
    requires Says(r, alias, fields) && Trimmed(val)
    ensures Says(SetField(r, key, val), alias, fields + [(key, val)])
  {
    hide ParseInt, LastOf, ParseBool, IsOn, SetField;
    BoolIsOn(val);
    LastOfMore(fields, key, val);
    SetsOnly(r, key, val);
  }

  lemma SetsOnly(r: Repo, key: string, val: string)
    ensures var s := SetField(r, key, val);
            && s.alias == r.alias
            && s.name == (if key == "name" then val else r.name)
            && s.url == (if key == "baseurl" then val else r.url)
            && s.kind == (if key == "type" then val else r.kind)
            && s.enabled == (if key == "enabled" then ParseBool(val) else r.enabled)
            && s.gpgcheck == (if key == "gpgcheck" then ParseBool(val) else r.gpgcheck)
            && s.autorefresh == (if key == "autorefresh" then ParseBool(val) else r.autorefresh)
            && s.priority == (if key == "priority" then ParseInt(val) else r.priority)
  {
    hide ParseInt, ParseBool;
    assert "name"[0] != "type"[0] && "baseurl"[0] != "enabled"[0] && "gpgcheck"[0] != "priority"[0];
  }

  lemma BoolIsOn(val: string)
    requires Trimmed(val)
    ensures ParseBool(val) == IsOn(val)
  {
    hide Trim;
    TrimKeeps(val);
  }

  lemma LastOfMore(fields: seq<(string, string)>, key: string, val: string)
    ensures forall k, d :: LastOf(fields + [(key, val)], k, d) == if k == key then val else LastOf(fields, k, d)
  {
    var more := fields + [(key, val)];
    assert more[..|more| - 1] == fields;
  }

  lemma FreshSays(alias: string)
    ensures Says(FreshRepo(alias), alias, [])
  {
    assert "0"[0] == '0' && "1"[0] == '1';
    var zero := "0";
    assert zero[..1] == "0" && DigitRun(zero) == 1 && Value("0") == 0;
  }

  /** A section header and fields make the record that says what the last value of
      each key says; keys that are not known say nothing. */
  lemma {:induction false} SectionSays(st: RepoState, alias: string, fields: seq<(string, string)>)
    requires forall f <- fields :: PlainKey(f.0) && Trimmed(f.1)
    ensures var r := RepoLines(st, ["[" + alias + "]"] + PrintFields(fields));
            r.done == Finished(st) && r.cur.Some? && Says(r.cur.value, alias, fields)
    decreases |fields|
  {
    hide RepoLine, Says, PlainKey, Trimmed, PrintField, SetField;
    var ls := ["[" + alias + "]"] + PrintFields(fields);
    if fields == [] {
      assert ls == ["[" + alias + "]"] && ls[..0] == [];
      SectionLine(st, alias);
      FreshSays(alias);
    } else {
      var n := |fields| - 1;
      assert fields == fields[..n] + [fields[n]] && fields[n] in fields;
      SectionSays(st, alias, fields[..n]);
      var before := RepoLines(st, ["[" + alias + "]"] + PrintFields(fields[..n]));
      assert ls[..|ls| - 1] == ["[" + alias + "]"] + PrintFields(fields[..n]);
      FieldLine(before, fields[n].0, fields[n].1);
      SetSays(before.cur.value, alias, fields[..n], fields[n].0, fields[n].1);
    }
  }

  /** A priority is a decimal number with an optional sign... */
  lemma IntReads(sign: string, digits: string)
    requires sign in {"", "+", "-"} && digits != "" && AllDigits(digits)
    ensures var m: int := Value(digits);
            var n := if sign == "-" then -m else m;
            ParseInt(sign + digits) == if -0x8000_0000_0000_0000 <= n < 0x8000_0000_0000_0000 then n else 0
  {
    var s := sign + digits;
    DigitRunStops(digits, "");
    assert digits + "" == digits && digits[..|digits|] == digits;
    if sign == "" {
      assert s == digits && IsDigit(s[0]);
    } else {
      assert s[1..] == digits;
    }
  }

  /** ...and anything else counts as 0. */
  lemma IntRefuses(s: string)
    requires !(s != "" && AllDigits(s))
    requires !(|s| > 1 && (s[0] == '+' || s[0] == '-') && AllDigits(s[1..]))
    ensures ParseInt(s) == 0
  {
  }

  function Sections(lines: seq<string>): nat {
    if lines == [] then 0
    else
      var line := Trim(lines[|lines| - 1]);
      Sections(lines[..|lines| - 1]) + if !IsComment(line) && IsSection(line) then 1 else 0
  }

  lemma {:induction false} OnePerSectionFrom(st: RepoState, lines: seq<string>)
    ensures |Finished(RepoLines(st, lines))| == |Finished(st)| + Sections(lines)
    decreases |lines|
  {
    hide Trim, SetField;
    if lines != [] {
      OnePerSectionFrom(st, lines[..|lines| - 1]);
    }
  }

  /** Whatever the text, there are as many records as section lines. */
  lemma OnePerSection(lines: seq<string>)
    ensures |Repos(lines)| == Sections(lines)
  {
    OnePerSectionFrom(RepoState([], None), lines);
  }

  // ---- rpm -V output -----------------------------------------------------------------------

  datatype VerifyLine = VerifyLine(flags: string, typ: string, path: string)

  /** How far the text goes before the first white space. */
  function UntilSpace(s: string): (n: nat)
    ensures n <= |s|
  {
    if s == "" || IsSpace(s[0]) then 0 else 1 + UntilSpace(s[1..])
  }

  /** The two parts around the first white space. */
  function TypeAndPath(rest: string): Option<(string, string)> {
    var n := UntilSpace(rest);
    if n == |rest| then None else Some((rest[..n], Trim(rest[n + 1..])))
  }

  const MISSING: string := "missing"

  predicate SaysMissing(flags: string) {
    MISSING <= flags || (flags != "" && SaysMissing(flags[1..]))
  }

  /** The bytes a character takes in UTF-8. */
  function Width(c: char): nat {
    if c < '\U{0080}' then 1 else if c < '\U{0800}' then 2 else if c < '\U{10000}' then 3 else 4
  }

  function Bytes(s: string): nat {
    if s == "" then 0 else Width(s[0]) + Bytes(s[1..])
  }

  /** How many code points UTF-8 reaches with this many bytes (section 3 of RFC
      3629). */
  function Reach(bytes: nat): int {
    if bytes == 0 then 0 else if bytes == 1 then 0x80 else if bytes == 2 then 0x800
    else if bytes == 3 then 0x1_0000 else 0x11_0000
  }

  /** A character takes as few bytes as reach it. */
  lemma WidthIsLeast(c: char)
    ensures 1 <= Width(c) <= 4 && Reach(Width(c) - 1) <= c as int < Reach(Width(c))
  {
  }

  /** How many characters make up the first `n` bytes, if those end at a
      character's end. */
  function CharsIn(s: string, n: nat): (k: Option<nat>)
    ensures k.Some? ==> k.value <= |s|
  {
    if n == 0 then Some(0)
    else if s == "" || n < Width(s[0]) then None
    else match CharsIn(s[1..], n - Width(s[0])) case None => None case Some(k) => Some(k + 1)
  }

  lemma {:induction false} BytesJoin(a: string, b: string)
    ensures Bytes(a + b) == Bytes(a) + Bytes(b)
  {
    if a == "" {
      assert a + b == b;
    } else {
      assert (a + b)[1..] == a[1..] + b;
      BytesJoin(a[1..], b);
    }
  }

  /** Bytes end at a character's end exactly when they are those of some first
      characters. */
  lemma {:induction false} CharsInIff(s: string, n: nat, k: nat)
    ensures CharsIn(s, n) == Some(k) <==> k <= |s| && Bytes(s[..k]) == n
  {
    if s != "" && 0 < k <= |s| {
      assert s[..k][0] == s[0] && s[..k][1..] == s[1..][..k - 1];
      if n >= Width(s[0]) {
        CharsInIff(s[1..], n - Width(s[0]), k - 1);
      }
    }
    if s != "" && n > 0 && n >= Width(s[0]) && k == 0 {
      CharsInIff(s[1..], n - Width(s[0]), 0);
    }
    if k > |s| && s != "" && n >= Width(s[0]) && n > 0 {
      CharsInIff(s[1..], n - Width(s[0]), k - 1);
    }
  }

  /** Slicing a string inside a character panics. */
  datatype Split = Skip | Panic | Parts(line: VerifyLine)

  function SplitVerifyLine(line: string): Split {
    var trimmed := TrimEnd(line);
    if MISSING <= trimmed then
      match TypeAndPath(TrimStart(trimmed[|MISSING|..]))
      case None => Skip
      case Some((typ, path)) => Parts(VerifyLine(MISSING, typ, path))
    else if Bytes(trimmed) < 11 then Skip
    else
      match CharsIn(trimmed, 9)
      case None => Panic
      case Some(k) =>
        match TypeAndPath(TrimStart(trimmed[k..]))
        case None => Skip
        case Some((typ, path)) => Parts(VerifyLine(trimmed[..k], typ, path))
  }

  function Label(c: char): Option<string> {
    match c
    case 'S' => Some("size")
    case 'M' => Some("mode")
    case '5' => Some("md5")
    case 'D' => Some("device")
    case 'L' => Some("link_path")
    case 'U' => Some("user")
    case 'G' => Some("group")
    case 'T' => Some("time")
    case 'P' => Some("caps")
    case _ => None
  }

  function Labels(flags: string): seq<string> {
    if flags == "" then []
    else Labels(flags[..|flags| - 1])
         + (match Label(flags[|flags| - 1]) case Some(l) => [l] case None => [])
  }

  datatype Change = Change(path: string, changes: seq<string>)

  datatype Reading = Nothing | Panics | Reports(change: Change)

  /** What one line reports: a configuration file with at least one change. */
  function VerifyOne(line: string): Reading {
    match SplitVerifyLine(line)
    case Skip => Nothing
    case Panic => Panics
    case Parts(v) =>
      var changes := Labels(v.flags) + if SaysMissing(v.flags) then ["deleted"] else [];
      if v.typ != "c" || changes == [] then Nothing else Reports(Change(v.path, changes))
  }

  /** All reported changes, or None if the parser panics. */
  function VerifyAll(lines: seq<string>): Option<seq<Change>> {
    if lines == [] then Some([])
    else match (VerifyAll(lines[..|lines| - 1]), VerifyOne(lines[|lines| - 1]))
      case (Some(cs), Nothing) => Some(cs)
      case (Some(cs), Reports(c)) => Some(cs + [c])
      case _ => None
  }

  /** Reports come in the order of their lines. */
  lemma {:induction false} ReportsJoin(a: seq<string>, b: seq<string>)
    ensures VerifyAll(a + b)
         == if VerifyAll(a).Some? && VerifyAll(b).Some? then Some(VerifyAll(a).value + VerifyAll(b).value) else None
    decreases |b|
  {
    hide VerifyOne;
    if b == [] {
      assert a + b == a && VerifyAll(b) == Some([]);
      assert forall cs: seq<Change> :: cs + [] == cs;
    } else {
      var n := |b| - 1;
      assert (a + b)[..|a + b| - 1] == a + b[..n];
      ReportsJoin(a, b[..n]);
      if VerifyAll(a).Some? && VerifyAll(b[..n]).Some? && VerifyOne(b[n]).Reports? {
        var xs, ys, c := VerifyAll(a).value, VerifyAll(b[..n]).value, VerifyOne(b[n]).change;
        assert (xs + ys) + [c] == xs + (ys + [c]);
      }
    }
  }

  /** One line reports at most one change. */
  lemma ReportsOfOne(line: string)
    ensures VerifyAll([line])
         == match VerifyOne(line) case Nothing => Some([]) case Panics => None case Reports(c) => Some([c])
  {
    hide VerifyOne;
    assert [line][..0] == [] && VerifyAll([]) == Some([]);
    assert forall c: Change :: [] + [c] == [c];
  }

  /** The parser panics exactly when some line does. */
  lemma {:induction false} PanicIff(lines: seq<string>)
    ensures VerifyAll(lines).None? <==> exists l <- lines :: VerifyOne(l).Panics?
  {
    hide VerifyOne;
    if lines != [] {
      var n := |lines| - 1;
      PanicIff(lines[..n]);
      assert lines == lines[..n] + [lines[n]];
    }
  }

  /** A line does exactly when it is long enough, reports nothing missing, and
      its ninth byte is inside a character. */
  lemma LinePanicsIff(line: string)
    ensures VerifyOne(line).Panics?
       <==> !(MISSING <= TrimEnd(line)) && Bytes(TrimEnd(line)) >= 11 && CharsIn(TrimEnd(line), 9) == None
  {
    hide TypeAndPath, TrimStart, TrimEnd, Labels;
  }

  /** For instance, eight flags and a letter of two bytes, as in a verdict whose
      flags are one short before a name with an accent. */
  lemma AccentPanics(flags: string, rest: string)
    requires |flags| == 8 && flags[0] != 'm' && forall c <- flags :: Width(c) == 1
    requires |rest| >= 3 && Width(rest[0]) > 1 && Trimmed(flags + rest)
    ensures VerifyAll([flags + rest]) == None
  {
    hide TypeAndPath, TrimStart, TrimEnd, Labels, Bytes, IsSpace;
    var line := flags + rest;
    TrimKeeps(line);
    AsciiPrefix(flags, rest, 9);
    BytesAtLeast(line);
    LinePanicsIff(line);
    assert line[0] == flags[0] && MISSING[0] == 'm';
    assert line in [line];
    PanicIff([line]);
  }

  lemma {:induction false} BytesAtLeast(s: string)
    ensures Bytes(s) >= |s|
  {
    if s != "" {
      BytesAtLeast(s[1..]);
    }
  }

  /** Behind characters of one byte, bytes count like characters. */
  lemma {:induction false} AsciiPrefix(a: string, rest: string, n: nat)
    requires |a| <= n && forall c <- a :: Width(c) == 1
    ensures CharsIn(a + rest, n)
         == match CharsIn(rest, n - |a|) case None => None case Some(k) => Some(|a| + k)
  {
    if a == "" {
      assert a + rest == rest;
    } else {
      assert (a + rest)[1..] == a[1..] + rest;
      AsciiPrefix(a[1..], rest, n - 1);
    }
  }

  method ChangesFromFlags(flags: string) returns (changes: seq<string>)
    ensures changes == Labels(flags)
  {
    changes := [];
    for i := 0 to |flags|
      invariant changes == Labels(flags[..i])
    {
      assert flags[..i + 1][..i] == flags[..i];
      var named := Label(flags[i]);
      if named.None? {
        continue;
      }
      changes := changes + [named.value];
    }
    assert flags[..|flags|] == flags;
  }

  method ParseVerifyOutput(text: string) returns (result: Option<seq<Change>>)
    ensures result == VerifyAll(Lines(text))
  {
    hide SplitVerifyLine, Labels;
    var lines := Lines(text);
    var out: seq<Change> := [];
    for i := 0 to |lines|
      invariant VerifyAll(lines[..i]) == Some(out)
    {
      assert lines[..i + 1][..i] == lines[..i];
      BlankLineSplits(lines[i]);
      if Trim(lines[i]) == "" {
        continue;
      }
      var split := SplitVerifyLine(lines[i]);
      if split.Panic? {
        PanicIff(lines);
        assert lines[i] in lines;
        return None;
      }
      if split.Skip? {
        continue;
      }
      var v := split.line;
      if v.typ != "c" {
        continue;
      }
      var changes := ChangesFromFlags(v.flags);
      assert changes + [] == changes;
      if SaysMissing(v.flags) {
        changes := changes + ["deleted"];
      }
      if changes == [] {
        continue;
      }
      out := out + [Change(v.path, changes)];
    }
    assert lines[..|lines|] == lines;
    return Some(out);
  }

  lemma {:induction false} TrimEndKeepsFirst(s: string)
    requires s != "" && !IsSpace(s[0])
    ensures TrimEnd(s) != ""
  {
    if IsSpace(s[|s| - 1]) {
      TrimEndKeepsFirst(s[..|s| - 1]);
    }
  }

  /** A blank line is no verdict. */
  lemma {:induction false} BlankLineSplits(line: string)
    ensures Trim(line) == "" ==> VerifyOne(line) == Nothing
  {
    if Trim(line) == "" {
      AllSpaces(line);
      SpacesTrimAway(line);
    }
  }

  lemma {:induction false} AllSpaces(line: string)
    requires Trim(line) == ""
    ensures forall c <- line :: IsSpace(c)
  {
    if line != "" {
      if IsSpace(line[0]) {
        AllSpaces(line[1..]);
        assert line == [line[0]] + line[1..];
      } else {
        TrimEndKeepsFirst(line);
      }
    }
  }

  lemma {:induction false} SpacesTrimAway(line: string)
    requires forall c <- line :: IsSpace(c)
    ensures TrimEnd(line) == ""
  {
    if line != "" {
      SpacesTrimAway(line[..|line| - 1]);
    }
  }

  // ---- The verdict printer --------------------------------------------------------------------

  predicate IsFlag(c: char) {
    c in {'.', '?', 'S', 'M', '5', 'D', 'L', 'U', 'G', 'T', 'P'}
  }

  predicate GoodFlags(flags: string) {
    |flags| == 9 && forall i :: 0 <= i < 9 ==> IsFlag(flags[i])
  }

  predicate GoodPath(path: string) {
    path != "" && Trimmed(path)
  }

  /** One word. */
  predicate GoodType(typ: string) {
    typ != "" && forall c <- typ :: !IsSpace(c)
  }

  function PrintLine(flags: string, blanks: string, typ: string, path: string): string {
    flags + (blanks + (typ + (" " + path)))
  }

  function PrintVerdict(flags: string, path: string): string {
    flags + "  c " + path
  }

  function PrintMissing(path: string): string {
    MISSING + "     c " + path
  }

  lemma {:induction false} UntilSpaceStops(word: string, rest: string)
    requires (forall c <- word :: !IsSpace(c)) && (rest == "" || IsSpace(rest[0]))
    ensures UntilSpace(word + rest) == |word|
  {
    if word == "" {
      assert word + rest == rest;
    } else {
      assert (word + rest)[1..] == word[1..] + rest;
      UntilSpaceStops(word[1..], rest);
    }
  }

  lemma {:induction false} TypeAndPathReadBack(blanks: string, typ: string, path: string)
    requires GoodType(typ) && GoodPath(path) && forall c <- blanks :: c == ' '
    ensures TypeAndPath(TrimStart(blanks + (typ + (" " + path)))) == Some((typ, path))
    decreases blanks
  {
    var t := blanks + (typ + (" " + path));
    if blanks == "" {
      assert t == typ + (" " + path) && t[0] == typ[0] && typ[0] in typ;
      UntilSpaceStops(typ, " " + path);
      assert t[..|typ|] == typ && t[|typ| + 1..] == path;
      TrimKeeps(path);
    } else {
      assert t[1..] == blanks[1..] + (typ + (" " + path)) && blanks[0] in blanks;
      assert forall c <- blanks[1..] :: c in blanks;
      TypeAndPathReadBack(blanks[1..], typ, path);
    }
  }

  /** Any nine characters of one byte, a type and a path, however far apart: the
      line is dropped unless it is about a configuration file and its flags say
      something; then it reports the path with the labels of its flags. */
  lemma LineReadsBack(flags: string, blanks: string, typ: string, path: string)
    requires |flags| == 9 && !(MISSING <= flags) && forall c <- flags :: Width(c) == 1
    requires blanks != "" && forall c <- blanks :: c == ' '
    requires GoodType(typ) && GoodPath(path)
    ensures var changes := Labels(flags) + if SaysMissing(flags) then ["deleted"] else [];
            VerifyOne(PrintLine(flags, blanks, typ, path))
            == if typ == "c" && changes != [] then Reports(Change(path, changes)) else Nothing
  {
    assert forall s :: CharsIn(s, 0) == Some(0);
    hide Labels, TypeAndPath, TrimStart, CharsIn, Bytes, SaysMissing, IsSpace;
    var rest := blanks + (typ + (" " + path));
    var line := flags + rest;
    assert line[|line| - 1] == path[|path| - 1];
    assert TrimEnd(line) == line;
    assert line[..7] == flags[..7] <= flags;
    assert line[..9] == flags && line[9..] == rest;
    TypeAndPathReadBack(blanks, typ, path);
    BytesAtLeast(line);
    AsciiPrefix(flags, rest, 9);
  }

  /** A line without a path is no verdict. */
  lemma PathlessLine(flags: string, blanks: string, typ: string)
    requires |flags| == 9 && !(MISSING <= flags) && forall c <- flags :: Width(c) == 1
    requires blanks != "" && GoodType(typ) && forall c <- blanks :: c == ' '
    ensures VerifyOne(flags + (blanks + typ)) == Nothing
    ensures VerifyOne(MISSING + (blanks + typ)) == Nothing
  {
    assert forall s :: CharsIn(s, 0) == Some(0);
    hide Labels, TrimStart, CharsIn, Bytes, SaysMissing, IsSpace, TypeAndPath;
    var rest := blanks + typ;
    assert typ[|typ| - 1] in typ;
    var line, lost := flags + rest, MISSING + rest;
    assert line[|line| - 1] == typ[|typ| - 1] == lost[|lost| - 1];
    assert TrimEnd(line) == line && TrimEnd(lost) == lost;
    assert line[..7] == flags[..7] <= flags;
    assert line[..9] == flags && line[9..] == rest && lost[..7] == MISSING && lost[7..] == rest;
    NoPath(blanks, typ);
    AsciiPrefix(flags, rest, 9);
  }

  lemma {:induction false} NoPath(blanks: string, typ: string)
    requires GoodType(typ) && forall c <- blanks :: c == ' '
    ensures TypeAndPath(TrimStart(blanks + typ)) == None
    decreases blanks
  {
    var t := blanks + typ;
    if blanks == "" {
      assert t == typ && typ[0] in typ;
      UntilSpaceStops(typ, "");
      assert typ + "" == typ;
    } else {
      assert t[1..] == blanks[1..] + typ && blanks[0] in blanks;
      assert forall c <- blanks[1..] :: c in blanks;
      NoPath(blanks[1..], typ);
    }
  }

  /** Any verdict line for a configuration file gives back its path and exactly
      its flag labels, and is dropped if it has none. */
  lemma VerdictReadsBack(flags: string, path: string)
    requires GoodFlags(flags) && GoodPath(path)
    ensures VerifyOne(PrintVerdict(flags, path))
         == if Labels(flags) == [] then Nothing else Reports(Change(path, Labels(flags)))
  {
    hide Labels, GoodPath, VerifyOne;
    assert PrintVerdict(flags, path) == PrintLine(flags, "  ", "c", path);
    assert IsFlag(flags[0]) && MISSING[0] == 'm';
    assert Labels(flags) + [] == Labels(flags);
    NotMissing(flags);
    LineReadsBack(flags, "  ", "c", path);
  }

  /** The label that rpm's manual gives to a flag. */
  predicate Means(flag: char, word: string) {
    || (flag == 'S' && word == "size")
    || (flag == 'M' && word == "mode")
    || (flag == '5' && word == "md5")
    || (flag == 'D' && word == "device")
    || (flag == 'L' && word == "link_path")
    || (flag == 'U' && word == "user")
    || (flag == 'G' && word == "group")
    || (flag == 'T' && word == "time")
    || (flag == 'P' && word == "caps")
  }

  /** The labels are those of the flags at these places, which are all that have
      one. */
  ghost predicate LabelsAt(labels: seq<string>, flags: string, places: seq<nat>) {
    && |labels| == |places|
    && (forall i, j :: 0 <= i < j < |places| ==> places[i] < places[j])
    && (forall k :: 0 <= k < |places| ==> places[k] < |flags| && Means(flags[places[k]], labels[k]))
    && (forall i :: 0 <= i < |flags| && flags[i] in "SM5DLUGTP" ==> i in places)
  }

  /** Labels come in the order of their flags, one for each flag that has one. */
  lemma {:induction false} LabelsInOrder(flags: string) returns (places: seq<nat>)
    ensures LabelsAt(Labels(flags), flags, places)
  {
    if flags == "" {
      places := [];
    } else {
      var n := |flags| - 1;
      var before := LabelsInOrder(flags[..n]);
      places := if Label(flags[n]).Some? then before + [n] else before;
      LabelMeans(flags[n]);
      NextLabel(Labels(flags[..n]), flags, before);
    }
  }

  lemma NextLabel(labels: seq<string>, flags: string, places: seq<nat>)
    requires flags != "" && LabelsAt(labels, flags[..|flags| - 1], places)
    ensures var n := |flags| - 1;
            && (flags[n] !in "SM5DLUGTP" ==> LabelsAt(labels, flags, places))
            && forall l :: flags[n] in "SM5DLUGTP" && Means(flags[n], l) ==> LabelsAt(labels + [l], flags, places + [n])
  {
    hide Means;
    var n := |flags| - 1;
    assert forall i :: 0 <= i < n ==> flags[..n][i] == flags[i];
    assert (places + [n])[|places|] == n;
    forall i | 0 <= i < n && flags[i] in "SM5DLUGTP" ensures i in places && i in places + [n] {
    }
  }

  lemma LabelMeans(c: char)
    ensures Label(c).Some? <==> c in "SM5DLUGTP"
    ensures Label(c).Some? ==> Means(c, Label(c).value)
    ensures forall l :: Means(c, l) ==> Label(c) == Some(l)
  {
    var all := "SM5DLUGTP";
    assert all[0] == 'S' && all[1] == 'M' && all[2] == '5' && all[3] == 'D' && all[4] == 'L' && all[5] == 'U';
    assert all[6] == 'G' && all[7] == 'T' && all[8] == 'P';
  }

  lemma MeansOneFlag(c: char, d: char, l: string)
    requires Means(c, l) && Means(d, l)
    ensures c == d
  {
    assert "size"[0] == 's' && "mode"[1] == 'o' && "md5"[1] == 'd' && "device"[0] == 'd' && "link_path"[0] == 'l';
    assert "user"[0] == 'u' && "group"[0] == 'g' && "time"[0] == 't' && "caps"[0] == 'c';
  }

  /** A label is there exactly when its flag is. */
  lemma LabelsSay(flags: string, flag: char, word: string)
    requires Means(flag, word)
    ensures word in Labels(flags) <==> flag in flags
  {
    hide Labels, Means;
    var places := LabelsInOrder(flags);
    if word in Labels(flags) {
      var k :| 0 <= k < |places| && Labels(flags)[k] == word;
      MeansOneFlag(flags[places[k]], flag, word);
    }
    if flag in flags {
      var i :| 0 <= i < |flags| && flags[i] == flag;
      LabelMeans(flag);
      var k :| 0 <= k < |places| && places[k] == i;
    }
  }

  /** What a verdict line reports, flag by flag. */
  lemma VerdictSays(flags: string, path: string)
    requires GoodFlags(flags) && GoodPath(path)
    ensures var r := VerifyOne(PrintVerdict(flags, path));
            && (r == Nothing <==> forall c <- flags :: c == '.' || c == '?')
            && (r != Nothing ==> r.Reports? && r.change.path == path)
            && (r != Nothing ==> forall l <- r.change.changes :: exists c <- flags :: Means(c, l))
            && (r != Nothing ==> forall c, l :: Means(c, l) ==> (l in r.change.changes <==> c in flags))
  {
    hide Labels, Means, VerifyOne, PrintVerdict, GoodPath;
    VerdictReadsBack(flags, path);
    var places := LabelsInOrder(flags);
    forall c, l | Means(c, l) ensures l in Labels(flags) <==> c in flags {
      LabelsSay(flags, c, l);
    }
    forall l <- Labels(flags) ensures exists c <- flags :: Means(c, l) {
      var k :| 0 <= k < |places| && Labels(flags)[k] == l;
      assert flags[places[k]] in flags;
    }
    if Labels(flags) == [] {
      forall c <- flags ensures c == '.' || c == '?' {
        var i :| 0 <= i < |flags| && flags[i] == c;
        assert IsFlag(c);
        if c != '.' && c != '?' {
          LabelMeans(c);
        }
      }
    } else {
      assert places[0] < |flags| && Means(flags[places[0]], Labels(flags)[0]);
      LabelMeans(flags[places[0]]);
      assert flags[places[0]] in flags;
    }
  }

  /** Flags say so when they hold the word. */
  lemma {:induction false} SaysMissingIff(flags: string)
    ensures SaysMissing(flags) <==> exists i :: 0 <= i <= |flags| && "missing" <= flags[i..]
  {
    assert flags[0..] == flags;
    if flags != "" {
      var rest := flags[1..];
      SaysMissingIff(rest);
      forall i | 0 <= i <= |rest| ensures rest[i..] == flags[i + 1..] {
      }
      forall i | 0 < i <= |flags| ensures flags[i..] == rest[i - 1..] {
      }
    }
  }

  lemma MissingReadsBack(path: string)
    requires GoodPath(path)
    ensures VerifyOne(PrintMissing(path)) == Reports(Change(path, ["deleted"]))
  {
    hide TypeAndPath, TrimStart;
    var line := PrintMissing(path);
    assert line[|line| - 1] == path[|path| - 1];
    assert TrimEnd(line) == line;
    assert line[..7] == MISSING && line[7..] == "     " + ("c" + (" " + path));
    TypeAndPathReadBack("     ", "c", path);
    NoLabels(MISSING);
    assert [] + ["deleted"] == ["deleted"];
    assert SaysMissing(MISSING);
  }

  lemma {:induction false} NotMissing(flags: string)
    requires forall i :: 0 <= i < |flags| ==> IsFlag(flags[i])
    ensures !SaysMissing(flags)
  {
    if flags != "" {
      assert IsFlag(flags[0]) && MISSING[0] == 'm';
      NotMissing(flags[1..]);
    }
  }

  lemma {:induction false} NoLabels(s: string)
    requires forall c <- s :: Label(c).None?
    ensures Labels(s) == []
  {
    if s != "" {
      NoLabels(s[..|s| - 1]);
    }
  }

  /** Whatever rpm prints, no reported change is empty. */
  lemma {:induction false} NoEmptyChanges(lines: seq<string>)
    ensures VerifyAll(lines).Some? ==> forall c <- VerifyAll(lines).value :: c.changes != []
  {
    hide SplitVerifyLine, Labels;
    if lines != [] {
      NoEmptyChanges(lines[..|lines| - 1]);
    }
  }

  /** A label is reported exactly when its flag is set. */
  lemma {:induction false} LabelIff(flags: string, l: string)
    ensures l in Labels(flags) <==> exists c <- flags :: Label(c) == Some(l)
  {
    hide Label;
    if flags != "" {
      var n := |flags| - 1;
      LabelIff(flags[..n], l);
      assert flags == flags[..n] + [flags[n]];
    }
  }
}
