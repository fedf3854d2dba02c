/** The two recursive writers as the sources run them: they push onto a text
    buffer, and each is proved to append exactly the printed form. */
module JsonWriter {
  import opened Strings
  import opened Json

  class Writer {
    var out: string

    constructor ()
      ensures out == ""
    {
      out := "";
    }

    /** A quoted string, escaped one character at a time. */
    method EscapeJson(s: string, ascii: bool)
      modifies this
      ensures out == old(out) + PutString(s, ascii, "")
    {
      hide Escape;
      out := out + "\"";
      ghost var total := old(out) + PutString(s, ascii, "");
      assert "\"" + "" == "\"" && s[0..] == s;
      for i := 0 to |s|
        invariant total == out + PutChars(s[i..], ascii, "\"")
      {
        assert s[i..][1..] == s[i + 1..];
        ghost var rest := PutChars(s[i + 1..], ascii, "\"");
        assert out + (Escape(s[i], ascii) + rest) == (out + Escape(s[i], ascii)) + rest;
        out := out + Escape(s[i], ascii);
      }
      out := out + "\"";
    }

    /** The compact form with the keys of every object in order. */
    method WriteCanonical(v: Json, ascii: bool)
      modifies this
      ensures out == old(out) + Put(v, Compact(ascii), "")
      decreases v
    {
      match v
      case Null => out := out + "null"; assert "null" + "" == "null";
      case Bool(b) =>
        out := out + (if b then "true" else "false");
        assert "true" + "" == "true" && "false" + "" == "false";
      case Num(n) => out := out + Decimal(n); assert Decimal(n) + "" == Decimal(n);
      case Str(s) => EscapeJson(s, ascii);
      case Arr(_) => WriteArray(v, ascii);
      case Obj(_) => WriteObject(v, ascii);
    }

    method WriteArray(v: Json, ascii: bool)
      requires v.Arr?
      modifies this
      ensures out == old(out) + Put(v, Compact(ascii), "")
      decreases v, 0
    {
      hide Put, PutItems;
      ghost var total := old(out) + Put(v, Compact(ascii), "");
      out := out + "[";
      CompactArrayText(ascii, v);
      assert total == out + PutItems(v, 0, Compact(ascii), "]");
      for i := 0 to |v.items|
        invariant total == out + PutItems(v, i, Compact(ascii), "]")
      {
        ghost var rest := PutItems(v, i + 1, Compact(ascii), "]");
        CompactItemText(ascii, v, i);
        Push(out, if i > 0 then "," else "", Put(v.items[i], Compact(ascii), "") + rest);
        Push(out + (if i > 0 then "," else ""), Put(v.items[i], Compact(ascii), ""), rest);
        if i > 0 {
          out := out + ",";
        }
        WriteCanonical(v.items[i], ascii);
      }
      CompactArrayEnd(ascii, v);
      out := out + "]";
    }

    method WriteObject(v: Json, ascii: bool)
      requires v.Obj?
      modifies this
      ensures out == old(out) + Put(v, Compact(ascii), "")
      decreases v, 0
    {
      hide Put, PutMembers, SortedKeys, PutString;
      ghost var total := old(out) + Put(v, Compact(ascii), "");
      var keys := SortKeys(v.members.Keys);
      out := out + "{";
      CompactObjectText(ascii, v);
      assert total == out + PutMembers(v, keys, 0, Compact(ascii), "}");
      for i := 0 to |keys|
        invariant total == out + PutMembers(v, keys, i, Compact(ascii), "}")
      {
        ghost var rest := PutMembers(v, keys, i + 1, Compact(ascii), "}");
        ghost var value := Put(v.members[keys[i]], Compact(ascii), "");
        CompactMemberText(ascii, v, keys, i);
        ghost var comma := if i > 0 then "," else "";
        ghost var quoted := PutString(keys[i], ascii, "");
        Push4(out, comma, quoted, ":", value, rest);
        if i > 0 {
          out := out + ",";
        }
        EscapeJson(keys[i], ascii);
        out := out + ":";
        WriteCanonical(v.members[keys[i]], ascii);
      }
      CompactObjectEnd(ascii, v, keys);
      out := out + "}";
    }

    /** The indented form of the applied record: a newline and two more blanks
        of padding per level, a comma after every element but the last. */
    method PrintJson(v: Json, indent: nat)
      modifies this
      ensures out == old(out) + Put(v, Pretty(indent), "")
      decreases v
    {
      match v
      case Null => out := out + "null"; assert "null" + "" == "null";
      case Bool(b) =>
        out := out + (if b then "true" else "false");
        assert "true" + "" == "true" && "false" + "" == "false";
      case Num(n) => out := out + Decimal(n); assert Decimal(n) + "" == Decimal(n);
      case Str(s) => EscapeJson(s, false);
      case Arr(items) =>
        if items == [] {
          out := out + "[]";
          assert "[]" + "" == "[]";
        } else {
          PrintArray(v, indent);
        }
      case Obj(members) =>
        if members == map[] {
          out := out + "{}";
          assert "{}" + "" == "{}";
        } else {
          PrintObject(v, indent);
        }
    }

    method PrintArray(v: Json, indent: nat)
      requires v.Arr? && v.items != []
      modifies this
      ensures out == old(out) + Put(v, Pretty(indent), "")
      decreases v, 0
    {
      hide Put, PutItems, Spaces;
      var pad, pad1 := Spaces(indent * 2), Spaces((indent + 1) * 2);
      ghost var total := old(out) + Put(v, Pretty(indent), "");
      PrettyArrayText(v, indent);
      out := out + "[\n";
      for i := 0 to |v.items|
        invariant total == out + PrettyItemsText(v, i, indent)
      {
        PrettyItemText(v, i, indent);
        ghost var value := Put(v.items[i], Pretty(indent + 1), "");
        ghost var comma := if i + 1 < |v.items| then "," else "";
        ghost var rest := PrettyItemsText(v, i + 1, indent);
        Push4(out, pad1, value, comma, "\n", rest);
        out := out + pad1;
        PrintJson(v.items[i], indent + 1);
        if i + 1 < |v.items| {
          out := out + ",";
        }
        out := out + "\n";
      }
      assert out + (pad + "]") == (out + pad) + "]";
      out := out + pad;
      out := out + "]";
    }

    method PrintObject(v: Json, indent: nat)
      requires v.Obj? && v.members != map[]
      modifies this
      ensures out == old(out) + Put(v, Pretty(indent), "")
      decreases v, 0
    {
      hide Put, PutMembers, SortedKeys, PutString, Spaces;
      var pad, pad1 := Spaces(indent * 2), Spaces((indent + 1) * 2);
      ghost var total := old(out) + Put(v, Pretty(indent), "");
      var names := SortKeys(v.members.Keys);
      SomeKey(v);
      PrettyObjectText(v, indent);
      out := out + "{\n";
      for i := 0 to |names|
        invariant total == out + PrettyMembersText(v, names, i, indent)
      {
        PrettyMemberText(v, names, i, indent);
        ghost var value := Put(v.members[names[i]], Pretty(indent + 1), "");
        ghost var comma := if i + 1 < |names| then "," else "";
        ghost var quoted := PutString(names[i], false, "");
        ghost var rest := PrettyMembersText(v, names, i + 1, indent);
        Push3(out, pad1, quoted, ": ", value + (comma + ("\n" + rest)));
        Push3(((out + pad1) + quoted) + ": ", value, comma, "\n", rest);
        out := out + pad1;
        EscapeJson(names[i], false);
        out := out + ": ";
        PrintJson(v.members[names[i]], indent + 1);
        if i + 1 < |names| {
          out := out + ",";
        }
        out := out + "\n";
      }
      assert out + (pad + "}") == (out + pad) + "}";
      out := out + pad;
      out := out + "}";
    }
  }

  // ---- Pushing pieces one at a time -------------------------------------------

  lemma Push(o: string, a: string, r: string)
    ensures o + (a + r) == (o + a) + r
  {
  }

  lemma Push3(o: string, a: string, b: string, c: string, r: string)
    ensures o + (a + (b + (c + r))) == (((o + a) + b) + c) + r
  {
    Push(o, a, b + (c + r));
    Push(o + a, b, c + r);
    Push(o + a + b, c, r);
  }

  lemma Push4(o: string, a: string, b: string, c: string, d: string, r: string)
    ensures o + (a + (b + (c + (d + r)))) == ((((o + a) + b) + c) + d) + r
  {
    Push3(o, a, b, c, d + r);
    Push(o + a + b + c, d, r);
  }

  // ---- One unfolding of the compact form ------------------------------------

  lemma CompactArrayText(ascii: bool, v: Json)
    requires v.Arr?
    ensures Put(v, Compact(ascii), "") == "[" + PutItems(v, 0, Compact(ascii), "]")
  {
    assert "" + ("]" + "") == "]" && "[]" + "" == "[" + "]";
  }

  lemma CompactArrayEnd(ascii: bool, v: Json)
    requires v.Arr?
    ensures PutItems(v, |v.items|, Compact(ascii), "]") == "]"
  {
  }

  lemma CompactItemText(ascii: bool, v: Json, i: nat)
    requires v.Arr? && i < |v.items|
    ensures PutItems(v, i, Compact(ascii), "]")
         == (if i > 0 then "," else "")
            + (Put(v.items[i], Compact(ascii), "") + PutItems(v, i + 1, Compact(ascii), "]"))
  {
    hide Put;
    var rest := PutItems(v, i + 1, Compact(ascii), "]");
    PutAppends(v.items[i], Compact(ascii), "", rest);
    assert "" + rest == rest;
    var t := Put(v.items[i], Compact(ascii), rest);
    assert "" + t == t;
  }

  lemma CompactObjectText(ascii: bool, v: Json)
    requires v.Obj?
    ensures Put(v, Compact(ascii), "") == "{" + PutMembers(v, SortedKeys(v.members.Keys), 0, Compact(ascii), "}")
  {
    hide PutItems;
    assert "" + ("}" + "") == "}" && "{}" + "" == "{" + "}";
    if v.members == map[] {
      assert v.members.Keys == {};
      assert SortedKeys(v.members.Keys) == [];
    }
  }

  lemma CompactObjectEnd(ascii: bool, v: Json, ks: seq<string>)
    requires KeysOf(v, ks)
    ensures PutMembers(v, ks, |ks|, Compact(ascii), "}") == "}"
  {
  }

  lemma CompactMemberText(ascii: bool, v: Json, ks: seq<string>, i: nat)
    requires KeysOf(v, ks) && i < |ks|
    ensures PutMembers(v, ks, i, Compact(ascii), "}")
         == (if i > 0 then "," else "")
            + (PutString(ks[i], ascii, "")
               + (":" + (Put(v.members[ks[i]], Compact(ascii), "") + PutMembers(v, ks, i + 1, Compact(ascii), "}"))))
  {
    hide Put, PutString;
    var rest := PutMembers(v, ks, i + 1, Compact(ascii), "}");
    PutAppends(v.members[ks[i]], Compact(ascii), "", rest);
    assert "" + rest == rest;
    var t := ":" + Put(v.members[ks[i]], Compact(ascii), rest);
    PutStringAppends(ks[i], ascii, "", t);
    assert "" + t == t;
    assert "" + PutMember(v, ks[i], Compact(ascii), rest) == PutMember(v, ks[i], Compact(ascii), rest);
  }

  // ---- One unfolding of the indented form -------------------------------------

  /** What is still to print when the loop is about to start element `i`. */
  ghost function PrettyItemsText(v: Json, i: nat, indent: nat): string
    requires v.Arr? && i <= |v.items|
  {
    if i == |v.items| then Spaces(indent * 2) + "]"
    else Spaces((indent + 1) * 2)
         + Put(v.items[i], Pretty(indent + 1), PutItems(v, i + 1, Pretty(indent), "\n" + (Spaces(indent * 2) + "]")))
  }

  lemma OpenText(bracket: string, pad1: string, body: string)
    ensures bracket + ("" + (("\n" + pad1) + body)) == (bracket + "\n") + (pad1 + body)
  {
    Push("\n", pad1, body);
    assert "" + (("\n" + pad1) + body) == "\n" + (pad1 + body);
    Push(bracket, "\n", pad1 + body);
  }

  lemma CloseText(pad: string, bracket: string)
    ensures ("\n" + pad) + (bracket + "") == "\n" + (pad + bracket)
  {
  }

  lemma PrettyArrayText(v: Json, indent: nat)
    requires v.Arr? && v.items != []
    ensures Put(v, Pretty(indent), "") == "[\n" + PrettyItemsText(v, 0, indent)
  {
    hide PutMembers, Spaces;
    var pad, pad1 := Spaces(indent * 2), Spaces((indent + 1) * 2);
    CloseText(pad, "]");
    var close := "\n" + (pad + "]");
    var body := Put(v.items[0], Pretty(indent + 1), PutItems(v, 1, Pretty(indent), close));
    assert PutItems(v, 0, Pretty(indent), close) == "" + (("\n" + pad1) + body);
    OpenText("[", pad1, body);
  }

  lemma PrettyItemText(v: Json, i: nat, indent: nat)
    requires v.Arr? && i < |v.items|
    ensures PrettyItemsText(v, i, indent)
         == Spaces((indent + 1) * 2)
            + (Put(v.items[i], Pretty(indent + 1), "")
               + ((if i + 1 < |v.items| then "," else "") + ("\n" + PrettyItemsText(v, i + 1, indent))))
  {
    hide Put, Spaces;
    var tail := PutItems(v, i + 1, Pretty(indent), "\n" + (Spaces(indent * 2) + "]"));
    PutAppends(v.items[i], Pretty(indent + 1), "", tail);
    assert "" + tail == tail;
    var t := PrettyItemsText(v, i + 1, indent);
    if i + 1 < |v.items| {
      var pad1 := Spaces((indent + 1) * 2);
      Push("\n", pad1,
           Put(v.items[i + 1], Pretty(indent + 1),
               PutItems(v, i + 2, Pretty(indent), "\n" + (Spaces(indent * 2) + "]"))));
    } else {
      assert "" + ("\n" + t) == "\n" + t;
    }
  }

  /** What is still to print when the loop is about to start the member at key `i`. */
  ghost function PrettyMembersText(v: Json, ks: seq<string>, i: nat, indent: nat): string
    requires KeysOf(v, ks) && i <= |ks|
  {
    if i == |ks| then Spaces(indent * 2) + "}"
    else Spaces((indent + 1) * 2)
         + PutMember(v, ks[i], Pretty(indent),
                     PutMembers(v, ks, i + 1, Pretty(indent), "\n" + (Spaces(indent * 2) + "}")))
  }

  lemma PrettyObjectText(v: Json, indent: nat)
    requires v.Obj? && v.members != map[] && SortedKeys(v.members.Keys) != []
    ensures Put(v, Pretty(indent), "") == "{\n" + PrettyMembersText(v, SortedKeys(v.members.Keys), 0, indent)
  {
    hide PutItems, PutMember, Spaces, SortedKeys;
    var ks := SortedKeys(v.members.Keys);
    var pad, pad1 := Spaces(indent * 2), Spaces((indent + 1) * 2);
    CloseText(pad, "}");
    var close := "\n" + (pad + "}");
    var body := PutMember(v, ks[0], Pretty(indent), PutMembers(v, ks, 1, Pretty(indent), close));
    assert PutMembers(v, ks, 0, Pretty(indent), close) == "" + (("\n" + pad1) + body);
    OpenText("{", pad1, body);
  }

  lemma PrettyMembersTail(v: Json, ks: seq<string>, i: nat, indent: nat)
    requires KeysOf(v, ks) && 0 < i <= |ks|
    ensures PutMembers(v, ks, i, Pretty(indent), "\n" + (Spaces(indent * 2) + "}"))
         == (if i < |ks| then "," else "") + ("\n" + PrettyMembersText(v, ks, i, indent))
  {
    hide PutMember, Spaces;
    var t := "\n" + PrettyMembersText(v, ks, i, indent);
    if i < |ks| {
      Push("\n", Spaces((indent + 1) * 2),
           PutMember(v, ks[i], Pretty(indent),
                     PutMembers(v, ks, i + 1, Pretty(indent), "\n" + (Spaces(indent * 2) + "}"))));
    } else {
      assert "" + t == t;
    }
  }

  lemma PrettyMemberText(v: Json, ks: seq<string>, i: nat, indent: nat)
    requires KeysOf(v, ks) && i < |ks|
    ensures PrettyMembersText(v, ks, i, indent)
         == Spaces((indent + 1) * 2)
            + (PutString(ks[i], false, "") + (": " + (Put(v.members[ks[i]], Pretty(indent + 1), "")
               + ((if i + 1 < |ks| then "," else "") + ("\n" + PrettyMembersText(v, ks, i + 1, indent))))))
  {
    hide Put, PutString, Spaces, PutMembers;
    var tail := PutMembers(v, ks, i + 1, Pretty(indent), "\n" + (Spaces(indent * 2) + "}"));
    var value := v.members[ks[i]];
    PutAppends(value, Pretty(indent + 1), "", tail);
    assert "" + tail == tail;
    var after := ": " + Put(value, Pretty(indent + 1), tail);
    PutStringAppends(ks[i], false, "", after);
    assert "" + after == after;
    var t := PrettyMembersText(v, ks, i + 1, indent);
    PrettyMembersTail(v, ks, i + 1, indent);
  }
}
