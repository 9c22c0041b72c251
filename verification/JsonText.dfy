/** Reading canonical JSON back, after RFC 8259: what is written is JSON, in ASCII, and says what was meant. */
module JsonText {
  import opened Wrappers
  import opened Ordering
  import opened Json

  // ----------------------------------------------------------------------- strings

  function HexValue(c: char): (r: Option<nat>)
    ensures r.Some? ==> r.value < 16
  {
    if '0' <= c <= '9' then Some(c as int - '0' as int)
    else if 'a' <= c <= 'f' then Some(c as int - 'a' as int + 10)
    else if 'A' <= c <= 'F' then Some(c as int - 'A' as int + 10)
    else None
  }

  /** Four hexadecimal digits. */
  function ReadUnit(s: string): (r: Option<nat>)
    ensures r.Some? ==> |s| >= 4 && r.value < 0x1_0000
  {
    if |s| < 4 then None
    else
      var a, b, c, d := HexValue(s[0]), HexValue(s[1]), HexValue(s[2]), HexValue(s[3]);
      if a.None? || b.None? || c.None? || d.None? then None
      else Some(a.value * 4096 + b.value * 256 + c.value * 16 + d.value)
  }

  /** The character after a backslash stands for this one. */
  function Named(c: char): Option<char>
  {
    if c == '"' || c == '\\' || c == '/' then Some(c)
    else if c == 'b' then Some(8 as char)
    else if c == 'f' then Some(12 as char)
    else if c == 'n' then Some(10 as char)
    else if c == 'r' then Some(13 as char)
    else if c == 't' then Some(9 as char)
    else None
  }

  /** An escape of one code unit, or of a surrogate pair, and what follows it. */
  function ReadUnicode(s: string): (r: Option<(char, string)>)
    ensures r.Some? ==> |r.value.1| < |s|
  {
    var u := ReadUnit(s);
    if u.None? then None
    else if !(0xD800 <= u.value < 0xE000) then Some((u.value as char, s[4..]))
    else if u.value >= 0xDC00 || |s| < 10 || s[4] != '\\' || s[5] != 'u' then None
    else
      var v := ReadUnit(s[6..]);
      if v.None? || !(0xDC00 <= v.value < 0xE000) then None
      else Some((((u.value - 0xD800) * 0x400 + (v.value - 0xDC00) + 0x1_0000) as char, s[10..]))
  }

  /** The first character of a string's text, and what follows it. */
  function ReadChar(s: string): (r: Option<(char, string)>)
    ensures r.Some? ==> |r.value.1| < |s|
  {
    if s == "" || s[0] == '"' || s[0] as int < 32 then None
    else if s[0] != '\\' then Some((s[0], s[1..]))
    else if |s| < 2 then None
    else if s[1] == 'u' then ReadUnicode(s[2..])
    else
      var c := Named(s[1]);
      if c.None? then None else Some((c.value, s[2..]))
  }

  /** The rest of a string after its opening quote, and what follows the closing one. */
  function ReadString(s: string): (r: Option<(string, string)>)
    ensures r.Some? ==> |r.value.1| < |s|
  {
    if s == "" then None
    else if s[0] == '"' then Some(("", s[1..]))
    else
      var c := ReadChar(s);
      if c.None? then None
      else
        var rest := ReadString(c.value.1);
        if rest.None? then None else Some(([c.value.0] + rest.value.0, rest.value.1))
  }

  lemma {:induction false} UnitBack(n: nat, t: string)
    requires n < 0x1_0000
    ensures ReadUnit(Hex4(n) + t) == Some(n)
  {
    var s := Hex4(n) + t;
    var a, b, c, d := n / 16 / 16 / 16, n / 16 / 16 % 16, n / 16 % 16, n % 16;
    assert s[0] == HexDigit(a) && s[1] == HexDigit(b) && s[2] == HexDigit(c) && s[3] == HexDigit(d);
    DigitBack(a);
    DigitBack(b);
    DigitBack(c);
    DigitBack(d);
    hide HexDigit, HexValue;
    assert n == a * 4096 + b * 256 + c * 16 + d;
  }

  lemma {:induction false} DigitBack(n: nat)
    requires n < 16
    ensures HexValue(HexDigit(n)) == Some(n)
  {
  }

  lemma {:induction false} UnicodeText(n: nat, t: string)
    requires n < 0x1_0000
    ensures var s := Unicode(n) + t; |s| >= 6 && s[0] == '\\' && s[1] == 'u' && s[2..] == Hex4(n) + t && s[6..] == t
  {
    hide Hex4;
  }

  lemma {:induction false} CharBack(c: char, t: string)
    ensures ReadChar(EscapeChar(c) + t) == Some((c, t))
  {
    hide Hex4, ReadUnit;
    EscapeShape(c);
    var s := EscapeChar(c) + t;
    if Short(c).Some? {
      assert s[2..] == t;
      NamedBack(c);
    } else if ' ' <= c <= '~' {
      assert s[1..] == t && s[0] == c;
    } else if c as int < 0x1_0000 {
      UnicodeText(c as int, t);
      UnitBack(c as int, t);
      assert s[2..][4..] == t;
    } else {
      PairBack(c, t);
    }
  }

  lemma {:induction false} NamedBack(c: char)
    requires Short(c).Some?
    ensures Named(Short(c).value) == Some(c) && Short(c).value != 'u'
  {
  }

  lemma {:induction false} PairBack(c: char, t: string)
    requires c as int >= 0x1_0000
    ensures ReadChar(Unicode(High(c)) + Unicode(Low(c)) + t) == Some((c, t))
  {
    hide Hex4, ReadUnit, Unicode;
    var high, low := High(c), Low(c);
    var tail := Unicode(low) + t;
    var s := Unicode(high) + Unicode(low) + t;
    assert s == Unicode(high) + tail;
    UnicodeText(high, tail);
    UnicodeText(low, t);
    UnitBack(high, tail);
    UnitBack(low, t);
    assert s[2..][4..] == tail && s[2..][6..] == tail[2..] && s[2..][10..] == tail[6..];
    assert s[2..][4] == tail[0] && s[2..][5] == tail[1];
    assert (high - 0xD800) * 0x400 + (low - 0xDC00) + 0x1_0000 == c as int;
  }

  /** A string is read back from its quoted text. */
  lemma {:induction false} StringBack(str: string, t: string)
    ensures ReadString(Escape(str) + ("\"" + t)) == Some((str, t))
  {
    hide ReadChar, EscapeChar;
    var s := Escape(str) + ("\"" + t);
    if str == "" {
      assert s[1..] == t && s[0] == '"';
    } else {
      var rest := Escape(str[1..]) + ("\"" + t);
      assert s == EscapeChar(str[0]) + rest;
      CharBack(str[0], rest);
      StringBack(str[1..], t);
      NotQuote(str[0]);
      assert s[0] == EscapeChar(str[0])[0];
      assert [str[0]] + str[1..] == str;
    }
  }

  lemma {:induction false} NotQuote(c: char)
    ensures EscapeChar(c) != "" && EscapeChar(c)[0] != '"'
  {
  }

  // ------------------------------------------------------------------------ values

  /** A value at the front of a text without insignificant space, and what follows it. */
  function ReadValue(s: string): (r: Option<(Json, string)>)
    ensures r.Some? ==> |r.value.1| < |s|
    decreases |s|, 0
  {
    if s == "" then None
    else if "null" <= s then Some((Null, s[4..]))
    else if "true" <= s then Some((Bool(true), s[4..]))
    else if "false" <= s then Some((Bool(false), s[5..]))
    else if s[0] == '"' then
      var str := ReadString(s[1..]);
      if str.None? then None else Some((Str(str.value.0), str.value.1))
    else if s[0] == '[' then
      if 1 < |s| && s[1] == ']' then Some((Arr([]), s[2..]))
      else
        var items := ReadItems(s[1..]);
        if items.None? then None else Some((Arr(items.value.0), items.value.1))
    else if s[0] == '{' then
      if 1 < |s| && s[1] == '}' then Some((Obj(map[]), s[2..]))
      else
        var fields := ReadFields(s[1..]);
        if fields.None? then None else Some((Obj(Collect(fields.value.0)), fields.value.1))
    else
      var n := NumberRun(s);
      if n == 0 || n > |s| || !NumberText(s[..n]) then None else Some((Number(s[..n]), s[n..]))
  }

  /** Values separated by commas up to a closing bracket. */
  function ReadItems(s: string): (r: Option<(seq<Json>, string)>)
    ensures r.Some? ==> |r.value.1| < |s|
    decreases |s|, 1
  {
    var first := ReadValue(s);
    if first.None? || first.value.1 == "" then None
    else
      var rest := first.value.1;
      if rest[0] == ']' then Some(([first.value.0], rest[1..]))
      else if rest[0] != ',' then None
      else
        var more := ReadItems(rest[1..]);
        if more.None? then None else Some(([first.value.0] + more.value.0, more.value.1))
  }

  /** Fields separated by commas up to a closing brace, in the order in which they stand. */
  function ReadFields(s: string): (r: Option<(seq<(string, Json)>, string)>)
    ensures r.Some? ==> |r.value.1| < |s|
    decreases |s|, 1
  {
    var key := if s != "" && s[0] == '"' then ReadString(s[1..]) else None;
    if key.None? || key.value.1 == "" || key.value.1[0] != ':' then None
    else
      var first := ReadValue(key.value.1[1..]);
      if first.None? || first.value.1 == "" then None
      else
        var rest, field := first.value.1, (key.value.0, first.value.0);
        if rest[0] == '}' then Some(([field], rest[1..]))
        else if rest[0] != ',' then None
        else
          var more := ReadFields(rest[1..]);
          if more.None? then None else Some(([field] + more.value.0, more.value.1))
  }

  function Collect(fields: seq<(string, Json)>): map<string, Json>
  {
    if fields == [] then map[] else Collect(fields[..|fields| - 1])[fields[|fields| - 1].0 := fields[|fields| - 1].1]
  }

  lemma {:induction false} StringValue(str: string, t: string)
    ensures ReadValue(Write(Str(str)) + t) == Some((Str(str), t))
  {
    hide Escape, ReadString;
    var s := Write(Str(str)) + t;
    Assoc(Escape(str), "\"", t);
    assert s[0] == '"' && s[1..] == Escape(str) + ("\"" + t);
    assert "null"[0] == 'n' && "true"[0] == 't' && "false"[0] == 'f';
    StringBack(str, t);
  }

  lemma {:induction false} NumberValue(text: string, t: string)
    requires NumberText(text) && Delimited(t)
    ensures ReadValue(text + t) == Some((Number(text), t))
  {
    hide ReadString, ReadItems, ReadFields, NumberRun;
    var s := text + t;
    NumberRunIs(text, t);
    assert s[0] == text[0] && s[..|text|] == text && s[|text|..] == t;
    assert "null"[0] == 'n' && "true"[0] == 't' && "false"[0] == 'f';
  }

  lemma {:induction false} WordValue(j: Json, t: string)
    requires j.Null? || j.Bool?
    ensures ReadValue(Write(j) + t) == Some((j, t))
  {
    hide ReadString, ReadItems, ReadFields, NumberRun;
    var s := Write(j) + t;
    assert s[0] == Write(j)[0];
    assert "null"[0] == 'n' && "true"[0] == 't' && "false"[0] == 'f';
    assert s[..|Write(j)|] == Write(j) && s[|Write(j)|..] == t;
  }

  lemma {:induction false} ArrayText(items: seq<Json>, t: string)
    ensures var s := Write(Arr(items)) + t; |s| >= 1 && s[0] == '[' && s[1..] == WriteItems(items) + ("]" + t)
  {
    hide WriteItems;
    Assoc(WriteItems(items), "]", t);
  }

  lemma {:induction false} ObjectText(j: Json, t: string)
    requires j.Obj?
    ensures var s := Write(j) + t;
      |s| >= 1 && s[0] == '{' && s[1..] == WriteFields(j, SortedNames(j.fields.Keys)) + ("}" + t)
  {
    hide WriteFields, SortedNames;
    Assoc(WriteFields(j, SortedNames(j.fields.Keys)), "}", t);
  }

  /** A value that can be serialised is read back from its text, whatever may follow a value. */
  lemma {:induction false} ValueBack(j: Json, t: string)
    requires Plain(j) && Delimited(t)
    ensures ReadValue(Write(j) + t) == Some((j, t))
    decreases j, 2, 0
  {
    hide Write, ReadValue, Plain, WriteItems, WriteFields, SortedNames, Collect;
    match j {
      case Null => WordValue(j, t);
      case Bool(_) => WordValue(j, t);
      case Str(str) => StringValue(str, t);
      case Number(text) => {
        NumberPlain(j);
        NumberValue(text, t);
      }
      case Arr(items) => {
        PlainItems(j);
        ArrayText(items, t);
        ItemsHead(items, t);
        if items != [] { ItemsBack(items, t); }
        ArrayRead(Write(j) + t, items, t);
      }
      case Obj(fields) => {
        var keys := SortedNames(fields.Keys);
        ObjectText(j, t);
        FieldsHead(j, keys, t);
        if keys != [] { FieldsBack(j, keys, t); }
        Collected(j, keys);
        ObjectRead(Write(j) + t, j, keys, t);
      }
      case Opaque => NotPlain();
    }
  }

  lemma {:induction false} NotPlain()
    ensures !Plain(Opaque)
  {
  }

  lemma {:induction false} NumberPlain(j: Json)
    requires Plain(j) && j.Number?
    ensures Write(j) == j.text && NumberText(j.text)
  {
  }

  lemma {:induction false} ArrayRead(s: string, items: seq<Json>, t: string)
    requires |s| >= 1 && s[0] == '[' && s[1..] == WriteItems(items) + ("]" + t)
    requires s[1..] != "" && (items == [] <==> s[1..][0] == ']')
    requires items != [] ==> ReadItems(s[1..]) == Some((items, t))
    ensures ReadValue(s) == Some((Arr(items), t))
  {
    hide ReadItems, WriteItems, ReadString, ReadFields, NumberRun;
    assert "null"[0] == 'n' && "true"[0] == 't' && "false"[0] == 'f';
    assert s[1..][0] == s[1] && s[2..] == s[1..][1..];
    if items == [] {
      NoItems(items);
      assert s[1..] == "]" + t;
    }
  }

  lemma {:induction false} ObjectRead(s: string, j: Json, keys: seq<string>, t: string)
    requires j.Obj? && forall k :: k in keys ==> k in j.fields
    requires |s| >= 1 && s[0] == '{' && s[1..] == WriteFields(j, keys) + ("}" + t)
    requires s[1..] != "" && (keys == [] <==> s[1..][0] == '}')
    requires keys != [] ==> ReadFields(s[1..]) == Some((Pairs(j, keys), t))
    requires Collect(Pairs(j, keys)) == j.fields
    ensures ReadValue(s) == Some((j, t))
  {
    hide ReadItems, WriteFields, ReadString, ReadFields, NumberRun;
    assert "null"[0] == 'n' && "true"[0] == 't' && "false"[0] == 'f';
    assert s[1..][0] == s[1] && s[2..] == s[1..][1..];
    if keys == [] {
      NoFields(j);
      assert s[1..] == "}" + t;
      assert Pairs(j, keys) == [];
    }
  }

  lemma {:induction false} ItemsBack(items: seq<Json>, t: string)
    requires items != [] && forall i :: 0 <= i < |items| ==> Plain(items[i])
    ensures ReadItems(WriteItems(items) + ("]" + t)) == Some((items, t))
    decreases items, 1, 0
  {
    hide Write, ReadValue, Plain, WriteItems;
    var s, tail := WriteItems(items) + ("]" + t), ItemsTail(items, t);
    ItemsHead(items, t);
    ValueBack(items[0], tail);
    if |items| == 1 {
      assert tail[1..] == t;
      assert items == [items[0]];
    } else {
      assert tail[1..] == WriteItems(items[1..]) + ("]" + t);
      ItemsBack(items[1..], t);
      assert items == [items[0]] + items[1..];
    }
  }

  /** The fields of an object under given keys. */
  ghost function Pairs(j: Json, keys: seq<string>): (r: seq<(string, Json)>)
    requires j.Obj? && forall k :: k in keys ==> k in j.fields
    ensures |r| == |keys| && forall i :: 0 <= i < |r| ==> keys[i] in j.fields && r[i] == (keys[i], j.fields[keys[i]])
  {
    seq(|keys|, i requires 0 <= i < |keys| => (keys[i], j.fields[keys[i]]))
  }

  lemma {:induction false} FieldsBack(j: Json, keys: seq<string>, t: string)
    requires j.Obj? && Plain(j) && keys != [] && forall k :: k in keys ==> k in j.fields
    ensures ReadFields(WriteFields(j, keys) + ("}" + t)) == Some((Pairs(j, keys), t))
    decreases j, 1, |keys|
  {
    hide Write, ReadValue, Plain, WriteFields, Escape, ReadString;
    var k, tail := keys[0], FieldsTail(j, keys, t);
    var v := j.fields[k];
    var s := WriteFields(j, keys) + ("}" + t);
    FieldsHead(j, keys, t);
    var after := ":" + (Write(v) + tail);
    Assoc(Escape(k), "\"", after);
    assert s[0] == '"' && s[1..] == Escape(k) + ("\"" + after);
    StringBack(k, after);
    assert after[1..] == Write(v) + tail;
    PlainField(j, k);
    ValueBack(v, tail);
    if |keys| == 1 {
      assert tail[1..] == t;
      assert Pairs(j, keys) == [(k, v)];
    } else {
      assert tail[1..] == WriteFields(j, keys[1..]) + ("}" + t);
      FieldsBack(j, keys[1..], t);
      assert Pairs(j, keys) == [(k, v)] + Pairs(j, keys[1..]);
    }
  }

  lemma {:induction false} CollectedAll(j: Json, keys: seq<string>)
    requires j.Obj? && forall k :: k in keys ==> k in j.fields
    ensures Collect(Pairs(j, keys)).Keys == (set k | k in keys)
    ensures forall k :: k in keys ==> Collect(Pairs(j, keys))[k] == j.fields[k]
    decreases |keys|
  {
    if keys != [] {
      var init, last := keys[..|keys| - 1], keys[|keys| - 1];
      CollectedAll(j, init);
      assert Pairs(j, keys)[..|keys| - 1] == Pairs(j, init);
      assert keys == init + [last];
    }
  }

  lemma {:induction false} Collected(j: Json, keys: seq<string>)
    requires j.Obj? && keys == SortedNames(j.fields.Keys)
    ensures (forall k :: k in keys ==> k in j.fields) && Collect(Pairs(j, keys)) == j.fields
  {
    hide SortedNames, Collect;
    assert forall k :: k in keys <==> k in j.fields;
    CollectedAll(j, keys);
  }

  /** Canonical text is JSON that says the value it was written from. */
  lemma {:induction false} ReadsBack(j: Json)
    requires Plain(j)
    ensures ReadValue(Write(j)) == Some((j, ""))
  {
    hide Write, ReadValue, Plain;
    ValueBack(j, "");
    assert Write(j) + "" == Write(j);
  }

  /** The fields of an object stand in the order of their names. */
  lemma {:induction false} FieldsInOrder(j: Json)
    requires j.Obj? && Plain(j) && j.fields != map[]
    ensures
      var r := ReadFields(Write(j)[1..]);
      && r.Some? && |r.value.0| == |j.fields|
      && forall a, b :: 0 <= a < b < |r.value.0| ==> Precedes(r.value.0[a].0, r.value.0[b].0)
  {
    hide Write, ReadFields, Plain, WriteFields, SortedNames, Precedes;
    var keys := SortedNames(j.fields.Keys);
    ObjectText(j, "");
    assert Write(j) + "" == Write(j);
    var k :| k in j.fields;
    assert k in keys;
    FieldsBack(j, keys, "");
    SortedSize(j.fields.Keys);
    forall a, b | 0 <= a < b < |keys| ensures Precedes(keys[a], keys[b]) { NamesInOrder(j.fields.Keys, a, b); }
  }

  lemma {:induction false} SortedSize(s: set<string>)
    ensures |SortedNames(s)| == |s|
  {
    var r := SortedNames(s);
    assert multiset(r) == multiset(s);
    assert |multiset(r)| == |r|;
  }

  // ------------------------------------------------------------------------- ASCII

  ghost predicate Ascii(s: string) { forall i :: 0 <= i < |s| ==> ' ' <= s[i] <= '~' }

  lemma {:induction false} EscapeAscii(s: string)
    ensures Ascii(Escape(s)) && Ascii(Quote(s))
  {
    if s != "" {
      EscapeAscii(s[1..]);
      CharAscii(s[0]);
      hide EscapeChar;
    }
  }

  lemma {:induction false} CharAscii(c: char)
    ensures Ascii(EscapeChar(c))
  {
    EscapeShape(c);
    if Short(c).None? && !(' ' <= c <= '~') {
      if c as int < 0x1_0000 { UnitAscii(c as int); } else { UnitAscii(High(c)); UnitAscii(Low(c)); }
    }
  }

  lemma {:induction false} UnitAscii(n: nat)
    requires n < 0x1_0000
    ensures Ascii(Unicode(n))
  {
  }

  /** Canonical text is printable ASCII. */
  lemma {:induction false} WriteAscii(j: Json)
    requires Plain(j)
    ensures Ascii(Write(j))
    decreases j, 2, 0
  {
    hide Plain, WriteItems, WriteFields, SortedNames, Quote;
    match j {
      case Number(text) => {
        NumberPlain(j);
        PlainNumber(j);
      }
      case Str(str) => EscapeAscii(str);
      case Arr(items) => {
        PlainItems(j);
        ItemsAscii(items);
      }
      case Obj(fields) => FieldsAscii(j, SortedNames(fields.Keys));
      case _ =>
    }
  }

  lemma {:induction false} ItemsAscii(items: seq<Json>)
    requires forall i :: 0 <= i < |items| ==> Plain(items[i])
    ensures Ascii(WriteItems(items))
    decreases items, 1, 0
  {
    hide Plain, Write;
    if items != [] {
      WriteAscii(items[0]);
      if |items| > 1 { ItemsAscii(items[1..]); }
    }
  }

  lemma {:induction false} FieldsAscii(j: Json, keys: seq<string>)
    requires j.Obj? && Plain(j) && forall k :: k in keys ==> k in j.fields
    ensures Ascii(WriteFields(j, keys))
    decreases j, 1, |keys|
  {
    hide Plain, Write, Quote;
    if keys != [] {
      EscapeAscii(keys[0]);
      PlainField(j, keys[0]);
      WriteAscii(j.fields[keys[0]]);
      if |keys| > 1 { FieldsAscii(j, keys[1..]); }
    }
  }
}
