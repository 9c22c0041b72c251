/** Canonical JSON text: `json.dumps` with sorted keys, no spaces and ASCII only, and that it tells
    any two values apart. */
module Json {
  import opened Wrappers
  import opened Ordering

  /** JSON data; a number is its text, and `Opaque` stands for anything `json.dumps` refuses. */
  datatype Json =
    | Null
    | Bool(value: bool)
    | Number(text: string)
    | Str(str: string)
    | Arr(items: seq<Json>)
    | Obj(fields: map<string, Json>)
    | Opaque

  // ------------------------------------------------------------------------ strings

  function HexDigit(n: nat): (c: char)
    requires n < 16
  {
    if n < 10 then (n + '0' as int) as char else (n - 10 + 'a' as int) as char
  }

  function Hex4(n: nat): (r: string)
    requires n < 0x1_0000
    ensures |r| == 4
  {
    [HexDigit(n / 16 / 16 / 16), HexDigit(n / 16 / 16 % 16), HexDigit(n / 16 % 16), HexDigit(n % 16)]
  }

  function Unicode(n: nat): string
    requires n < 0x1_0000
  {
    "\\u" + Hex4(n)
  }

  function High(c: char): (n: nat)
    requires c as int >= 0x1_0000
    ensures 0xD800 <= n < 0xDC00
  {
    0xD800 + (c as int - 0x1_0000) / 0x400
  }

  function Low(c: char): (n: nat)
    requires c as int >= 0x1_0000
    ensures 0xDC00 <= n < 0xE000
  {
    0xDC00 + (c as int - 0x1_0000) % 0x400
  }

  function Short(c: char): Option<char>
  {
    if c == '"' then Some('"')
    else if c == '\\' then Some('\\')
    else if c == '\n' then Some('n')
    else if c == '\r' then Some('r')
    else if c == '\t' then Some('t')
    else if c as int == 8 then Some('b')
    else if c as int == 12 then Some('f')
    else None
  }

  function EscapeChar(c: char): (r: string)
    ensures r != "" && r[0] != '"'
  {
    if Short(c).Some? then ['\\', Short(c).value]
    else if ' ' <= c <= '~' then [c]
    else if c as int < 0x1_0000 then Unicode(c as int)
    else Unicode(High(c)) + Unicode(Low(c))
  }

  function Escape(s: string): string { if s == "" then "" else EscapeChar(s[0]) + Escape(s[1..]) }

  function Quote(s: string): string { "\"" + (Escape(s) + "\"") }

  // ------------------------------------------------------------------------- values

  predicate NumberChar(c: char) { '0' <= c <= '9' || c == '-' || c == '+' || c == '.' || c == 'e' || c == 'E' }

  predicate NumberText(s: string)
  {
    s != "" && ('0' <= s[0] <= '9' || s[0] == '-') && forall i :: 0 <= i < |s| ==> NumberChar(s[i])
  }

  /** Data that `json.dumps` accepts. */
  ghost predicate Plain(j: Json)
  {
    match j
    case Number(text) => NumberText(text)
    case Arr(items) => forall i :: 0 <= i < |items| ==> Plain(items[i])
    case Obj(fields) => forall k :: k in fields ==> Plain(fields[k])
    case Opaque => false
    case _ => true
  }

  ghost function Write(j: Json): string
    decreases j, 2, 0
  {
    match j
    case Null => "null"
    case Bool(value) => if value then "true" else "false"
    case Number(text) => text
    case Str(str) => Quote(str)
    case Arr(items) => "[" + (WriteItems(items) + "]")
    case Obj(fields) => "{" + (WriteFields(j, SortedNames(fields.Keys)) + "}")
    case Opaque => ""
  }

  ghost function WriteItems(items: seq<Json>): string
    decreases items, 1, 0
  {
    if items == [] then ""
    else if |items| == 1 then Write(items[0]) else Write(items[0]) + ("," + WriteItems(items[1..]))
  }

  ghost function WriteField(j: Json, key: string): string
    requires j.Obj? && key in j.fields
    decreases j, 0, 0
  {
    Quote(key) + (":" + Write(j.fields[key]))
  }

  ghost function WriteFields(j: Json, keys: seq<string>): string
    requires j.Obj? && forall k :: k in keys ==> k in j.fields
    decreases j, 1, |keys|
  {
    if keys == [] then ""
    else if |keys| == 1 then WriteField(j, keys[0]) else WriteField(j, keys[0]) + ("," + WriteFields(j, keys[1..]))
  }

  // ------------------------------------------------------- strings are told apart

  lemma {:induction false} HexDigitInjective(a: nat, b: nat)
    requires a < 16 && b < 16 && HexDigit(a) == HexDigit(b)
    ensures a == b
  {
  }

  lemma {:induction false} UnicodeSplit(a: nat, b: nat, s: string, t: string)
    requires a < 0x1_0000 && b < 0x1_0000 && Unicode(a) + s == Unicode(b) + t
    ensures a == b && s == t
  {
    hide HexDigit;
    var x, y := Unicode(a) + s, Unicode(b) + t;
    assert x[2] == y[2] && x[3] == y[3] && x[4] == y[4] && x[5] == y[5];
    HexDigitInjective(a / 16 / 16 / 16, b / 16 / 16 / 16);
    HexDigitInjective(a / 16 / 16 % 16, b / 16 / 16 % 16);
    HexDigitInjective(a / 16 % 16, b / 16 % 16);
    HexDigitInjective(a % 16, b % 16);
    assert x[6..] == s && y[6..] == t;
  }

  lemma {:induction false} ShortInjective(c: char, d: char)
    requires Short(c).Some? && Short(c) == Short(d)
    ensures c == d
  {
  }

  lemma {:induction false} ShortIsNotUnicode(c: char)
    ensures Short(c) != Some('u')
  {
  }

  /** One way to be escaped: in two characters, as itself, or as one or two code units. */
  lemma {:induction false} EscapeShape(c: char)
    ensures Short(c).Some? ==> EscapeChar(c) == ['\\', Short(c).value]
    ensures Short(c).None? && ' ' <= c <= '~' ==> EscapeChar(c) == [c] && c != '\\'
    ensures Short(c).None? && !(' ' <= c <= '~') ==>
      EscapeChar(c)[0] == '\\' && |EscapeChar(c)| > 1 && EscapeChar(c)[1] == 'u'
  {
  }

  lemma {:induction false} EscapeCharSplit(c: char, d: char, s: string, t: string)
    requires EscapeChar(c) + s == EscapeChar(d) + t
    ensures c == d && s == t
  {
    hide EscapeChar, Short, Unicode;
    var x, y := EscapeChar(c) + s, EscapeChar(d) + t;
    EscapeShape(c);
    EscapeShape(d);
    assert x[0] == EscapeChar(c)[0] && y[0] == EscapeChar(d)[0];
    if x[0] != '\\' {
      assert x[1..] == s && y[1..] == t;
    } else {
      assert x[1] == EscapeChar(c)[1] && y[1] == EscapeChar(d)[1];
      ShortIsNotUnicode(c);
      ShortIsNotUnicode(d);
      if Short(c).Some? {
        ShortInjective(c, d);
        assert x[2..] == s && y[2..] == t;
      } else {
        UnitsSplit(c, d, s, t);
      }
    }
  }

  /** The code units an escaped character is written as. */
  lemma {:induction false} EscapeUnits(c: char)
    requires Short(c).None? && !(' ' <= c <= '~')
    ensures c as int < 0x1_0000 ==> EscapeChar(c) == Unicode(c as int)
    ensures c as int >= 0x1_0000 ==> EscapeChar(c) == Unicode(High(c)) + Unicode(Low(c))
  {
    hide Unicode, Short;
  }

  lemma {:induction false} UnitsSplit(c: char, d: char, s: string, t: string)
    requires EscapeChar(c) + s == EscapeChar(d) + t
    requires Short(c).None? && Short(d).None? && !(' ' <= c <= '~') && !(' ' <= d <= '~')
    ensures c == d && s == t
  {
    hide EscapeChar, Short, Unicode, High, Low;
    EscapeUnits(c);
    EscapeUnits(d);
    var a, b := c as int, d as int;
    if a < 0x1_0000 && b < 0x1_0000 {
      UnicodeSplit(a, b, s, t);
    } else if a < 0x1_0000 {
      assert EscapeChar(d) + t == Unicode(High(d)) + (Unicode(Low(d)) + t);
      UnicodeSplit(a, High(d), s, Unicode(Low(d)) + t);
    } else if b < 0x1_0000 {
      assert EscapeChar(c) + s == Unicode(High(c)) + (Unicode(Low(c)) + s);
      UnicodeSplit(High(c), b, Unicode(Low(c)) + s, t);
    } else {
      assert EscapeChar(c) + s == Unicode(High(c)) + (Unicode(Low(c)) + s);
      assert EscapeChar(d) + t == Unicode(High(d)) + (Unicode(Low(d)) + t);
      UnicodeSplit(High(c), High(d), Unicode(Low(c)) + s, Unicode(Low(d)) + t);
      UnicodeSplit(Low(c), Low(d), s, t);
      SameUnits(c, d);
    }
  }

  lemma {:induction false} SameUnits(c: char, d: char)
    requires c as int >= 0x1_0000 && d as int >= 0x1_0000 && High(c) == High(d) && Low(c) == Low(d)
    ensures c == d
  {
  }

  lemma {:induction false} Assoc(a: string, b: string, c: string)
    ensures a + b + c == a + (b + c)
  {
  }

  lemma {:induction false} EscapeSplit(a: string, b: string, s: string, t: string)
    requires Escape(a) + ("\"" + s) == Escape(b) + ("\"" + t)
    ensures a == b && s == t
  {
    hide EscapeChar, Escape;
    var x, y := Escape(a) + ("\"" + s), Escape(b) + ("\"" + t);
    EscapeHead(a, s);
    EscapeHead(b, t);
    if a == "" || b == "" {
      assert x[1..] == s && y[1..] == t;
    } else {
      EscapeCharSplit(a[0], b[0], Escape(a[1..]) + ("\"" + s), Escape(b[1..]) + ("\"" + t));
      EscapeSplit(a[1..], b[1..], s, t);
      assert a == [a[0]] + a[1..] && b == [b[0]] + b[1..];
    }
  }

  lemma {:induction false} EscapeHead(a: string, s: string)
    ensures var x := Escape(a) + ("\"" + s);
      && x != "" && (a == "" <==> x[0] == '"') && (a == "" ==> x == "\"" + s)
      && (a != "" ==> x == EscapeChar(a[0]) + (Escape(a[1..]) + ("\"" + s)))
  {
    hide EscapeChar;
    if a != "" {
      Assoc(EscapeChar(a[0]), Escape(a[1..]), "\"" + s);
      assert (Escape(a) + ("\"" + s))[0] == EscapeChar(a[0])[0];
    }
  }

  lemma {:induction false} QuoteSplit(a: string, b: string, s: string, t: string)
    requires Quote(a) + s == Quote(b) + t
    ensures a == b && s == t
  {
    hide Escape;
    var x, y := Quote(a) + s, Quote(b) + t;
    assert x == "\"" + (Escape(a) + ("\"" + s)) && y == "\"" + (Escape(b) + ("\"" + t));
    assert x[1..] == Escape(a) + ("\"" + s) && y[1..] == Escape(b) + ("\"" + t);
    EscapeSplit(a, b, s, t);
  }

  // -------------------------------------------------------- values are told apart

  /** What may follow a value. */
  predicate Delimited(s: string) { s == "" || s[0] == ',' || s[0] == ']' || s[0] == '}' }

  /** The first character says what kind of value it is. */
  function Kind(c: char): nat
  {
    if c == 'n' then 0 else if c == 't' then 1 else if c == 'f' then 2 else if c == '"' then 3 else if c == '[' then 4
    else if c == '{' then 5 else if '0' <= c <= '9' || c == '-' then 6 else 7
  }

  function KindOf(j: Json): nat
  {
    match j
    case Null => 0
    case Bool(value) => if value then 1 else 2
    case Number(_) => 6
    case Str(_) => 3
    case Arr(_) => 4
    case Obj(_) => 5
    case Opaque => 7
  }

  lemma {:induction false} WriteKind(j: Json)
    requires Plain(j)
    ensures Write(j) != "" && Kind(Write(j)[0]) == KindOf(j) < 7
  {
  }

  function NumberRun(s: string): nat { if s == "" || !NumberChar(s[0]) then 0 else 1 + NumberRun(s[1..]) }

  lemma {:induction false} NumberRunIs(a: string, s: string)
    requires (forall i :: 0 <= i < |a| ==> NumberChar(a[i])) && Delimited(s)
    ensures NumberRun(a + s) == |a|
  {
    if a == "" {
      assert a + s == s;
    } else {
      assert (a + s)[1..] == a[1..] + s;
      NumberRunIs(a[1..], s);
    }
  }

  lemma {:induction false} NumberSplit(a: string, b: string, s: string, t: string)
    requires (forall i :: 0 <= i < |a| ==> NumberChar(a[i])) && (forall i :: 0 <= i < |b| ==> NumberChar(b[i]))
    requires Delimited(s) && Delimited(t) && a + s == b + t
    ensures a == b && s == t
  {
    hide NumberRun, NumberChar;
    NumberRunIs(a, s);
    NumberRunIs(b, t);
    assert (a + s)[..|a|] == a && (b + t)[..|b|] == b && (a + s)[|a|..] == s && (b + t)[|b|..] == t;
  }

  lemma {:induction false} WriteSplit(a: Json, b: Json, s: string, t: string)
    requires Plain(a) && Plain(b) && Delimited(s) && Delimited(t) && Write(a) + s == Write(b) + t
    ensures a == b && s == t
    decreases a, 2, 0
  {
    hide WriteItems, WriteFields, Quote, Plain, NumberText, SortedNames;
    var x, y := Write(a) + s, Write(b) + t;
    WriteKind(a);
    WriteKind(b);
    assert x[0] == Write(a)[0] && y[0] == Write(b)[0];
    match a {
      case Null => assert x[4..] == s && y[4..] == t;
      case Bool(value) => if value { assert x[4..] == s && y[4..] == t; } else { assert x[5..] == s && y[5..] == t; }
      case Str(str) => QuoteSplit(str, b.str, s, t);
      case Number(text) => {
        PlainNumber(a);
        PlainNumber(b);
        NumberSplit(text, b.text, s, t);
      }
      case Arr(items) => {
        Unbracket("[", WriteItems(items), WriteItems(b.items), "]", s, t);
        ItemsSplit(items, b.items, s, t) by { PlainItems(a); PlainItems(b); }
      }
      case Obj(fields) => {
        var ks, ls := SortedNames(fields.Keys), SortedNames(b.fields.Keys);
        Unbracket("{", WriteFields(a, ks), WriteFields(b, ls), "}", s, t);
        FieldsSplit(a, b, ks, ls, s, t);
        SameFields(a, b);
      }
      case Opaque =>
    }
  }

  lemma {:induction false} Unbracket(open: string, p: string, q: string, close: string, s: string, t: string)
    requires |open| == 1 && open + (p + close) + s == open + (q + close) + t
    ensures p + (close + s) == q + (close + t)
  {
    var x, y := open + (p + close) + s, open + (q + close) + t;
    assert x[1..] == p + (close + s) && y[1..] == q + (close + t);
  }

  lemma {:induction false} PlainNumber(j: Json)
    requires Plain(j) && j.Number?
    ensures forall i :: 0 <= i < |j.text| ==> NumberChar(j.text[i])
  {
    hide NumberChar;
  }

  lemma {:induction false} PlainItems(j: Json)
    requires Plain(j) && j.Arr?
    ensures forall i :: 0 <= i < |j.items| ==> Plain(j.items[i])
  {
  }

  lemma {:induction false} PlainField(j: Json, key: string)
    requires Plain(j) && j.Obj? && key in j.fields
    ensures Plain(j.fields[key])
  {
  }

  lemma {:induction false} ItemsSplit(a: seq<Json>, b: seq<Json>, s: string, t: string)
    requires (forall i :: 0 <= i < |a| ==> Plain(a[i])) && (forall i :: 0 <= i < |b| ==> Plain(b[i]))
    requires WriteItems(a) + ("]" + s) == WriteItems(b) + ("]" + t)
    ensures a == b && s == t
    decreases a, 1, 0
  {
    hide Write, Plain;
    var x, y := WriteItems(a) + ("]" + s), WriteItems(b) + ("]" + t);
    ItemsHead(a, s);
    ItemsHead(b, t);
    if a == [] || b == [] {
      assert x[1..] == s && y[1..] == t;
    } else {
      var p, q := ItemsTail(a, s), ItemsTail(b, t);
      WriteSplit(a[0], b[0], p, q);
      if |a| == 1 || |b| == 1 {
        assert p[0] == q[0];
        assert p[1..] == s && q[1..] == t;
        assert a == [a[0]] && b == [b[0]];
      } else {
        assert p[1..] == WriteItems(a[1..]) + ("]" + s) && q[1..] == WriteItems(b[1..]) + ("]" + t);
        ItemsSplit(a[1..], b[1..], s, t);
        assert a == [a[0]] + a[1..] && b == [b[0]] + b[1..];
      }
    }
  }

  /** What follows the first item of an array. */
  ghost function ItemsTail(items: seq<Json>, s: string): (r: string)
    requires items != []
    ensures r != "" && Delimited(r) && r[0] == if |items| == 1 then ']' else ','
  {
    if |items| == 1 then "]" + s else "," + (WriteItems(items[1..]) + ("]" + s))
  }

  lemma {:induction false} ItemsHead(items: seq<Json>, s: string)
    requires forall i :: 0 <= i < |items| ==> Plain(items[i])
    ensures var x := WriteItems(items) + ("]" + s);
      && x != "" && (items == [] <==> x[0] == ']')
      && (items != [] ==> x == Write(items[0]) + ItemsTail(items, s))
  {
    hide Write, Plain;
    if items != [] {
      WriteKind(items[0]);
      if |items| > 1 {
        Assoc(Write(items[0]), "," + WriteItems(items[1..]), "]" + s);
        Assoc(",", WriteItems(items[1..]), "]" + s);
      }
    }
  }

  /** What follows the first field of an object. */
  ghost function FieldsTail(j: Json, keys: seq<string>, s: string): (r: string)
    requires keys != [] && j.Obj? && forall k :: k in keys ==> k in j.fields
    ensures r != "" && Delimited(r) && r[0] == if |keys| == 1 then '}' else ','
  {
    if |keys| == 1 then "}" + s else "," + (WriteFields(j, keys[1..]) + ("}" + s))
  }

  lemma {:induction false} FieldsHead(j: Json, keys: seq<string>, s: string)
    requires j.Obj? && forall k :: k in keys ==> k in j.fields
    ensures var x := WriteFields(j, keys) + ("}" + s);
      && x != "" && (keys == [] <==> x[0] == '}')
      && (keys != [] ==> x == Quote(keys[0]) + (":" + (Write(j.fields[keys[0]]) + FieldsTail(j, keys, s))))
  {
    hide Write, Escape;
    if keys != [] {
      var f, q, w := WriteField(j, keys[0]), Quote(keys[0]), Write(j.fields[keys[0]]);
      var r := FieldsTail(j, keys, s);
      if |keys| > 1 {
        Assoc(f, "," + WriteFields(j, keys[1..]), "}" + s);
        Assoc(",", WriteFields(j, keys[1..]), "}" + s);
      }
      assert WriteFields(j, keys) + ("}" + s) == f + r;
      Assoc(q, ":" + w, r);
      Assoc(":", w, r);
      assert q[0] == '"';
    }
  }

  lemma {:induction false} FieldsSplit(a: Json, b: Json, ks: seq<string>, ls: seq<string>, s: string, t: string)
    requires a.Obj? && b.Obj? && Plain(a) && Plain(b)
    requires (forall k :: k in ks ==> k in a.fields) && (forall k :: k in ls ==> k in b.fields)
    requires WriteFields(a, ks) + ("}" + s) == WriteFields(b, ls) + ("}" + t)
    ensures ks == ls && s == t && forall k :: k in ks && k in a.fields && k in b.fields ==> a.fields[k] == b.fields[k]
    decreases a, 1, |ks|
  {
    hide Write, Plain, Quote, WriteFields;
    var x, y := WriteFields(a, ks) + ("}" + s), WriteFields(b, ls) + ("}" + t);
    FieldsHead(a, ks, s);
    FieldsHead(b, ls, t);
    if ks == [] || ls == [] {
      NoFields(a);
      NoFields(b);
      assert x[1..] == s && y[1..] == t;
    } else {
      var p, q := FieldsTail(a, ks, s), FieldsTail(b, ls, t);
      var v, w := Write(a.fields[ks[0]]), Write(b.fields[ls[0]]);
      QuoteSplit(ks[0], ls[0], ":" + (v + p), ":" + (w + q));
      assert (":" + (v + p))[1..] == v + p && (":" + (w + q))[1..] == w + q;
      PlainField(a, ks[0]);
      PlainField(b, ls[0]);
      WriteSplit(a.fields[ks[0]], b.fields[ls[0]], p, q);
      if |ks| == 1 || |ls| == 1 {
        assert p[0] == q[0];
        assert p[1..] == s && q[1..] == t;
        assert ks == [ks[0]] && ls == [ls[0]];
      } else {
        assert p[1..] == WriteFields(a, ks[1..]) + ("}" + s) && q[1..] == WriteFields(b, ls[1..]) + ("}" + t);
        FieldsSplit(a, b, ks[1..], ls[1..], s, t);
        assert ks == [ks[0]] + ks[1..] && ls == [ls[0]] + ls[1..];
      }
    }
  }

  lemma {:induction false} NoFields(j: Json)
    requires j.Obj?
    ensures WriteFields(j, []) == ""
  {
  }

  lemma {:induction false} SameFields(a: Json, b: Json)
    requires a.Obj? && b.Obj? && SortedNames(a.fields.Keys) == SortedNames(b.fields.Keys)
    requires forall k :: k in SortedNames(a.fields.Keys) && k in a.fields && k in b.fields ==>
      a.fields[k] == b.fields[k]
    ensures a == b
  {
    hide SortedNames, Ascending;
    assert forall k :: k in a.fields.Keys <==> k in SortedNames(a.fields.Keys);
    assert forall k :: k in b.fields.Keys <==> k in SortedNames(b.fields.Keys);
    assert a.fields.Keys == b.fields.Keys;
    assert a.fields == b.fields;
  }

  /** Canonical text tells data apart. */
  lemma {:induction false} WriteInjective(a: Json, b: Json)
    requires Plain(a) && Plain(b) && Write(a) == Write(b)
    ensures a == b
  {
    hide Write, Plain;
    assert Write(a) + "" == Write(a) && Write(b) + "" == Write(b);
    WriteSplit(a, b, "", "");
  }

  // ------------------------------------------------------------------------- writer

  /** `json.dumps(value, sort_keys=True, separators=(",", ":"))`, or nothing when it raises. */
  method Dumps(j: Json) returns (r: Option<string>)
    ensures r.Some? <==> Plain(j)
    ensures r.Some? ==> r.value == Write(j)
    decreases j, 1
  {
    match j {
      case Null => r := Some("null");
      case Bool(value) => r := Some(if value then "true" else "false");
      case Number(text) => r := if NumberText(text) then Some(text) else None;
      case Str(str) => r := Some(Quote(str));
      case Arr(items) => r := DumpItems(j);
      case Obj(fields) => r := DumpFields(j);
      case Opaque => r := None;
    }
  }

  method DumpItems(j: Json) returns (r: Option<string>)
    requires j.Arr?
    ensures r.Some? <==> Plain(j)
    ensures r.Some? ==> r.value == Write(j)
    decreases j, 0
  {
    hide Write, Plain;
    var items := j.items;
    PlainArr(j);
    var text, i := "", |items|;
    NoItems(items[i..]);
    while i > 0
      invariant 0 <= i <= |items| && text == WriteItems(items[i..])
      invariant forall k :: i <= k < |items| ==> Plain(items[k])
    {
      i := i - 1;
      var item := Dumps(items[i]);
      if item.None? { return None; }
      assert items[i..][1..] == items[i + 1..];
      ItemsStep(items[i..]);
      text := if i == |items| - 1 then item.value else item.value + ("," + text);
    }
    assert items[0..] == items;
    r := Some("[" + (text + "]"));
  }

  lemma {:induction false} PlainArr(j: Json)
    requires j.Arr?
    ensures Plain(j) <==> forall i :: 0 <= i < |j.items| ==> Plain(j.items[i])
    ensures Write(j) == "[" + (WriteItems(j.items) + "]")
  {
    hide WriteItems;
  }

  lemma {:induction false} NoItems(items: seq<Json>)
    requires items == []
    ensures WriteItems(items) == ""
  {
  }

  lemma {:induction false} ItemsStep(items: seq<Json>)
    requires items != []
    ensures WriteItems(items) == if |items| ==
      1 then Write(items[0]) else Write(items[0]) + ("," + WriteItems(items[1..]))
  {
    hide Write;
  }

  method DumpFields(j: Json) returns (r: Option<string>)
    requires j.Obj?
    ensures r.Some? <==> Plain(j)
    ensures r.Some? ==> r.value == Write(j)
    decreases j, 0
  {
    hide Write, Plain, SortedNames, Quote, WriteFields, Ascending;
    PlainObj(j);
    var keys := SortNames(j.fields.Keys);
    var text, i := "", |keys|;
    NoFields(j);
    assert keys[i..] == [];
    while i > 0
      invariant 0 <= i <= |keys| && text == WriteFields(j, keys[i..])
      invariant forall k :: i <= k < |keys| ==> Plain(j.fields[keys[k]])
    {
      i := i - 1;
      assert keys[i] in keys;
      var value := Dumps(j.fields[keys[i]]);
      if value.None? { return None; }
      assert keys[i..][1..] == keys[i + 1..];
      FieldsStep(j, keys[i..]);
      var field := Quote(keys[i]) + (":" + value.value);
      text := if i == |keys| - 1 then field else field + ("," + text);
    }
    assert keys[0..] == keys;
    forall k | k in j.fields ensures Plain(j.fields[k]) { assert k in keys; }
    r := Some("{" + (text + "}"));
  }

  lemma {:induction false} PlainObj(j: Json)
    requires j.Obj?
    ensures Plain(j) <==> forall k :: k in j.fields ==> Plain(j.fields[k])
    ensures Write(j) == "{" + (WriteFields(j, SortedNames(j.fields.Keys)) + "}")
  {
    hide WriteFields, SortedNames;
  }

  lemma {:induction false} FieldsStep(j: Json, keys: seq<string>)
    requires j.Obj? && keys != [] && forall k :: k in keys ==> k in j.fields
    ensures var field := Quote(keys[0]) + (":" + Write(j.fields[keys[0]]));
      WriteFields(j, keys) == if |keys| == 1 then field else field + ("," + WriteFields(j, keys[1..]))
  {
    hide Write, Quote;
  }
}
