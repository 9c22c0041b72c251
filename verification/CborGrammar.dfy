/** Exactly which byte strings the wire decoder accepts, and as what: the definite-length items
    of RFC 8949 with heads of any width, floats of four or eight bytes, and dict entries of which
    a later one with the same key overwrites an earlier one. */
module CborGrammar {
  import opened Wrappers
  import opened Ordering
  import opened Cbor
  import opened CborTheorems
  import Utf8

  /** A data item as it is spelled. A width is the number of bytes a head's argument takes. */
  datatype Form =
    | Nil
    | Flag(b: bool)
    | Single(four: seq<byte>)
    | Double(eight: seq<byte>)
    | Number(negative: bool, width: nat, n: nat)
    | ByteString(width: nat, data: seq<byte>)
    | TextString(width: nat, s: string)
    | Array(width: nat, items: seq<Form>)
    | Table(width: nat, fields: seq<Field>)

  datatype Field = Field(width: nat, key: string, value: Form)

  predicate Holds(width: nat, n: nat)
  {
    (width == 0 && n <= 23) || ((width == 1 || width == 2 || width == 4 || width == 8) && n < Pow256(width))
  }

  function Spell(major: nat, width: nat, n: nat): (r: seq<byte>)
    requires major < 8 && Holds(width, n)
    ensures |r| == 1 + width
  {
    var info := match width case 0 => n case 1 => 24 case 2 => 25 case 4 => 26 case _ => 27;
    [major * 32 + info] + BigEndian(n, width)
  }

  predicate Valid(f: Form)
  {
    match f
    case Single(four) => |four| == 4
    case Double(eight) => |eight| == 8
    case Number(_, width, n) => Holds(width, n)
    case ByteString(width, data) => Holds(width, |data|)
    case TextString(width, s) => Holds(width, |Utf8.Encode(s)|)
    case Array(width, items) => Holds(width, |items|) && forall i :: 0 <= i < |items| ==> Valid(items[i])
    case Table(width, fields) =>
      && Holds(width, |fields|)
      && forall i :: 0 <= i < |fields| ==>
           Holds(fields[i].width, |Utf8.Encode(fields[i].key)|) && Valid(fields[i].value)
    case _ => true
  }

  predicate ValidItems(items: seq<Form>) { forall i :: 0 <= i < |items| ==> Valid(items[i]) }

  predicate ValidFields(fields: seq<Field>)
  {
    forall i :: 0 <= i < |fields| ==> Holds(fields[i].width, |Utf8.Encode(fields[i].key)|) && Valid(fields[i].value)
  }

  function Emit(f: Form): (r: seq<byte>)
    requires Valid(f)
  {
    match f
    case Nil => [0xF6]
    case Flag(b) => [if b then 0xF5 else 0xF4]
    case Single(four) => [0xFA] + four
    case Double(eight) => [0xFB] + eight
    case Number(negative, width, n) => Spell(if negative then 1 else 0, width, n)
    case ByteString(width, data) => Spell(2, width, |data|) + data
    case TextString(width, s) => EmitText(width, s)
    case Array(width, items) => Spell(4, width, |items|) + EmitItems(items)
    case Table(width, fields) => Spell(5, width, |fields|) + EmitFields(fields)
  }

  function EmitText(width: nat, s: string): seq<byte>
    requires Holds(width, |Utf8.Encode(s)|)
  {
    Spell(3, width, |Utf8.Encode(s)|) + Utf8.Encode(s)
  }

  function EmitItems(items: seq<Form>): seq<byte>
    requires ValidItems(items)
  {
    if items == [] then [] else Emit(items[0]) + EmitItems(items[1..])
  }

  function EmitFields(fields: seq<Field>): seq<byte>
    requires ValidFields(fields)
  {
    if fields == [] then []
    else EmitText(fields[0].width, fields[0].key) + Emit(fields[0].value) + EmitFields(fields[1..])
  }

  // --------------------------------------------------------------------- meaning

  predicate Occurs(raw: seq<Entry>, key: string) { exists i :: 0 <= i < |raw| && raw[i].key == key }

  /** The keys of assignments, each where it first occurs. */
  function FirstKeys(raw: seq<Entry>): (r: seq<string>)
    ensures forall k :: k in r <==> Occurs(raw, k)
  {
    if raw == [] then []
    else
      var init, last := raw[..|raw| - 1], raw[|raw| - 1];
      var keys := FirstKeys(init);
      OccursSnoc(init, last);
      assert raw == init + [last];
      if last.key in keys then keys else keys + [last.key]
  }

  lemma {:induction false} OccursSnoc(raw: seq<Entry>, e: Entry)
    ensures forall k :: Occurs(raw + [e], k) <==> Occurs(raw, k) || k == e.key
  {
    forall k ensures Occurs(raw + [e], k) <==> Occurs(raw, k) || k == e.key {
      var all := raw + [e];
      assert all[|raw|] == e;
      if Occurs(raw, k) {
        var i :| 0 <= i < |raw| && raw[i].key == k;
        assert all[i].key == k;
      }
    }
  }

  /** The value a key was assigned last. */
  function LastValue(raw: seq<Entry>, key: string): Value
    requires Occurs(raw, key)
  {
    if raw[|raw| - 1].key == key then raw[|raw| - 1].value
    else
      OccursSnoc(raw[..|raw| - 1], raw[|raw| - 1]);
      assert raw == raw[..|raw| - 1] + [raw[|raw| - 1]];
      LastValue(raw[..|raw| - 1], key)
  }

  /** The dict that assignments leave: keys in order of first assignment, last values. */
  function Assigned(raw: seq<Entry>): (r: seq<Entry>)
    ensures |r| == |FirstKeys(raw)|
  {
    var keys := FirstKeys(raw);
    seq(|keys|, i requires 0 <= i < |keys| => assert keys[i] in keys; Entry(keys[i], LastValue(raw, keys[i])))
  }

  function Mean(f: Form): Value
    requires Valid(f)
  {
    match f
    case Nil => Null
    case Flag(b) => Bool(b)
    case Single(four) => Float(Widen(four))
    case Double(eight) => Float(eight)
    case Number(negative, _, n) => Int(if negative then -1 - n else n)
    case ByteString(_, data) => List(Ints(data))
    case TextString(_, s) => Text(s)
    case Array(_, items) => List(MeanItems(items))
    case Table(_, fields) => Map(Assigned(MeanFields(fields)))
  }

  function MeanItems(items: seq<Form>): (r: seq<Value>)
    requires ValidItems(items)
    ensures |r| == |items|
  {
    if items == [] then [] else [Mean(items[0])] + MeanItems(items[1..])
  }

  function MeanFields(fields: seq<Field>): (r: seq<Entry>)
    requires ValidFields(fields)
    ensures |r| == |fields|
  {
    if fields == [] then [] else [Entry(fields[0].key, Mean(fields[0].value))] + MeanFields(fields[1..])
  }

  lemma {:induction false} PutAt(es: seq<Entry>, k: string, v: Value, i: nat)
    requires i < |es| && es[i].key == k && forall j :: 0 <= j < i ==> es[j].key != k
    ensures Put(es, k, v) == es[i := Entry(k, v)]
  {
    if i > 0 {
      PutAt(es[1..], k, v, i - 1);
      assert es[i := Entry(k, v)] == [es[0]] + es[1..][i - 1 := Entry(k, v)];
    } else {
      assert es[0 := Entry(k, v)] == [Entry(k, v)] + es[1..];
    }
  }

  lemma {:induction false} FirstKeysDistinct(raw: seq<Entry>)
    ensures forall i, j :: 0 <= i < j < |FirstKeys(raw)| ==> FirstKeys(raw)[i] != FirstKeys(raw)[j]
  {
    if raw != [] { FirstKeysDistinct(raw[..|raw| - 1]); }
  }

  lemma {:induction false} LastValueSnoc(raw: seq<Entry>, e: Entry, key: string)
    requires Occurs(raw + [e], key)
    ensures key == e.key ==> LastValue(raw + [e], key) == e.value
    ensures key != e.key ==> Occurs(raw, key) && LastValue(raw + [e], key) == LastValue(raw, key)
  {
    var all := raw + [e];
    OccursSnoc(raw, e);
    assert all[|raw|] == e && all[..|all| - 1] == raw;
  }

  /** One more assignment is one `result[key] = value`. */
  lemma {:induction false} AssignedSnoc(raw: seq<Entry>, e: Entry)
    ensures Put(Assigned(raw), e.key, e.value) == Assigned(raw + [e])
  {
    hide Put, LastValue, Occurs;
    var all, es, keys := raw + [e], Assigned(raw), FirstKeys(raw);
    FirstKeysSnoc(raw, e);
    FirstKeysDistinct(raw);
    var more := FirstKeys(all);
    forall i | 0 <= i < |more| ensures Assigned(all)[i] == if more[i] == e.key then e else es[i] {
      assert more[i] in more;
      LastValueSnoc(raw, e, more[i]);
    }
    if e.key in keys {
      var i :| 0 <= i < |keys| && keys[i] == e.key;
      PutAt(es, e.key, e.value, i);
      assert es[i := e] == Assigned(all);
    } else {
      PutFresh(es, e.key, e.value);
      assert es + [e] == Assigned(all);
    }
  }

  lemma {:induction false} FirstKeysSnoc(raw: seq<Entry>, e: Entry)
    ensures FirstKeys(raw + [e]) == FirstKeys(raw) + if e.key in FirstKeys(raw) then [] else [e.key]
  {
    var all := raw + [e];
    assert all[|raw|] == e && all[..|all| - 1] == raw;
  }

  // ------------------------------------------------------------- spelled is accepted

  lemma {:induction false} SpellReads(b: seq<byte>, pos: nat, major: nat, width: nat, n: nat)
    requires major < 8 && Holds(width, n) && At(b, pos, Spell(major, width, n))
    ensures b[pos] / 32 == major
    ensures ReadLen(b, pos + 1, b[pos] % 32) == Some((n, pos + 1 + width))
  {
    hide BigEndian, FromBigEndian, Pow256;
    var s := Spell(major, width, n);
    AtSplit(b, pos, s[..1], s[1..]);
    assert s == s[..1] + s[1..];
    assert b[pos..pos + 1][0] == s[0];
    if width > 0 { BigEndianRoundTrip(n, width); }
  }

  lemma {:induction false} SizedReads(b: seq<byte>, pos: nat, major: nat, width: nat, n: nat)
    requires major < 6 && Holds(width, n) && At(b, pos, Spell(major, width, n))
    ensures ReadItem(b, pos) == ReadSized(b, major, n, pos + 1 + width)
  {
    hide ReadSized, ReadSimple, ReadLen, Spell;
    SpellReads(b, pos, major, width, n);
  }

  lemma {:induction false} TextReads(b: seq<byte>, pos: nat, width: nat, s: string)
    requires Holds(width, |Utf8.Encode(s)|) && At(b, pos, EmitText(width, s))
    ensures DecodeAt(b, pos) == Some((Text(s), pos + |EmitText(width, s)|))
  {
    hide DecodeAt, ReadItem, Utf8.Encode, Utf8.Decode, Spell, Holds;
    var u := Utf8.Encode(s);
    AtSplit(b, pos, Spell(3, width, |u|), u);
    SizedReads(b, pos, 3, width, |u|);
    Utf8.DecodeEncode(s);
    WholeStep(b, pos, Text(s), pos + |EmitText(width, s)|);
  }

  lemma {:induction false} LeafReads(f: Form, b: seq<byte>, pos: nat)
    requires Valid(f) && !f.Array? && !f.Table? && At(b, pos, Emit(f))
    ensures DecodeAt(b, pos) == Some((Mean(f), pos + |Emit(f)|))
  {
    hide DecodeAt, ReadLen, Utf8.Encode, Utf8.Decode, Spell, Holds, Widen, ReadItem;
    if f.TextString? {
      TextReads(b, pos, f.width, f.s);
    } else {
      if f.Number? {
        SizedReads(b, pos, if f.negative then 1 else 0, f.width, f.n);
      } else if f.ByteString? {
        AtSplit(b, pos, Spell(2, f.width, |f.data|), f.data);
        SizedReads(b, pos, 2, f.width, |f.data|);
      } else {
        SimpleReads(f, b, pos);
      }
      WholeStep(b, pos, Mean(f), pos + |Emit(f)|);
    }
  }

  lemma {:induction false} SimpleReads(f: Form, b: seq<byte>, pos: nat)
    requires Valid(f) && (f.Nil? || f.Flag? || f.Single? || f.Double?) && At(b, pos, Emit(f))
    ensures ReadItem(b, pos) == Some(Whole(Mean(f), pos + |Emit(f)|))
  {
    hide ReadSized, ReadLen, Widen;
    var e := Emit(f);
    assert b[pos..pos + |e|][0] == e[0];
    match f
    case Single(four) =>
      AtSplit(b, pos, [0xFA], four);
    case Double(eight) =>
      AtSplit(b, pos, [0xFB], eight);
    case _ =>
  }

  lemma {:induction false} ItemsRead(items: seq<Form>, b: seq<byte>, pos: nat)
    requires ValidItems(items) && At(b, pos, EmitItems(items))
    ensures DecodeItems(b, pos, |items|) == Some((MeanItems(items), pos + |EmitItems(items)|))
    decreases items, 1
  {
    hide DecodeAt, Emit, Mean;
    if items != [] {
      var e, rest := Emit(items[0]), EmitItems(items[1..]);
      AtSplit(b, pos, e, rest);
      FormReads(items[0], b, pos);
      ItemsRead(items[1..], b, pos + |e|);
      ItemStep(b, pos, Mean(items[0]), pos + |e|, MeanItems(items[1..]), pos + |e| + |rest|);
    }
  }

  lemma {:induction false} FieldsRead(fields: seq<Field>, b: seq<byte>, pos: nat, raw: seq<Entry>)
    requires ValidFields(fields) && At(b, pos, EmitFields(fields))
    ensures DecodeEntries(b, pos, |fields|, Assigned(raw))
         == Some((Assigned(raw + MeanFields(fields)), pos + |EmitFields(fields)|))
    decreases fields, 1
  {
    hide DecodeAt, DecodeEntries, Emit, EmitText, EmitFields, Mean, MeanFields, Assigned, Holds, Utf8.Encode;
    if fields == [] {
      NoFields(b, pos, raw);
    } else {
      FieldsCons(fields);
      var k, e, rest := EmitText(fields[0].width, fields[0].key), Emit(fields[0].value), EmitFields(fields[1..]);
      var x := Entry(fields[0].key, Mean(fields[0].value));
      AtSplit(b, pos, k + e, rest);
      AtSplit(b, pos, k, e);
      TextReads(b, pos, fields[0].width, fields[0].key);
      FormReads(fields[0].value, b, pos + |k|);
      FieldsRead(fields[1..], b, pos + |k| + |e|, raw + [x]);
      FieldStep(b, pos, |fields|, raw, x, pos + |k|, pos + |k| + |e|);
      assert raw + MeanFields(fields) == raw + [x] + MeanFields(fields[1..]);
    }
  }

  lemma {:induction false} NoFields(b: seq<byte>, pos: nat, raw: seq<Entry>)
    requires pos <= |b|
    ensures DecodeEntries(b, pos, 0, Assigned(raw)) == Some((Assigned(raw + MeanFields([])), pos))
    ensures EmitFields([]) == []
  {
    assert raw + MeanFields([]) == raw;
  }

  lemma {:induction false} FieldsCons(fields: seq<Field>)
    requires fields != [] && ValidFields(fields)
    ensures ValidFields(fields[1..])
    ensures Holds(fields[0].width, |Utf8.Encode(fields[0].key)|) && Valid(fields[0].value)
    ensures EmitFields(fields) ==
      EmitText(fields[0].width, fields[0].key) + Emit(fields[0].value) + EmitFields(fields[1..])
    ensures MeanFields(fields) == [Entry(fields[0].key, Mean(fields[0].value))] + MeanFields(fields[1..])
  {
    hide Emit, EmitText, Mean, Holds, Utf8.Encode;
  }

  lemma {:induction false} FieldStep(b: seq<byte>, pos: nat, n: nat, raw: seq<Entry>, x: Entry, mid: nat, end: nat)
    requires pos <= |b| && n > 0
    requires DecodeAt(b, pos) == Some((Text(x.key), mid)) && DecodeAt(b, mid) == Some((x.value, end))
    ensures DecodeEntries(b, pos, n, Assigned(raw)) == DecodeEntries(b, end, n - 1, Assigned(raw + [x]))
  {
    hide DecodeAt, Assigned, Put;
    AssignedSnoc(raw, x);
  }

  /** Wherever a form is spelled, the decoder reads its meaning and stops at its end. */
  lemma {:induction false} FormReads(f: Form, b: seq<byte>, pos: nat)
    requires Valid(f) && At(b, pos, Emit(f))
    ensures DecodeAt(b, pos) == Some((Mean(f), pos + |Emit(f)|))
    decreases f, 0
  {
    hide DecodeAt, ReadItem, DecodeItems, DecodeEntries, Spell, Holds, Assigned;
    match f
    case Array(width, items) =>
      AtSplit(b, pos, Spell(4, width, |items|), EmitItems(items));
      SizedReads(b, pos, 4, width, |items|);
      ItemsRead(items, b, pos + 1 + width);
      ItemsStep(b, pos, |items|, pos + 1 + width, MeanItems(items), pos + |Emit(f)|);
    case Table(width, fields) => TableReads(f, b, pos);
    case _ => LeafReads(f, b, pos);
  }

  lemma {:induction false} TableReads(f: Form, b: seq<byte>, pos: nat)
    requires f.Table? && Valid(f) && At(b, pos, Emit(f))
    ensures DecodeAt(b, pos) == Some((Mean(f), pos + |Emit(f)|))
    decreases f.fields, 2
  {
    hide DecodeAt, ReadItem, DecodeItems, DecodeEntries, Spell, Holds, Assigned, EmitFields, MeanFields, Emit, Mean,
         Valid;
    var width, fields := f.width, f.fields;
    TableIs(f);
    AtSplit(b, pos, Spell(5, width, |fields|), EmitFields(fields));
    SizedReads(b, pos, 5, width, |fields|);
    NothingAssigned();
    FieldsRead(fields, b, pos + 1 + width, []);
    assert [] + MeanFields(fields) == MeanFields(fields);
    EntriesStep(b, pos, |fields|, pos + 1 + width, Assigned(MeanFields(fields)), pos + |Emit(f)|);
  }

  lemma {:induction false} TableIs(f: Form)
    requires f.Table? && Valid(f)
    ensures Holds(f.width, |f.fields|) && ValidFields(f.fields)
    ensures Emit(f) == Spell(5, f.width, |f.fields|) + EmitFields(f.fields)
    ensures Mean(f) == Map(Assigned(MeanFields(f.fields)))
  {
    hide Spell, EmitFields, MeanFields, Assigned;
  }

  lemma {:induction false} NothingAssigned()
    ensures Assigned([]) == []
  {
  }

  // ------------------------------------------------------------- accepted is spelled

  lemma {:induction false} FromBigEndianBack(x: seq<byte>)
    ensures FromBigEndian(x) < Pow256(|x|) && BigEndian(FromBigEndian(x), |x|) == x
  {
    if x != [] {
      var init := x[..|x| - 1];
      FromBigEndianBack(init);
      assert x == init + [x[|x| - 1]];
    }
  }

  /** What a head that is read was spelled as. */
  lemma {:induction false} ReadSpelled(b: seq<byte>, pos: nat) returns (width: nat)
    requires pos < |b| && ReadLen(b, pos + 1, b[pos] % 32).Some?
    ensures var (n, at) := ReadLen(b, pos + 1, b[pos] % 32).value;
      Holds(width, n) && at == pos + 1 + width && At(b, pos, Spell(b[pos] / 32, width, n))
  {
    var a := b[pos] % 32;
    width := if a <= 23 then 0 else if a == 24 then 1 else if a == 25 then 2 else if a == 26 then 4 else 8;
    var x := b[pos + 1..pos + 1 + width];
    FromBigEndianBack(x);
    hide BigEndian, FromBigEndian, Pow256;
    var n := ReadLen(b, pos + 1, a).value.0;
    assert b[pos..pos + 1 + width] == [b[pos]] + x;
    if width == 0 { NoBytes(n); }
  }

  lemma {:induction false} NoBytes(n: nat)
    ensures BigEndian(n, 0) == []
  {
  }

  lemma {:induction false} AtJoin(b: seq<byte>, pos: nat, x: seq<byte>, y: seq<byte>)
    requires At(b, pos, x) && At(b, pos + |x|, y)
    ensures At(b, pos, x + y)
  {
    assert b[pos..pos + |x + y|] == b[pos..pos + |x|] + b[pos + |x|..pos + |x| + |y|];
  }

  /** `f` is spelled at `pos` up to `end` and means `v`. */
  ghost predicate Spelled(b: seq<byte>, pos: nat, f: Form, v: Value, end: nat)
  {
    Valid(f) && At(b, pos, Emit(f)) && end == pos + |Emit(f)| && v == Mean(f)
  }

  lemma {:induction false} WholeSpelled(b: seq<byte>, pos: nat) returns (f: Form)
    requires pos <= |b| && ReadItem(b, pos).Some? && ReadItem(b, pos).value.Whole?
    ensures Spelled(b, pos, f, ReadItem(b, pos).value.value, ReadItem(b, pos).value.end)
    ensures ReadItem(b, pos).value.value.Text? ==> f.TextString?
  {
    hide ReadLen, Spell, Holds, Utf8.Decode, Utf8.Encode, Widen;
    var major := b[pos] / 32;
    if major == 7 {
      f := SimpleSpelled(b, pos);
    } else {
      var width := ReadSpelled(b, pos);
      var (n, at) := ReadLen(b, pos + 1, b[pos] % 32).value;
      if major < 2 {
        f := Number(major == 1, width, n);
      } else {
        var data := b[at..at + n];
        AtJoin(b, pos, Spell(major, width, n), data);
        f := if major == 2 then ByteString(width, data) else TextString(width, Utf8.Decode(data).value);
      }
    }
  }

  lemma {:induction false} FirstByte(b: seq<byte>, pos: nat, n: nat)
    requires n > 0 && pos + n <= |b|
    ensures b[pos..pos + n] == [b[pos]] + b[pos + 1..pos + n]
  {
  }

  lemma {:induction false} SimpleSpelled(b: seq<byte>, pos: nat) returns (f: Form)
    requires pos < |b| && b[pos] / 32 == 7 && ReadItem(b, pos).Some?
    ensures ReadItem(b, pos).value.Whole? && !ReadItem(b, pos).value.value.Text?
    ensures Spelled(b, pos, f, ReadItem(b, pos).value.value, ReadItem(b, pos).value.end)
  {
    hide ReadLen, Widen;
    var a := b[pos] % 32;
    assert b[pos] == 224 + a;
    if a == 26 {
      f := Single(b[pos + 1..pos + 5]);
      FirstByte(b, pos, 5);
    } else if a == 27 {
      f := Double(b[pos + 1..pos + 9]);
      FirstByte(b, pos, 9);
    } else {
      f := if a == 22 then Nil else Flag(a == 21);
      FirstByte(b, pos, 1);
    }
  }

  lemma {:induction false} ItemsSpelled(b: seq<byte>, pos: nat, n: nat) returns (items: seq<Form>)
    requires pos <= |b| && DecodeItems(b, pos, n).Some?
    ensures |items| == n && ValidItems(items) && At(b, pos, EmitItems(items))
    decreases |b| - pos, 1
  {
    hide DecodeAt, Emit, Mean, Valid;
    items := [];
    if n > 0 {
      var f := DecodedForm(b, pos);
      var rest := ItemsSpelled(b, DecodeAt(b, pos).value.1, n - 1);
      items := [f] + rest;
      assert items[1..] == rest;
      AtJoin(b, pos, Emit(f), EmitItems(rest));
    }
  }

  lemma {:induction false} FieldsSpelled(b: seq<byte>, pos: nat, n: nat, raw: seq<Entry>) returns (fields: seq<Field>)
    requires pos <= |b| && DecodeEntries(b, pos, n, Assigned(raw)).Some?
    ensures |fields| == n && ValidFields(fields) && At(b, pos, EmitFields(fields))
    decreases |b| - pos, 1
  {
    hide DecodeAt, DecodeEntries, Emit, EmitText, EmitFields, Mean, Assigned, Holds, Utf8.Encode, Valid;
    fields := [];
    if n == 0 {
      NoFields(b, pos, raw);
    } else {
      var key, mid, value, end := FieldDecoded(b, pos, n, raw);
      var k := DecodedForm(b, pos);
      TextForm(k);
      var f := DecodedForm(b, mid);
      FieldStep(b, pos, n, raw, Entry(key, value), mid, end);
      var rest := FieldsSpelled(b, end, n - 1, raw + [Entry(key, value)]);
      fields := [Field(k.width, k.s, f)] + rest;
      assert fields[1..] == rest;
      FieldsCons(fields);
      AtJoin(b, pos, EmitText(k.width, k.s), Emit(f));
      AtJoin(b, pos, EmitText(k.width, k.s) + Emit(f), EmitFields(rest));
    }
  }

  lemma {:induction false} FieldDecoded(b: seq<byte>, pos: nat, n: nat, raw: seq<Entry>)
    returns (key: string, mid: nat, value: Value, end: nat)
    requires pos <= |b| && n > 0 && DecodeEntries(b, pos, n, Assigned(raw)).Some?
    ensures DecodeAt(b, pos) == Some((Text(key), mid)) && DecodeAt(b, mid) == Some((value, end))
    ensures pos < mid < end <= |b|
  {
    hide DecodeAt, Assigned;
    key, mid := DecodeAt(b, pos).value.0.s, DecodeAt(b, pos).value.1;
    value, end := DecodeAt(b, mid).value.0, DecodeAt(b, mid).value.1;
  }

  lemma {:induction false} TextForm(k: Form)
    requires Valid(k) && Mean(k).Text?
    ensures k.TextString? && Holds(k.width, |Utf8.Encode(k.s)|)
    ensures Emit(k) == EmitText(k.width, k.s) && Mean(k) == Text(k.s)
  {
    hide Utf8.Encode, Holds, Spell;
  }

  /** Whatever the decoder reads is spelled there. */
  lemma {:induction false} DecodedForm(b: seq<byte>, pos: nat) returns (f: Form)
    requires pos <= |b| && DecodeAt(b, pos).Some?
    ensures Spelled(b, pos, f, DecodeAt(b, pos).value.0, DecodeAt(b, pos).value.1)
    decreases |b| - pos, 0
  {
    hide DecodeItems, DecodeEntries, ReadItem, Spell, Holds, Assigned, Emit, Mean, EmitItems, EmitFields, At;
    var item := ReadItem(b, pos).value;
    if item.Whole? {
      f := WholeSpelled(b, pos);
    } else {
      var width := ListSpelled(b, pos);
      if item.Items? {
        var items := ItemsSpelled(b, item.at, item.count);
        f := Array(width, items);
        AtJoin(b, pos, Spell(4, width, item.count), EmitItems(items));
        ArrayEmitted(width, items);
      } else {
        NothingAssigned();
        var fields := FieldsSpelled(b, item.at, item.count, []);
        f := Table(width, fields);
        AtJoin(b, pos, Spell(5, width, item.count), EmitFields(fields));
        TableEmitted(width, fields);
      }
      FormReads(f, b, pos);
    }
  }

  lemma {:induction false} ArrayEmitted(width: nat, items: seq<Form>)
    requires Holds(width, |items|) && ValidItems(items)
    ensures Valid(Array(width, items)) && Emit(Array(width, items)) == Spell(4, width, |items|) + EmitItems(items)
  {
    hide Holds, Spell;
  }

  lemma {:induction false} TableEmitted(width: nat, fields: seq<Field>)
    requires Holds(width, |fields|) && ValidFields(fields)
    ensures Valid(Table(width, fields)) && Emit(Table(width, fields)) == Spell(5, width, |fields|) + EmitFields(fields)
  {
    hide Holds, Spell, Utf8.Encode;
  }

  lemma {:induction false} ListSpelled(b: seq<byte>, pos: nat) returns (width: nat)
    requires pos <= |b| && ReadItem(b, pos).Some? && !ReadItem(b, pos).value.Whole?
    ensures var item := ReadItem(b, pos).value;
      && Holds(width, item.count) && item.at == pos + 1 + width
      && At(b, pos, Spell(if item.Items? then 4 else 5, width, item.count))
  {
    hide ReadLen, Spell, Holds, Utf8.Decode;
    width := ReadSpelled(b, pos);
  }

  /** The decoder reads a value at a place exactly when some form of it is spelled there. */
  lemma {:induction false} DecodeExactly(b: seq<byte>, pos: nat, v: Value, end: nat)
    requires pos <= |b|
    ensures DecodeAt(b, pos) == Some((v, end)) <==> exists f :: Spelled(b, pos, f, v, end)
  {
    hide DecodeAt, Emit, Mean;
    if DecodeAt(b, pos) == Some((v, end)) {
      var f := DecodedForm(b, pos);
    }
    if exists f :: Spelled(b, pos, f, v, end) {
      var f :| Spelled(b, pos, f, v, end);
      FormReads(f, b, pos);
    }
  }

  // -------------------------------------------------------------------- canonical

  /** The encoder's head is a spelling, and of all spellings of its number the shortest. */
  lemma {:induction false} HeadShortest(major: nat, n: nat, width: nat)
    requires major < 8 && Holds(width, n)
    ensures Holds(Width(n), n) && Head(major, n) == Spell(major, Width(n), n)
    ensures |Head(major, n)| <= |Spell(major, width, n)|
    ensures |Head(major, n)| == |Spell(major, width, n)| ==> Head(major, n) == Spell(major, width, n)
  {
    assert Pow256(1) == 0x100 && Pow256(2) == 0x1_0000 && Pow256(4) == 0x1_0000_0000;
    assert Pow256(8) == TWO64;
    hide Pow256, BigEndian, Head;
    HeadShape(major, n);
  }

  /** The entries of a dict go out, and arrive, by the length of their encoded key and then by its
      first byte that differs. */
  lemma {:induction false} ShorterKeysFirst(es: seq<Entry>, i: nat, j: nat)
    requires InRange(Map(es)) && i < j < |es|
    ensures Norm(Map(es)).Map? && |Norm(Map(es)).entries| == |es|
    ensures
      var sent := Norm(Map(es)).entries;
      var a, b := Encode(Text(sent[i].key)), Encode(Text(sent[j].key));
      |a| < |b| || (|a| == |b| && exists k: nat :: k < |a| && a[..k] == b[..k] && a[k] < b[k])
  {
    hide Encode, EncodeText, NormEntries, Sort, Utf8.Encode, LexLt;
    NormKeepsKeys(es);
    DistinctEntryKeys(NormEntries(es));
    SortAscending(NormEntries(es), EntryKey);
    NormOfMap(es);
    var sent := Norm(Map(es)).entries;
    TextEncoding(sent[i].key);
    TextEncoding(sent[j].key);
    KeyOrder(EncodeText(sent[i].key), EncodeText(sent[j].key));
  }

  lemma {:induction false} TextEncoding(s: string)
    ensures Encode(Text(s)) == EncodeText(s)
  {
  }

  lemma {:induction false} KeyOrder(a: seq<byte>, b: seq<byte>)
    requires LexLt([|a|] + a, [|b|] + b)
    ensures |a| < |b| || (|a| == |b| && exists k: nat :: k < |a| && a[..k] == b[..k] && a[k] < b[k])
  {
    var x, y := [|a|] + a, [|b|] + b;
    var k := LexAt(x, y);
    hide LexLt;
    if k > 0 {
      assert x[..k][0] == y[..k][0];
      assert x[..k][1..] == a[..k - 1] && y[..k][1..] == b[..k - 1];
      assert k < |x|;
    }
  }
}
