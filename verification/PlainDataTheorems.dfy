/** Admission is exactly being a witness of a plain tree, and observing refuses sharing. */
module PlainDataTheorems {
  import opened Wrappers
  import opened Ordering
  import opened PyHeap
  import opened PlainData
  import C = Cbor
  import Decimal
  import Envelope

  // ------------------------------------------------------------- comparing records

  lemma {:induction false} EqualField(a: C.Value, b: C.Value, loose: bool, i: nat)
    requires a.Map? && Equal(a, b, loose) && i < |a.entries|
    ensures b.Map? && |b.entries| == |a.entries|
    ensures Envelope.Field(b, a.entries[i].key).Some?
    ensures Equal(a.entries[i].value, Envelope.Field(b, a.entries[i].key).value, loose)
  {
    hide Envelope.Field;
  }

  lemma {:induction false} EqualText(s: string, b: C.Value, loose: bool)
    ensures Equal(C.Text(s), b, loose) <==> b == C.Text(s)
  {
  }

  lemma {:induction false} EqualTagged(tag: string, v: C.Value, w: C.Value, loose: bool)
    ensures Equal(Tagged(tag, v), w, loose) <==> HasTag(w, tag) && Equal(v, Body(w), loose)
  {
    hide Envelope.Field;
    var a := Tagged(tag, v);
    assert a.entries[0] == C.Entry("t", C.Text(tag)) && a.entries[1] == C.Entry("v", v);
    if Equal(a, w, loose) {
      EqualField(a, w, loose, 0);
      EqualField(a, w, loose, 1);
    }
    if Envelope.Field(w, "t").Some? { EqualText(tag, Envelope.Field(w, "t").value, loose); }
  }

  lemma {:induction false} EqualPair(k: string, v: C.Value, l: string, x: C.Value, w: C.Value, loose: bool)
    ensures Equal(C.Map([C.Entry(k, v), C.Entry(l, x)]), w, loose) <==>
      Keys2(w, k, l) && Equal(v, Envelope.Field(w, k).value, loose) && Equal(x, Envelope.Field(w, l).value, loose)
  {
    hide Envelope.Field;
    var a := C.Map([C.Entry(k, v), C.Entry(l, x)]);
    assert a.entries[0] == C.Entry(k, v) && a.entries[1] == C.Entry(l, x);
    if Equal(a, w, loose) {
      EqualField(a, w, loose, 0);
      EqualField(a, w, loose, 1);
    }
  }

  lemma {:induction false} EqualTriple(k: string, v: C.Value, l: string, x: C.Value, m: string, y: C.Value, w: C.Value,
                                       loose: bool)
    ensures Equal(C.Map([C.Entry(k, v), C.Entry(l, x), C.Entry(m, y)]), w, loose) <==>
      && Keys3(w, k, l, m) && Equal(v, Envelope.Field(w, k).value, loose)
      && Equal(x, Envelope.Field(w, l).value, loose) && Equal(y, Envelope.Field(w, m).value, loose)
  {
    hide Envelope.Field;
    var a := C.Map([C.Entry(k, v), C.Entry(l, x), C.Entry(m, y)]);
    assert a.entries[0] == C.Entry(k, v) && a.entries[1] == C.Entry(l, x) && a.entries[2] == C.Entry(m, y);
    if Equal(a, w, loose) {
      EqualField(a, w, loose, 0);
      EqualField(a, w, loose, 1);
      EqualField(a, w, loose, 2);
    }
  }

  lemma {:induction false} EqualBits(bits: seq<byte>, x: C.Value)
    ensures Equal(C.List(C.Ints(bits)), x, true) <==> x.List? && AsBytes(Some(x)) == Some(bits)
  {
    if x.List? && |x.items| == |bits| {
      forall i | 0 <= i < |bits|
        ensures Equal(C.Int(bits[i]), x.items[i], true) <==> IsByte(x.items[i]) && AsByte(x.items[i]) == bits[i] { }
      if AsBytes(Some(x)) == Some(bits) {
        forall i | 0 <= i < |bits| ensures AsByte(x.items[i]) == bits[i] {
          assert AsBytes(Some(x)).value[i] == bits[i];
        }
      }
      if Equal(C.List(C.Ints(bits)), x, true) {
        assert forall i :: 0 <= i < |bits| ==> Equal(C.Ints(bits)[i], x.items[i], true);
        assert AsBytes(Some(x)).value == bits;
      }
    }
  }

  // ------------------------------------------------------ admitted means carried

  lemma {:induction false} LeafEqual(t: Tree, w: C.Value)
    requires !t.ListOf? && !t.MapOf? && !t.Bool?
    ensures Equal(WireOf(t), w, true) <==> Carries(t, w)
  {
    hide Envelope.Field, Equal, AsBytes, Decimal.Format;
    match t
    case Null => EqualNull(w, true);
    case Int(n) =>
      var text := Decimal.Format(n);
      EqualTagged("number", IntRecord(text), w, true);
      if HasTag(w, "number") { IntBody(text, Body(w), true); }
    case Float(bits) =>
      EqualTagged("number", FloatRecord(C.List(C.Ints(bits))), w, true);
      if HasTag(w, "number") { FloatBody(bits, Body(w)); }
    case Text(s) =>
      EqualTagged("text", TextRecord(s), w, true);
      if HasTag(w, "text") { TextBody(s, Body(w), true); }
  }

  lemma {:induction false} EqualNull(w: C.Value, loose: bool)
    ensures Equal(WireOf(Null), w, loose) <==> Carries(Null, w)
  {
    hide Envelope.Field;
    var a := WireOf(Null);
    assert a.entries[0] == C.Entry("t", C.Text("null"));
    if Equal(a, w, loose) { EqualField(a, w, loose, 0); }
  }

  lemma {:induction false} IntBody(text: string, m: C.Value, loose: bool)
    ensures Equal(IntRecord(text), m, loose) <==>
      && Keys2(m, "kind", "v") && Envelope.IsText(Envelope.Field(m, "kind"), "int")
      && Envelope.IsText(Envelope.Field(m, "v"), text)
  {
    hide Envelope.Field, Equal;
    EqualPair("kind", C.Text("int"), "v", C.Text(text), m, loose);
    if Keys2(m, "kind", "v") {
      EqualText("int", Envelope.Field(m, "kind").value, loose);
      EqualText(text, Envelope.Field(m, "v").value, loose);
    }
  }

  lemma {:induction false} TextBody(s: string, m: C.Value, loose: bool)
    ensures Equal(TextRecord(s), m, loose) <==>
      && Keys2(m, "utf8", "encoding") && Envelope.IsText(Envelope.Field(m, "utf8"), s)
      && Envelope.IsText(Envelope.Field(m, "encoding"), "utf-8")
  {
    hide Envelope.Field, Equal;
    EqualPair("utf8", C.Text(s), "encoding", C.Text("utf-8"), m, loose);
    if Keys2(m, "utf8", "encoding") {
      EqualText(s, Envelope.Field(m, "utf8").value, loose);
      EqualText("utf-8", Envelope.Field(m, "encoding").value, loose);
    }
  }

  lemma {:induction false} FloatBody(bits: seq<byte>, m: C.Value)
    ensures Equal(FloatRecord(C.List(C.Ints(bits))), m, true) <==>
      && Keys3(m, "kind", "format", "bits") && Envelope.IsText(Envelope.Field(m, "kind"), "binary_float")
      && Envelope.IsText(Envelope.Field(m, "format"), "f64")
      && Envelope.Field(m, "bits").value.List? && AsBytes(Envelope.Field(m, "bits")) == Some(bits)
  {
    hide Envelope.Field, Equal, AsBytes;
    EqualTriple("kind", C.Text("binary_float"), "format", C.Text("f64"), "bits", C.List(C.Ints(bits)), m, true);
    if Keys3(m, "kind", "format", "bits") {
      EqualText("binary_float", Envelope.Field(m, "kind").value, true);
      EqualText("f64", Envelope.Field(m, "format").value, true);
      EqualBits(bits, Envelope.Field(m, "bits").value);
    }
  }

  lemma {:induction false} InputItemAt(ws: seq<C.Value>, d: nat, i: nat)
    requires InputItems(ws, d).Some? && i < |ws|
    ensures Input(ws[i], d) == Some(InputItems(ws, d).value[i])
  {
    hide Input;
    if i > 0 { InputItemAt(ws[1..], d, i - 1); }
  }

  lemma {:induction false} InputPairAt(fs: seq<C.Entry>, d: nat, i: nat)
    requires InputPairs(fs, d).Some? && i < |fs|
    ensures InputPairs(fs, d).value[i].key == fs[i].key
    ensures Input(fs[i].value, d) == Some(InputPairs(fs, d).value[i].value)
  {
    hide Input;
    if i > 0 { InputPairAt(fs[1..], d, i - 1); }
  }

  lemma {:induction false} InputAllItems(ws: seq<C.Value>, d: nat, ts: seq<Tree>)
    requires |ws| == |ts| && forall i :: 0 <= i < |ws| ==> Input(ws[i], d) == Some(ts[i])
    ensures InputItems(ws, d) == Some(ts)
  {
    hide Input;
    if ws != [] {
      InputAllItems(ws[1..], d, ts[1..]);
      assert ts == [ts[0]] + ts[1..];
    }
  }

  lemma {:induction false} InputAllPairs(fs: seq<C.Entry>, d: nat, es: seq<Pair>)
    requires |fs| == |es|
    requires forall i :: 0 <= i < |fs| ==> fs[i].key == es[i].key && Input(fs[i].value, d) == Some(es[i].value)
    ensures InputPairs(fs, d) == Some(es)
  {
    hide Input;
    if fs != [] {
      InputAllPairs(fs[1..], d, es[1..]);
      assert es == [es[0]] + es[1..];
    }
  }

  // What conversion yields, by tag.

  lemma {:induction false} InputOfList(w: C.Value, d: nat, t: Tree)
    requires HasTag(w, "list") && Body(w).List? && Input(w, d) == Some(t)
    ensures t.ListOf? && InputItems(Body(w).items, d + 1) == Some(t.items)
  {
    hide Envelope.Field, InputItems, Plain, Within;
  }

  lemma {:induction false} InputOfMap(w: C.Value, d: nat, t: Tree)
    requires HasTag(w, "map") && Body(w).Map? && Input(w, d) == Some(t)
    ensures t.MapOf? && InputPairs(Body(w).entries, d + 1) == Some(t.entries) && DistinctPairs(t.entries)
  {
    hide Envelope.Field, InputPairs, Within;
  }

  lemma {:induction false} InputOfBool(w: C.Value, d: nat, t: Tree)
    requires HasTag(w, "bool") && Input(w, d) == Some(t)
    ensures t.Bool? && Body(w) == C.Bool(t.b)
  {
    hide Envelope.Field, Plain, Within;
  }

  lemma {:induction false} ItemsSmaller(w: C.Value, i: nat)
    requires Keys2(w, "t", "v") && Body(w).List? && i < |Body(w).items|
    ensures Body(w).items[i] < w
  {
    FieldSmaller(w, "v");
  }

  lemma {:induction false} ValuesSmaller(w: C.Value, i: nat)
    requires Keys2(w, "t", "v") && Body(w).Map? && i < |Body(w).entries|
    ensures Body(w).entries[i].value < w
  {
    FieldSmaller(w, "v");
  }

  /** Whatever passes the input law spells out the tree it is converted to. */
  lemma {:induction false} AdmittedCarries(w: C.Value, d: nat, t: Tree)
    requires Input(w, d) == Some(t) && Equal(WireOf(t), w, true)
    ensures Carries(t, w)
    decreases w
  {
    hide Input, Envelope.Field, InputItems, InputPairs, HasTag, Keys2;
    match t
    case Bool(b) =>
      EqualTagged("bool", C.Bool(b), w, true);
      InputOfBool(w, d, t);
    case ListOf(items) =>
      EqualTagged("list", C.List(WireItems(items)), w, true);
      TagIsKeys(w, "list");
      InputOfList(w, d, t);
      forall i | 0 <= i < |items| ensures Carries(items[i], Body(w).items[i]) {
        InputItemAt(Body(w).items, d + 1, i);
        ItemsSmaller(w, i);
        assert Equal(WireItems(items)[i], Body(w).items[i], true);
        AdmittedCarries(Body(w).items[i], d + 1, items[i]);
      }
    case MapOf(es) =>
      EqualTagged("map", C.Map(WirePairs(es)), w, true);
      TagIsKeys(w, "map");
      InputOfMap(w, d, t);
      forall i | 0 <= i < |es|
        ensures Body(w).entries[i].key == es[i].key && Carries(es[i].value, Body(w).entries[i].value)
      {
        InputPairAt(Body(w).entries, d + 1, i);
        ValuesSmaller(w, i);
        PairEqual(es, Body(w), d + 1, i, true);
        AdmittedCarries(Body(w).entries[i].value, d + 1, es[i].value);
      }
    case _ => LeafEqual(t, w);
  }

  lemma {:induction false} TagIsKeys(w: C.Value, tag: string)
    requires HasTag(w, tag)
    ensures Keys2(w, "t", "v")
  {
  }

  lemma {:induction false} PairEqual(es: seq<Pair>, m: C.Value, d: nat, i: nat, loose: bool)
    requires m.Map? && InputPairs(m.entries, d) == Some(es) && DistinctPairs(es) && i < |es|
    requires Equal(C.Map(WirePairs(es)), m, loose)
    ensures Equal(WireOf(es[i].value), m.entries[i].value, loose)
  {
    hide Input, WireOf;
    forall j | 0 <= j < |es| ensures m.entries[j].key == es[j].key { InputPairAt(m.entries, d, j); }
    hide InputPairs;
    Envelope.LookupAt(m.entries, i);
    EqualField(C.Map(WirePairs(es)), m, loose, i);
  }

  // ------------------------------------------------------ carried means admitted

  lemma {:induction false} WithinLower(t: Tree, d: nat, e: nat)
    requires Within(t, d) && e <= d
    ensures Within(t, e)
  {
    match t
    case ListOf(items) =>
      forall i | 0 <= i < |items| ensures Within(items[i], e + 1) { WithinLower(items[i], d + 1, e + 1); }
    case MapOf(es) =>
      forall i | 0 <= i < |es| ensures Within(es[i].value, e + 1) { WithinLower(es[i].value, d + 1, e + 1); }
    case _ =>
  }

  lemma {:induction false} CarriedLeafShape(t: Tree, w: C.Value, d: nat)
    requires Carries(t, w) && d <= MAX_DEPTH && !t.ListOf? && !t.MapOf?
    requires t.Float? ==> |t.bits| == 8
    ensures InputShape(w, d) == Some(t)
  {
    hide Envelope.Field, AsBytes, Decimal.Format, Decimal.Parse, InputItems, InputPairs;
    if t.Int? { Decimal.ParseFormat(t.n); }
  }

  lemma {:induction false} CarriedListShape(items: seq<Tree>, w: C.Value, d: nat)
    requires HasTag(w, "list") && Body(w).List? && d <= MAX_DEPTH && InputItems(Body(w).items, d + 1) == Some(items)
    ensures InputShape(w, d) == Some(ListOf(items))
  {
    hide Envelope.Field, InputItems, InputPairs;
  }

  lemma {:induction false} CarriedMapShape(es: seq<Pair>, w: C.Value, d: nat)
    requires HasTag(w, "map") && Body(w).Map? && d <= MAX_DEPTH && InputPairs(Body(w).entries, d + 1) == Some(es)
    ensures InputShape(w, d) == Some(MapOf(es))
  {
    hide Envelope.Field, InputItems, InputPairs;
  }

  /** Every spelling of a plain tree within the depth limit passes the input law. */
  lemma {:induction false} CarriedAdmits(t: Tree, w: C.Value, d: nat)
    requires Carries(t, w) && Plain(t) && Within(t, d)
    ensures Input(w, d) == Some(t) && Equal(WireOf(t), w, true)
    decreases t
  {
    hide Input, InputShape, InputItems, InputPairs, Envelope.Field, HasTag, Keys2, Equal, WireOf, AsBytes,
         Decimal.Format;
    WithinLower(t, d, 0);
    match t
    case ListOf(items) =>
      TagIsKeys(w, "list");
      var ws := Body(w).items;
      forall i | 0 <= i < |items|
        ensures Input(ws[i], d + 1) == Some(items[i]) && Equal(WireOf(items[i]), ws[i], true)
      {
        CarriedAdmits(items[i], ws[i], d + 1);
      }
      CarriedList(items, w, d);
    case MapOf(es) =>
      TagIsKeys(w, "map");
      var fs := Body(w).entries;
      forall i | 0 <= i < |es|
        ensures Input(fs[i].value, d + 1) == Some(es[i].value) && Equal(WireOf(es[i].value), fs[i].value, true)
      {
        CarriedAdmits(es[i].value, fs[i].value, d + 1);
      }
      CarriedMap(es, w, d);
    case _ => CarriedLeaf(t, w, d);
  }

  lemma {:induction false} InputIs(w: C.Value, d: nat, t: Tree)
    requires InputShape(w, d) == Some(t) && Plain(t) && Within(t, 0)
    ensures Input(w, d) == Some(t)
  {
    hide InputShape;
  }

  lemma {:induction false} CarriedLeaf(t: Tree, w: C.Value, d: nat)
    requires Carries(t, w) && Plain(t) && Within(t, 0) && d <= MAX_DEPTH && !t.ListOf? && !t.MapOf?
    ensures Input(w, d) == Some(t) && Equal(WireOf(t), w, true)
  {
    hide InputShape, Input, Equal, AsBytes, Decimal.Format, Envelope.Field;
    CarriedLeafShape(t, w, d);
    InputIs(w, d, t);
    if t.Bool? {
      EqualTagged("bool", C.Bool(t.b), w, true);
      BoolEqual(t.b, true);
      assert WireOf(t) == Tagged("bool", C.Bool(t.b));
    } else {
      LeafEqual(t, w);
    }
  }

  lemma {:induction false} CarriedList(items: seq<Tree>, w: C.Value, d: nat)
    requires HasTag(w, "list") && Body(w).List? && |Body(w).items| == |items| && d <= MAX_DEPTH
    requires Plain(ListOf(items)) && Within(ListOf(items), 0)
    requires forall i :: 0 <= i < |items| ==>
      Input(Body(w).items[i], d + 1) == Some(items[i]) && Equal(WireOf(items[i]), Body(w).items[i], true)
    ensures Input(w, d) == Some(ListOf(items)) && Equal(WireOf(ListOf(items)), w, true)
  {
    hide Input, InputShape, InputItems, Envelope.Field, HasTag, Keys2, Plain, Within;
    TagIsKeys(w, "list");
    InputAllItems(Body(w).items, d + 1, items);
    CarriedListShape(items, w, d);
    InputIs(w, d, ListOf(items));
    EqualTagged("list", C.List(WireItems(items)), w, true);
  }

  lemma {:induction false} CarriedMap(es: seq<Pair>, w: C.Value, d: nat)
    requires HasTag(w, "map") && Body(w).Map? && |Body(w).entries| == |es| && d <= MAX_DEPTH
    requires Plain(MapOf(es)) && Within(MapOf(es), 0)
    requires forall i :: 0 <= i < |es| ==> Body(w).entries[i].key == es[i].key
    requires forall i :: 0 <= i < |es| ==>
      Input(Body(w).entries[i].value, d + 1) == Some(es[i].value)
      && Equal(WireOf(es[i].value), Body(w).entries[i].value, true)
    ensures Input(w, d) == Some(MapOf(es)) && Equal(WireOf(MapOf(es)), w, true)
  {
    hide Input, InputShape, InputPairs, Envelope.Field, HasTag, Keys2, Equal, Within;
    TagIsKeys(w, "map");
    InputAllPairs(Body(w).entries, d + 1, es);
    CarriedMapShape(es, w, d);
    InputIs(w, d, MapOf(es));
    MapEqual(es, Body(w), true);
    EqualTagged("map", C.Map(WirePairs(es)), w, true);
  }

  lemma {:induction false} MapEqual(es: seq<Pair>, m: C.Value, loose: bool)
    requires m.Map? && |m.entries| == |es| && DistinctPairs(es)
    requires forall i :: 0 <= i < |es| ==>
      m.entries[i].key == es[i].key && Equal(WireOf(es[i].value), m.entries[i].value, loose)
    ensures Equal(C.Map(WirePairs(es)), m, loose)
  {
    hide WireOf;
    forall i | 0 <= i < |es|
      ensures Envelope.Field(m, es[i].key) == Some(m.entries[i].value)
    {
      Envelope.LookupAt(m.entries, i);
    }
  }

  /** The input law admits exactly the spellings of plain trees at most 64 levels deep. */
  lemma {:induction false} AdmittedExactly(w: C.Value, t: Tree)
    ensures Admit(w) == Some(t) <==> Carries(t, w) && Plain(t) && Within(t, 0)
  {
    hide Carries, InputShape, Equal;
    if Admit(w) == Some(t) { AdmittedCarries(w, 0, t); }
    if Carries(t, w) && Plain(t) && Within(t, 0) { CarriedAdmits(t, w, 0); }
  }

  // --------------------------------------------------- conversion without the comparison

  predicate ByteReads(item: C.Value, x: byte)
  {
    item == C.Int(x) || (item == C.Bool(true) && x == 1) || (item == C.Bool(false) && x == 0)
  }

  /** What `bytes` makes of a value: a list byte by byte, a number so many zero bytes. */
  lemma {:induction false} BytesExactly(v: Option<C.Value>, b: seq<byte>)
    ensures AsBytes(v) == Some(b) <==>
      || (v.None? && b == [])
      || (v.Some? && v.value == C.Int(|b|) && forall i :: 0 <= i < |b| ==> b[i] == 0)
      || (v.Some? && v.value.List? && |v.value.items| == |b|
          && forall i :: 0 <= i < |b| ==> ByteReads(v.value.items[i], b[i]))
  {
    if v.Some? && v.value.Int? && v.value.n == |b| && forall i :: 0 <= i < |b| ==> b[i] == 0 {
      assert AsBytes(v).value == b;
    }
    if v.Some? && v.value.List? && |v.value.items| == |b|
       && forall i :: 0 <= i < |b| ==> ByteReads(v.value.items[i], b[i])
    {
      assert forall i :: 0 <= i < |b| ==> IsByte(v.value.items[i]) && AsByte(v.value.items[i]) == b[i];
      assert AsBytes(v).value == b;
    }
  }

  lemma {:induction false} NumberExactly(t: Tree, m: C.Value)
    ensures ReadNumber(m) == Some(t) <==> NumberReads(t, m)
  {
    hide Envelope.Field, AsBytes, Decimal.Parse;
    assert "int"[0] == 'i' && "binary_float"[0] == 'b';
  }

  /** The shape of a wire value that is not a list or a map. */
  lemma {:induction false} LeafReads(t: Tree, w: C.Value, d: nat)
    requires d <= MAX_DEPTH
    requires !Envelope.IsText(Envelope.Field(w, "t"), "list") && !Envelope.IsText(Envelope.Field(w, "t"), "map")
    ensures InputShape(w, d) == Some(t) <==> Reads(t, w)
  {
    hide Envelope.Field, ReadNumber, AsBytes, Decimal.Parse, Raw, InputItems, InputPairs;
    FieldsOfMap(w);
    if Envelope.Field(w, "v").Some? { NumberExactly(t, Envelope.Field(w, "v").value); }
    assert "null"[0] == 'n' && "bool"[0] == 'b' && "number"[1] == 'u' && "text"[0] == 't';
  }

  lemma {:induction false} FieldsOfMap(w: C.Value)
    ensures !w.Map? ==> Envelope.Field(w, "t").None? && Envelope.Field(w, "v").None?
  {
  }

  lemma {:induction false} ListReads(t: Tree, w: C.Value, d: nat)
    requires d <= MAX_DEPTH && Envelope.IsText(Envelope.Field(w, "t"), "list") && t.ListOf?
    requires Envelope.Field(w, "v").Some? && Envelope.Field(w, "v").value.List? ==>
      var ws := Envelope.Field(w, "v").value.items;
      |ws| == |t.items| ==>
        forall i :: 0 <= i < |ws| ==> (Input(ws[i], d + 1) == Some(t.items[i]) <==> Reads(t.items[i], ws[i]))
    ensures InputShape(w, d) == Some(t) <==> Reads(t, w)
  {
    hide Envelope.Field, Input, InputItems, InputPairs, NumberReads;
    FieldsOfMap(w);
    assert "list"[0] == 'l' && "null"[0] == 'n' && "bool"[0] == 'b' && "number"[0] == 'n' && "text"[0] == 't';
    assert "map"[0] == 'm';
    var v := Envelope.Field(w, "v");
    if v.Some? && v.value.List? {
      var ws := v.value.items;
      if InputShape(w, d) == Some(t) {
        forall i | 0 <= i < |ws| ensures Input(ws[i], d + 1) == Some(t.items[i]) { InputItemAt(ws, d + 1, i); }
      }
      if Reads(t, w) { InputAllItems(ws, d + 1, t.items); }
    }
  }

  lemma {:induction false} MapReads(t: Tree, w: C.Value, d: nat)
    requires d <= MAX_DEPTH && Envelope.IsText(Envelope.Field(w, "t"), "map") && t.MapOf?
    requires Envelope.Field(w, "v").Some? && Envelope.Field(w, "v").value.Map? ==>
      var fs := Envelope.Field(w, "v").value.entries;
      |fs| == |t.entries| ==> forall i :: 0 <= i < |fs| ==>
        (Input(fs[i].value, d + 1) == Some(t.entries[i].value) <==> Reads(t.entries[i].value, fs[i].value))
    ensures InputShape(w, d) == Some(t) <==> Reads(t, w)
  {
    hide Envelope.Field, Input, InputItems, InputPairs, NumberReads;
    FieldsOfMap(w);
    assert "list"[0] == 'l' && "null"[0] == 'n' && "bool"[0] == 'b' && "number"[0] == 'n' && "text"[0] == 't';
    assert "map"[0] == 'm';
    var v := Envelope.Field(w, "v");
    if v.Some? && v.value.Map? {
      var fs := v.value.entries;
      if InputShape(w, d) == Some(t) {
        forall i | 0 <= i < |fs|
          ensures fs[i].key == t.entries[i].key && Input(fs[i].value, d + 1) == Some(t.entries[i].value)
        {
          InputPairAt(fs, d + 1, i);
        }
      }
      if Reads(t, w) { InputAllPairs(fs, d + 1, t.entries); }
    }
  }

  lemma {:induction false} OtherShape(t: Tree, w: C.Value, d: nat)
    requires (Envelope.IsText(Envelope.Field(w, "t"), "list") && !t.ListOf?)
          || (Envelope.IsText(Envelope.Field(w, "t"), "map") && !t.MapOf?)
    ensures InputShape(w, d) != Some(t) && !Reads(t, w)
  {
    hide Envelope.Field, InputItems, InputPairs, NumberReads;
    assert "list"[0] == 'l' && "null"[0] == 'n' && "bool"[0] == 'b' && "number"[0] == 'n' && "text"[0] == 't';
    assert "map"[0] == 'm';
  }

  lemma {:induction false} InputAt(t: Tree, w: C.Value, d: nat)
    requires Plain(t) && Within(t, d)
    ensures Input(w, d) == Some(t) <==> Reads(t, w)
    decreases t
  {
    WithinLower(t, d, 0);
    hide InputShape, Reads, Envelope.Field;
    var tag, v := Envelope.Field(w, "t"), Envelope.Field(w, "v");
    if Envelope.IsText(tag, "list") && t.ListOf? {
      if v.Some? && v.value.List? && |v.value.items| == |t.items| {
        forall i | 0 <= i < |t.items|
          ensures Input(v.value.items[i], d + 1) == Some(t.items[i]) <==> Reads(t.items[i], v.value.items[i])
        {
          InputAt(t.items[i], v.value.items[i], d + 1);
        }
      }
      ListReads(t, w, d);
    } else if Envelope.IsText(tag, "map") && t.MapOf? {
      if v.Some? && v.value.Map? && |v.value.entries| == |t.entries| {
        forall i | 0 <= i < |t.entries|
          ensures Input(v.value.entries[i].value, d + 1) == Some(t.entries[i].value)
             <==> Reads(t.entries[i].value, v.value.entries[i].value)
        {
          InputAt(t.entries[i].value, v.value.entries[i].value, d + 1);
        }
      }
      MapReads(t, w, d);
    } else if Envelope.IsText(tag, "list") || Envelope.IsText(tag, "map") {
      OtherShape(t, w, d);
    } else {
      LeafReads(t, w, d);
    }
  }

  /** Where conversion is not followed by the comparison, as for callback results and native
      arguments, it admits exactly what reads as a plain tree at most 64 levels deep. */
  lemma {:induction false} InputExactly(w: C.Value, t: Tree)
    ensures Input(w, 0) == Some(t) <==> Reads(t, w) && Plain(t) && Within(t, 0)
  {
    hide InputShape, Reads;
    if Plain(t) && Within(t, 0) { InputAt(t, w, 0); }
  }

  /** The comparison narrows what is read as a tree to what spells it. */
  lemma {:induction false} ComparisonNarrows(w: C.Value, t: Tree)
    ensures Admit(w) == Some(t) <==> Carries(t, w) && Input(w, 0) == Some(t)
    ensures Carries(t, w) && Plain(t) && Within(t, 0) ==> Reads(t, w)
  {
    hide Carries, InputShape, Equal, Reads;
    AdmittedExactly(w, t);
    InputExactly(w, t);
  }

  lemma {:induction false} WireCarried(t: Tree)
    requires Plain(t)
    ensures Carries(t, WireOf(t))
    decreases t
  {
    hide Decimal.Format, Plain;
    match t
    case ListOf(items) =>
      forall i | 0 <= i < |items| ensures Carries(items[i], WireItems(items)[i]) {
        PlainParts(t);
        WireCarried(items[i]);
      }
      TaggedBody("list", C.List(WireItems(items)));
    case MapOf(es) =>
      forall i | 0 <= i < |es| ensures Carries(es[i].value, WirePairs(es)[i].value) {
        PlainParts(t);
        WireCarried(es[i].value);
      }
      TaggedBody("map", C.Map(WirePairs(es)));
    case Bool(b) => TaggedBody("bool", C.Bool(b));
    case _ => LeafCarried(t);
  }

  lemma {:induction false} PlainParts(t: Tree)
    requires Plain(t)
    ensures t.ListOf? ==> forall i :: 0 <= i < |t.items| ==> Plain(t.items[i])
    ensures t.MapOf? ==> forall i :: 0 <= i < |t.entries| ==> Plain(t.entries[i].value)
  {
  }

  lemma {:induction false} TaggedBody(tag: string, v: C.Value)
    ensures HasTag(Tagged(tag, v), tag) && Body(Tagged(tag, v)) == v
  {
    var es := Tagged(tag, v).entries;
    assert "t"[0] == 't' && "v"[0] == 'v';
    Envelope.LookupAt(es, 0);
    Envelope.LookupAt(es, 1);
  }

  lemma {:induction false} LeafCarried(t: Tree)
    requires !t.ListOf? && !t.MapOf? && !t.Bool?
    ensures Carries(t, WireOf(t))
  {
    LeafSelfEqual(t);
    LeafEqual(t, WireOf(t));
  }

  lemma {:induction false} LeafSelfEqual(t: Tree)
    requires !t.ListOf? && !t.MapOf? && !t.Bool?
    ensures Equal(WireOf(t), WireOf(t), true)
  {
    assert "t"[0] == 't' && "v"[0] == 'v' && "kind"[0] == 'k' && "bits"[0] == 'b';
    assert Flat(WireOf(t)) by {
      hide Decimal.Format;
      match t
      case Null =>
      case Int(n) => assert Flat(IntRecord(Decimal.Format(n)));
      case Float(bits) =>
        assert Flat(C.List(C.Ints(bits)));
        assert Flat(FloatRecord(C.List(C.Ints(bits))));
      case Text(s) => assert Flat(TextRecord(s));
    }
    RecordSelfEqual(WireOf(t));
  }

  ghost predicate Flat(v: C.Value)
  {
    match v
    case Map(es) => C.Distinct(es) && forall i :: 0 <= i < |es| ==> Flat(es[i].value)
    case List(items) => forall i :: 0 <= i < |items| ==> Flat(items[i])
    case _ => true
  }

  lemma {:induction false} RecordSelfEqual(v: C.Value)
    requires Flat(v)
    ensures Equal(v, v, true)
  {
    match v
    case Map(es) =>
      forall i | 0 <= i < |es|
        ensures Envelope.Field(v, es[i].key) == Some(es[i].value) && Equal(es[i].value, es[i].value, true)
      {
        Envelope.LookupAt(es, i);
        RecordSelfEqual(es[i].value);
      }
    case List(items) =>
      forall i | 0 <= i < |items| ensures Equal(items[i], items[i], true) { RecordSelfEqual(items[i]); }
    case _ =>
  }

  /** The witness of a plain tree within the limit is admitted, and converts back to it. */
  lemma {:induction false} WitnessAdmitted(t: Tree)
    requires Plain(t) && Within(t, 0)
    ensures Admit(WireOf(t)) == Some(t)
  {
    hide Carries, Admit;
    WireCarried(t);
    AdmittedExactly(WireOf(t), t);
  }

  // ----------------------------------------------- one wire form per native value

  predicate NoBools(v: C.Value) { v.List? ==> forall i :: 0 <= i < |v.items| ==> !v.items[i].Bool? }

  /** No boolean stands among the bytes of a float. */
  predicate IntegerBits(w: C.Value)
    decreases w
  {
    if HasTag(w, "list") && Body(w).List? then
      forall i :: 0 <= i < |Body(w).items| ==> (ItemsSmaller(w, i); IntegerBits(Body(w).items[i]))
    else if HasTag(w, "map") && Body(w).Map? then
      forall i :: 0 <= i < |Body(w).entries| ==> (ValuesSmaller(w, i); IntegerBits(Body(w).entries[i].value))
    else if HasTag(w, "number") then
      var bits := Envelope.Field(Body(w), "bits");
      bits.Some? ==> NoBools(bits.value)
    else true
  }

  lemma {:induction false} StrictBits(bits: seq<byte>, x: C.Value)
    requires x.List? && AsBytes(Some(x)) == Some(bits)
    ensures Equal(C.List(C.Ints(bits)), x, false) <==> NoBools(x)
  {
    var r := AsBytes(Some(x)).value;
    forall i | 0 <= i < |bits| ensures Equal(C.Int(bits[i]), x.items[i], false) <==> !x.items[i].Bool? {
      assert r[i] == AsByte(x.items[i]);
    }
  }

  lemma {:induction false} FloatStrict(bits: seq<byte>, m: C.Value)
    requires Keys3(m, "kind", "format", "bits") && Envelope.IsText(Envelope.Field(m, "kind"), "binary_float")
    requires Envelope.IsText(Envelope.Field(m, "format"), "f64")
    requires Envelope.Field(m, "bits").value.List? && AsBytes(Envelope.Field(m, "bits")) == Some(bits)
    ensures Equal(FloatRecord(C.List(C.Ints(bits))), m, false) <==> NoBools(Envelope.Field(m, "bits").value)
  {
    hide Envelope.Field, Equal, AsBytes, NoBools;
    EqualTriple("kind", C.Text("binary_float"), "format", C.Text("f64"), "bits", C.List(C.Ints(bits)), m, false);
    EqualText("binary_float", Envelope.Field(m, "kind").value, false);
    EqualText("f64", Envelope.Field(m, "format").value, false);
    StrictBits(bits, Envelope.Field(m, "bits").value);
  }

  /** The two keys of an integer record leave no room for float bytes. */
  lemma {:induction false} NoBitsField(m: C.Value)
    requires Keys2(m, "kind", "v")
    ensures Envelope.Field(m, "bits").None?
  {
    assert "kind"[0] == 'k' && "bits"[0] == 'b' && "v"[0] == 'v';
    var i := Envelope.LookupFound(m.entries, "kind");
    var j := Envelope.LookupFound(m.entries, "v");
    if Envelope.Field(m, "bits").Some? {
      var k := Envelope.LookupFound(m.entries, "bits");
    }
  }

  lemma {:induction false} LeafStrict(t: Tree, w: C.Value)
    requires Carries(t, w) && !t.ListOf? && !t.MapOf?
    ensures Equal(WireOf(t), w, false) <==> IntegerBits(w)
  {
    hide Envelope.Field, Equal, AsBytes, Decimal.Format, NoBools;
    match t
    case Null => EqualNull(w, false);
    case Bool(b) =>
      EqualTagged("bool", C.Bool(b), w, false);
      assert Equal(C.Bool(b), C.Bool(b), false) by { BoolEqual(b, false); }
    case Int(n) =>
      var text := Decimal.Format(n);
      EqualTagged("number", IntRecord(text), w, false);
      IntBody(text, Body(w), false);
      NoBitsField(Body(w));
    case Float(bits) =>
      EqualTagged("number", FloatRecord(C.List(C.Ints(bits))), w, false);
      FloatStrict(bits, Body(w));
    case Text(s) =>
      EqualTagged("text", TextRecord(s), w, false);
      TextBody(s, Body(w), false);
  }

  lemma {:induction false} BoolEqual(b: bool, loose: bool)
    ensures Equal(C.Bool(b), C.Bool(b), loose)
  {
  }

  /** Up to dict order, a spelling of `t` is the witness of `t` exactly when no boolean
      stands among the bytes of a float. */
  lemma {:induction false} OneWireForm(t: Tree, w: C.Value)
    requires Carries(t, w) && Plain(t)
    ensures Equal(WireOf(t), w, false) <==> IntegerBits(w)
    decreases t
  {
    hide Envelope.Field, Keys2, Plain;
    match t
    case ListOf(items) =>
      EqualTagged("list", C.List(WireItems(items)), w, false);
      forall i | 0 <= i < |items|
        ensures Equal(WireItems(items)[i], Body(w).items[i], false) <==> IntegerBits(Body(w).items[i])
      {
        PlainParts(t);
        OneWireForm(items[i], Body(w).items[i]);
      }
    case MapOf(es) =>
      EqualTagged("map", C.Map(WirePairs(es)), w, false);
      forall i | 0 <= i < |es|
        ensures Equal(WireOf(es[i].value), Body(w).entries[i].value, false) <==> IntegerBits(Body(w).entries[i].value)
      {
        PlainParts(t);
        OneWireForm(es[i].value, Body(w).entries[i].value);
      }
      PlainKeys(t);
      MapEqualIff(es, Body(w), false);
    case _ => LeafStrict(t, w);
  }

  lemma {:induction false} PlainKeys(t: Tree)
    requires Plain(t) && t.MapOf?
    ensures DistinctPairs(t.entries)
  {
  }

  lemma {:induction false} MapEqualIff(es: seq<Pair>, m: C.Value, loose: bool)
    requires m.Map? && |m.entries| == |es| && DistinctPairs(es)
    requires forall i :: 0 <= i < |es| ==> m.entries[i].key == es[i].key
    ensures Equal(C.Map(WirePairs(es)), m, loose) <==>
      forall i :: 0 <= i < |es| ==> Equal(WireOf(es[i].value), m.entries[i].value, loose)
  {
    hide WireOf;
    forall i | 0 <= i < |es|
      ensures Envelope.Field(m, es[i].key) == Some(m.entries[i].value)
    {
      Envelope.LookupAt(m.entries, i);
    }
    forall i | 0 <= i < |es| && Equal(C.Map(WirePairs(es)), m, loose)
      ensures Equal(WireOf(es[i].value), m.entries[i].value, loose)
    {
      EqualField(C.Map(WirePairs(es)), m, loose, i);
    }
  }

  /** The law alone does not make the form unique: 1.0 is also admitted with `False` for a
      zero byte, because `False == 0`. */
  lemma {:induction false} BooleanBitsAdmitted()
    ensures exists w :: Admit(w) == Some(Float([0x3F, 0xF0, 0, 0, 0, 0, 0, 0])) && !IntegerBits(w)
  {
    hide FloatRecord, Tagged, AsBytes, Envelope.Field, Admit;
    var x := HalfBoolean();
    var m := FloatRecord(x);
    var w := Tagged("number", m);
    TaggedBody("number", m);
    FloatFields(x);
    HalfBooleanBits();
    AdmittedExactly(w, Float([0x3F, 0xF0, 0, 0, 0, 0, 0, 0]));
    assert !IntegerBits(w);
  }

  /** The bits of 1.0 with `False` for one of the zeros. */
  function HalfBoolean(): C.Value
  {
    C.List([C.Int(0x3F), C.Int(0xF0), C.Bool(false), C.Int(0), C.Int(0), C.Int(0), C.Int(0), C.Int(0)])
  }

  lemma {:induction false} HalfBooleanBits()
    ensures AsBytes(Some(HalfBoolean())) == Some([0x3F, 0xF0, 0, 0, 0, 0, 0, 0])
    ensures HalfBoolean().List? && 2 < |HalfBoolean().items| && HalfBoolean().items[2].Bool?
  {
    assert AsBytes(Some(HalfBoolean())).value == [0x3F, 0xF0, 0, 0, 0, 0, 0, 0];
  }

  lemma {:induction false} FloatFields(x: C.Value)
    ensures var m := FloatRecord(x);
      && Keys3(m, "kind", "format", "bits") && Envelope.Field(m, "kind") == Some(C.Text("binary_float"))
      && Envelope.Field(m, "format") == Some(C.Text("f64")) && Envelope.Field(m, "bits") == Some(x)
  {
    assert "kind"[0] == 'k' && "bits"[0] == 'b' && "format"[0] == 'f';
    var es := FloatRecord(x).entries;
    Envelope.LookupAt(es, 0);
    Envelope.LookupAt(es, 1);
    Envelope.LookupAt(es, 2);
  }

  // ---------------------------------------------- observing refuses shared objects

  /** The value reached from `v` by taking the children with these numbers in turn. */
  function At(h: Heap, v: Value, p: seq<nat>): (r: Option<Value>)
    requires ClosedHeap(h) && InHeap(h, v)
    ensures r.Some? ==> InHeap(h, r.value)
    decreases |p|
  {
    if p == [] then Some(v)
    else if !v.Ref? || Children(h[v.id]).None? || p[0] >= |Children(h[v.id]).value| then None
    else
      ChildInHeap(h, v.id, p[0]);
      At(h, Children(h[v.id]).value[p[0]], p[1..])
  }

  lemma {:induction false} ChildInHeap(h: Heap, i: nat, k: nat)
    requires ClosedHeap(h) && i < |h| && Children(h[i]).Some? && k < |Children(h[i]).value|
    ensures InHeap(h, Children(h[i]).value[k])
  {
    assert Children(h[i]).value[k] in h[i].items;
  }

  lemma {:induction false} ChildrenClosed(h: Heap, i: nat)
    requires ClosedHeap(h) && i < |h| && Children(h[i]).Some?
    ensures Closed(h, Children(h[i]).value)
  {
    forall k | 0 <= k < |Children(h[i]).value| ensures InHeap(h, Children(h[i]).value[k]) { ChildInHeap(h, i, k); }
  }

  ghost predicate Leads(h: Heap, v: Value, p: seq<nat>, i: nat)
    requires ClosedHeap(h) && InHeap(h, v)
  {
    At(h, v, p) == Some(Ref(i))
  }

  /** No container is reached by two routes; in particular none is on a cycle. */
  ghost predicate Unshared(h: Heap, v: Value)
    requires ClosedHeap(h) && InHeap(h, v)
  {
    forall p, q, i: nat :: Leads(h, v, p, i) && Leads(h, v, q, i) ==> p == q
  }

  /** Lists, text-keyed dicts and plain scalars down to the depth limit and no further. */
  ghost predicate PlainShape(h: Heap, v: Value, d: nat)
    requires ClosedHeap(h) && InHeap(h, v)
    decreases MAX_DEPTH + 1 - d
  {
    && d <= MAX_DEPTH
    && match v
       case Foreign(_) => false
       case Leaf(s) => LeafTree(s).Some?
       case Ref(i) =>
         && Children(h[i]).Some?
         && forall k :: 0 <= k < |Children(h[i]).value| ==>
              (ChildInHeap(h, i, k); PlainShape(h, Children(h[i]).value[k], d + 1))
  }

  /** Containers reached from `v` lie in `hi` and not in `lo`. */
  ghost predicate Between(h: Heap, v: Value, lo: set<nat>, hi: set<nat>)
    requires ClosedHeap(h) && InHeap(h, v)
  {
    forall p, i: nat :: Leads(h, v, p, i) ==> i in hi && i !in lo
  }

  ghost predicate Apart(h: Heap, v: Value, w: Value)
    requires ClosedHeap(h) && InHeap(h, v) && InHeap(h, w)
  {
    forall p, q, i: nat :: !(Leads(h, v, p, i) && Leads(h, w, q, i))
  }

  ghost predicate AllUnshared(h: Heap, vs: seq<Value>)
    requires ClosedHeap(h) && Closed(h, vs)
  {
    && (forall k :: 0 <= k < |vs| ==> Unshared(h, vs[k]))
    && (forall k, l :: 0 <= k < l < |vs| ==> Apart(h, vs[k], vs[l]))
  }

  lemma {:induction false} NodeBetween(h: Heap, c: nat, lo: set<nat>, hi: set<nat>)
    requires ClosedHeap(h) && c < |h| && Children(h[c]).Some? && c !in lo && c in hi
    requires Closed(h, Children(h[c]).value)
    requires forall k :: 0 <= k < |Children(h[c]).value| ==> Between(h, Children(h[c]).value[k], lo + {c}, hi)
    ensures Between(h, Ref(c), lo, hi)
  {
    forall p, i: nat | Leads(h, Ref(c), p, i) ensures i in hi && i !in lo {
      if p != [] {
        assert Leads(h, Children(h[c]).value[p[0]], p[1..], i);
      }
    }
  }

  lemma {:induction false} NodeUnshared(h: Heap, c: nat, lo: set<nat>, hi: set<nat>)
    requires ClosedHeap(h) && c < |h| && Children(h[c]).Some? && c in lo
    requires Closed(h, Children(h[c]).value) && AllUnshared(h, Children(h[c]).value)
    requires forall k :: 0 <= k < |Children(h[c]).value| ==> Between(h, Children(h[c]).value[k], lo, hi)
    ensures Unshared(h, Ref(c))
  {
    var kids := Children(h[c]).value;
    forall p, q, i: nat | Leads(h, Ref(c), p, i) && Leads(h, Ref(c), q, i) ensures p == q {
      if p != [] { assert Leads(h, kids[p[0]], p[1..], i); }
      if q != [] { assert Leads(h, kids[q[0]], q[1..], i); }
      if p != [] && q != [] && p[0] == q[0] {
        assert p == [p[0]] + p[1..] && q == [q[0]] + q[1..];
      }
    }
  }

  /** What is observed is plain, and each container on the way was met once. */
  lemma {:induction false} ObservedUnshared(h: Heap, v: Value, seen: set<nat>, d: nat)
    requires ClosedHeap(h) && InHeap(h, v) && Observe(h, v, seen, d).Some?
    ensures PlainShape(h, v, d) && Unshared(h, v) && Between(h, v, seen, Observe(h, v, seen, d).value.1)
    ensures Within(Observe(h, v, seen, d).value.0, d)
    decreases MAX_DEPTH + 1 - d, 0
  {
    if v.Ref? {
      var c := v.id;
      var kids := Children(h[c]).value;
      ChildrenClosed(h, c);
      ObservedAllUnshared(h, kids, seen + {c}, d + 1);
      var hi := ObserveAll(h, kids, seen + {c}, d + 1).value.1;
      hide Between, AllUnshared, Unshared, Observe, Children;
      NodeBetween(h, c, seen, hi);
      NodeUnshared(h, c, seen + {c}, hi);
    }
  }

  lemma {:induction false} ObservedAllUnshared(h: Heap, vs: seq<Value>, seen: set<nat>, d: nat)
    requires ClosedHeap(h) && Closed(h, vs) && d <= MAX_DEPTH + 1 && ObserveAll(h, vs, seen, d).Some?
    ensures AllUnshared(h, vs)
    ensures forall k :: 0 <= k < |vs| ==>
      PlainShape(h, vs[k], d) && Between(h, vs[k], seen, ObserveAll(h, vs, seen, d).value.1)
    ensures forall k :: 0 <= k < |vs| ==> Within(ObserveAll(h, vs, seen, d).value.0[k], d)
    decreases MAX_DEPTH + 1 - d, 1, |vs|
  {
    if vs != [] {
      ObservedUnshared(h, vs[0], seen, d);
      var mid := Observe(h, vs[0], seen, d).value.1;
      ObservedAllUnshared(h, vs[1..], mid, d);
      var hi := ObserveAll(h, vs[1..], mid, d).value.1;
      assert ObserveAll(h, vs, seen, d).value.1 == hi;
      hide Observe, PlainShape, Leads;
      forall k | 0 < k < |vs| ensures PlainShape(h, vs[k], d) && Between(h, vs[k], mid, hi) && Unshared(h, vs[k]) {
        assert vs[k] == vs[1..][k - 1];
      }
      forall k, l | 0 <= k < l < |vs| ensures Apart(h, vs[k], vs[l]) {
        if k > 0 { assert vs[k] == vs[1..][k - 1] && vs[l] == vs[1..][l - 1]; }
      }
    }
  }

  // Unshared plain data is observed.

  ghost predicate Outside(h: Heap, v: Value, s: set<nat>)
    requires ClosedHeap(h) && InHeap(h, v)
  {
    forall p, i: nat :: Leads(h, v, p, i) ==> i !in s
  }

  /** Every member of `b` that is not in `a` is reached from `v`. */
  ghost predicate OnlyAdds(h: Heap, v: Value, a: set<nat>, b: set<nat>)
    requires ClosedHeap(h) && InHeap(h, v)
  {
    forall i :: i in b && i !in a ==> exists p :: Leads(h, v, p, i)
  }

  lemma {:induction false} LeadsDown(h: Heap, c: nat, k: nat, p: seq<nat>, i: nat)
    requires ClosedHeap(h) && c < |h| && Children(h[c]).Some? && k < |Children(h[c]).value|
    requires InHeap(h, Children(h[c]).value[k])
    requires Leads(h, Children(h[c]).value[k], p, i)
    ensures Leads(h, Ref(c), [k] + p, i)
  {
    assert ([k] + p)[1..] == p;
  }

  lemma {:induction false} ChildrenUnshared(h: Heap, c: nat, s: set<nat>)
    requires ClosedHeap(h) && c < |h| && Children(h[c]).Some? && Closed(h, Children(h[c]).value)
    requires Unshared(h, Ref(c)) && Outside(h, Ref(c), s)
    ensures AllUnshared(h, Children(h[c]).value)
    ensures forall k :: 0 <= k < |Children(h[c]).value| ==> Outside(h, Children(h[c]).value[k], s + {c})
  {
    var kids := Children(h[c]).value;
    assert Leads(h, Ref(c), [], c);
    forall k, p, i: nat | 0 <= k < |kids| && Leads(h, kids[k], p, i) ensures i !in s + {c} {
      LeadsDown(h, c, k, p, i);
    }
    forall k, p, q, i: nat | 0 <= k < |kids| && Leads(h, kids[k], p, i) && Leads(h, kids[k], q, i) ensures p == q {
      LeadsDown(h, c, k, p, i);
      LeadsDown(h, c, k, q, i);
      assert ([k] + p)[1..] == p && ([k] + q)[1..] == q;
    }
    forall k, l | 0 <= k < l < |kids| ensures Apart(h, kids[k], kids[l]) { ChildrenApart(h, c, k, l); }
  }

  lemma {:induction false} ChildrenApart(h: Heap, c: nat, k: nat, l: nat)
    requires ClosedHeap(h) && c < |h| && Children(h[c]).Some? && Closed(h, Children(h[c]).value)
    requires Unshared(h, Ref(c)) && k < l < |Children(h[c]).value|
    ensures Apart(h, Children(h[c]).value[k], Children(h[c]).value[l])
  {
    var kids := Children(h[c]).value;
    forall p, q, i: nat | Leads(h, kids[k], p, i) ensures !Leads(h, kids[l], q, i) {
      LeadsDown(h, c, k, p, i);
      if Leads(h, kids[l], q, i) { LeadsDown(h, c, l, q, i); }
      assert ([k] + p)[0] == k && ([l] + q)[0] == l;
    }
  }

  lemma {:induction false} UnsharedObserved(h: Heap, v: Value, seen: set<nat>, d: nat)
    requires ClosedHeap(h) && InHeap(h, v)
    requires PlainShape(h, v, d) && Unshared(h, v) && Outside(h, v, seen)
    ensures Observe(h, v, seen, d).Some? && OnlyAdds(h, v, seen, Observe(h, v, seen, d).value.1)
    decreases MAX_DEPTH + 1 - d, 0
  {
    if v.Ref? {
      var c := v.id;
      var kids := Children(h[c]).value;
      ChildrenClosed(h, c);
      ChildrenUnshared(h, c, seen);
      assert Leads(h, v, [], c);
      AllObserved(h, kids, seen + {c}, d + 1);
      var hi := ObserveAll(h, kids, seen + {c}, d + 1).value.1;
      forall i | i in hi && i !in seen ensures exists p :: Leads(h, v, p, i) {
        if i != c {
          var k, p :| 0 <= k < |kids| && Leads(h, kids[k], p, i);
          LeadsDown(h, c, k, p, i);
        }
      }
    }
  }

  lemma {:induction false} AllObserved(h: Heap, vs: seq<Value>, seen: set<nat>, d: nat)
    requires ClosedHeap(h) && Closed(h, vs) && d <= MAX_DEPTH + 1 && AllUnshared(h, vs)
    requires forall k :: 0 <= k < |vs| ==> PlainShape(h, vs[k], d) && Outside(h, vs[k], seen)
    ensures ObserveAll(h, vs, seen, d).Some?
    ensures forall i :: i in ObserveAll(h, vs, seen, d).value.1 && i !in seen ==>
      exists k, p :: 0 <= k < |vs| && Leads(h, vs[k], p, i)
    decreases MAX_DEPTH + 1 - d, 1, |vs|
  {
    if vs != [] {
      UnsharedObserved(h, vs[0], seen, d);
      var mid := Observe(h, vs[0], seen, d).value.1;
      var rest := vs[1..];
      hide Observe, PlainShape, Leads;
      forall k | 0 <= k < |rest| ensures PlainShape(h, rest[k], d) && Unshared(h, rest[k]) && Outside(h, rest[k], mid) {
        assert rest[k] == vs[k + 1] && Apart(h, vs[0], vs[k + 1]);
      }
      forall k, l | 0 <= k < l < |rest| ensures Apart(h, rest[k], rest[l]) { assert Apart(h, vs[k + 1], vs[l + 1]); }
      AllObserved(h, rest, mid, d);
      var hi := ObserveAll(h, rest, mid, d).value.1;
      forall i | i in hi && i !in seen ensures exists k, p :: 0 <= k < |vs| && Leads(h, vs[k], p, i) {
        if i in mid {
          var p :| Leads(h, vs[0], p, i);
        } else {
          var k, p :| 0 <= k < |rest| && Leads(h, rest[k], p, i);
          assert vs[k + 1] == rest[k];
        }
      }
    }
  }

  /** The tree `t` is what stands at `v`, item by item and entry by entry. */
  predicate Shows(h: Heap, v: Value, t: Tree)
    decreases t
  {
    match t
    case Null => v == Leaf(Nothing)
    case Bool(b) => v == Leaf(Boolean(b))
    case Int(n) => v == Leaf(Integer(n))
    case Float(bits) => v == Leaf(Float64(bits))
    case Text(s) => v == Leaf(Str(s))
    case ListOf(ts) =>
      && v.Ref? && v.id < |h| && h[v.id].kind == List && |h[v.id].items| == |ts|
      && forall k :: 0 <= k < |ts| ==> Shows(h, h[v.id].items[k], ts[k])
    case MapOf(es) =>
      && v.Ref? && v.id < |h| && h[v.id].kind == Dict && |h[v.id].items| == 2 * |es|
      && forall k :: 0 <= k < |es| ==>
           h[v.id].items[2 * k] == Leaf(Str(es[k].key)) && Shows(h, h[v.id].items[2 * k + 1], es[k].value)
  }

  lemma {:induction false} ObservedShows(h: Heap, v: Value, seen: set<nat>, d: nat)
    requires ClosedHeap(h) && InHeap(h, v) && Observe(h, v, seen, d).Some?
    ensures Shows(h, v, Observe(h, v, seen, d).value.0)
    decreases MAX_DEPTH + 1 - d, 0
  {
    if v.Ref? {
      var vs := Children(h[v.id]).value;
      ChildrenClosed(h, v.id);
      ObservedAllShow(h, vs, seen + {v.id}, d + 1);
      RebuildShows(h, v.id, ObserveAll(h, vs, seen + {v.id}, d + 1).value.0);
    }
  }

  lemma {:induction false} ObservedAllShow(h: Heap, vs: seq<Value>, seen: set<nat>, d: nat)
    requires ClosedHeap(h) && Closed(h, vs) && d <= MAX_DEPTH + 1 && ObserveAll(h, vs, seen, d).Some?
    ensures forall k :: 0 <= k < |vs| ==> Shows(h, vs[k], ObserveAll(h, vs, seen, d).value.0[k])
    decreases MAX_DEPTH + 1 - d, 1, |vs|
  {
    hide Observe, Shows;
    if vs != [] {
      ObservedShows(h, vs[0], seen, d);
      ObservedAllShow(h, vs[1..], Observe(h, vs[0], seen, d).value.1, d);
    }
  }

  lemma {:induction false} RebuildShows(h: Heap, i: nat, ts: seq<Tree>)
    requires i < |h| && Children(h[i]).Some? && |ts| == |Children(h[i]).value|
    requires forall k :: 0 <= k < |ts| ==> Shows(h, Children(h[i]).value[k], ts[k])
    ensures Shows(h, Ref(i), Rebuild(h[i], ts))
  {
    var o := h[i];
    if o.kind == Dict {
      var es := Rebuild(o, ts).entries;
      forall k | 0 <= k < |es|
        ensures o.items[2 * k] == Leaf(Str(es[k].key)) && Shows(h, o.items[2 * k + 1], es[k].value)
      {
        assert IsStr(o.items[2 * k]) && Shows(h, Children(o).value[k], ts[k]);
      }
    }
  }

  /** A native value is witnessed exactly when it is plain, at most 64 levels deep, and no
      container in it is shared or cyclic; the witness is then what stands there. */
  lemma {:induction false} WitnessedExactly(h: Heap, v: Value)
    requires ClosedHeap(h) && InHeap(h, v)
    ensures Observe(h, v, {}, 0).Some? <==> PlainShape(h, v, 0) && Unshared(h, v)
    ensures Observe(h, v, {}, 0).Some? ==> Shows(h, v, Observe(h, v, {}, 0).value.0)
  {
    hide Observe, PlainShape, Unshared, Shows;
    if Observe(h, v, {}, 0).Some? {
      ObservedUnshared(h, v, {}, 0);
      ObservedShows(h, v, {}, 0);
    }
    if PlainShape(h, v, 0) && Unshared(h, v) { UnsharedObserved(h, v, {}, 0); }
  }

  /** Dict keys do not repeat, as Python guarantees. */
  ghost predicate DistinctTextKeys(h: Heap)
  {
    forall i :: 0 <= i < |h| && h[i].kind == Dict && Children(h[i]).Some? ==> TextKeysDiffer(h[i].items)
  }

  ghost predicate TextKeysDiffer(items: seq<Value>)
  {
    forall k, l :: 0 <= k < l < |items| && k % 2 == 0 && l % 2 == 0 && IsStr(items[k]) && IsStr(items[l]) ==>
      items[k] != items[l]
  }

  lemma {:induction false} ObservedPlain(h: Heap, v: Value, seen: set<nat>, d: nat)
    requires ClosedHeap(h) && InHeap(h, v) && DistinctTextKeys(h) && Observe(h, v, seen, d).Some?
    ensures Plain(Observe(h, v, seen, d).value.0)
    decreases MAX_DEPTH + 1 - d, 0
  {
    if v.Ref? {
      var o := h[v.id];
      ChildrenClosed(h, v.id);
      ObservedAllPlain(h, Children(o).value, seen + {v.id}, d + 1);
      RebuildPlain(o, ObserveAll(h, Children(o).value, seen + {v.id}, d + 1).value.0);
    }
  }

  lemma {:induction false} ObservedAllPlain(h: Heap, vs: seq<Value>, seen: set<nat>, d: nat)
    requires ClosedHeap(h) && Closed(h, vs) && d <= MAX_DEPTH + 1 && DistinctTextKeys(h)
    requires ObserveAll(h, vs, seen, d).Some?
    ensures forall k :: 0 <= k < |vs| ==> Plain(ObserveAll(h, vs, seen, d).value.0[k])
    decreases MAX_DEPTH + 1 - d, 1, |vs|
  {
    hide Observe, DistinctTextKeys, Plain;
    if vs != [] {
      ObservedPlain(h, vs[0], seen, d);
      ObservedAllPlain(h, vs[1..], Observe(h, vs[0], seen, d).value.1, d);
    }
  }

  lemma {:induction false} RebuildPlain(o: Obj, ts: seq<Tree>)
    requires Children(o).Some? && |ts| == |Children(o).value| && forall k :: 0 <= k < |ts| ==> Plain(ts[k])
    requires o.kind == Dict ==> TextKeysDiffer(o.items)
    ensures Plain(Rebuild(o, ts))
  {
    if o.kind != List {
      var es := Rebuild(o, ts).entries;
      forall i, j | 0 <= i < j < |es| ensures es[i].key != es[j].key {
        assert IsStr(o.items[2 * i]) && IsStr(o.items[2 * j]);
      }
    }
  }

  /** Whatever is witnessed on the way out would be admitted on the way in, as itself. */
  lemma {:induction false} WitnessReadmitted(h: Heap, v: Value)
    requires ClosedHeap(h) && InHeap(h, v) && DistinctTextKeys(h) && Observe(h, v, {}, 0).Some?
    ensures var t := Observe(h, v, {}, 0).value.0; Admit(WireOf(t)) == Some(t)
  {
    hide Observe, Admit;
    ObservedUnshared(h, v, {}, 0);
    ObservedPlain(h, v, {}, 0);
    WitnessAdmitted(Observe(h, v, {}, 0).value.0);
  }

  // ------------------------------------------------------------- depth and raw content

  /** How deep a tree nests. */
  function Height(t: Tree): nat
  {
    match t
    case ListOf(items) => if items == [] then 0 else 1 + ItemsHeight(items)
    case MapOf(es) => if es == [] then 0 else 1 + PairsHeight(es)
    case _ => 0
  }

  function ItemsHeight(items: seq<Tree>): (r: nat)
    ensures forall i :: 0 <= i < |items| ==> Height(items[i]) <= r
    ensures items != [] ==> exists i :: 0 <= i < |items| && Height(items[i]) == r
  {
    if items == [] then 0
    else
      var a, b := Height(items[0]), ItemsHeight(items[1..]);
      assert forall i :: 0 < i < |items| ==> items[i] == items[1..][i - 1];
      assert forall i :: 0 <= i < |items[1..]| ==> items[1..][i] == items[i + 1];
      if items[1..] != [] && b > a then b else a
  }

  function PairsHeight(es: seq<Pair>): (r: nat)
    ensures forall i :: 0 <= i < |es| ==> Height(es[i].value) <= r
    ensures es != [] ==> exists i :: 0 <= i < |es| && Height(es[i].value) == r
  {
    if es == [] then 0
    else
      var a, b := Height(es[0].value), PairsHeight(es[1..]);
      assert forall i :: 0 < i < |es| ==> es[i] == es[1..][i - 1];
      assert forall i :: 0 <= i < |es[1..]| ==> es[1..][i] == es[i + 1];
      if es[1..] != [] && b > a then b else a
  }

  /** The depth limit: a tree is within it exactly when it nests at most 64 deep. */
  lemma {:induction false} WithinExactly(t: Tree, d: nat)
    ensures Within(t, d) <==> d + Height(t) <= 64
    decreases t
  {
    match t
    case ListOf(items) =>
      forall i | 0 <= i < |items| ensures Within(items[i], d + 1) <==> d + 1 + Height(items[i]) <= 64 {
        WithinExactly(items[i], d + 1);
      }
      hide Within;
      WithinList(items, d);
    case MapOf(es) =>
      forall i | 0 <= i < |es| ensures Within(es[i].value, d + 1) <==> d + 1 + Height(es[i].value) <= 64 {
        WithinExactly(es[i].value, d + 1);
      }
      hide Within;
      WithinMap(es, d);
    case _ =>
  }

  lemma {:induction false} WithinList(items: seq<Tree>, d: nat)
    requires forall i :: 0 <= i < |items| ==> (Within(items[i], d + 1) <==> d + 1 + Height(items[i]) <= 64)
    ensures Within(ListOf(items), d) <==> d + Height(ListOf(items)) <= 64
  {
    if items != [] {
      var i :| 0 <= i < |items| && Height(items[i]) == ItemsHeight(items);
      hide Height;
      ListHeight(items);
    }
  }

  lemma {:induction false} ListHeight(items: seq<Tree>)
    requires items != []
    ensures Height(ListOf(items)) == 1 + ItemsHeight(items)
  {
  }

  lemma {:induction false} WithinMap(es: seq<Pair>, d: nat)
    requires forall i :: 0 <= i < |es| ==> (Within(es[i].value, d + 1) <==> d + 1 + Height(es[i].value) <= 64)
    ensures Within(MapOf(es), d) <==> d + Height(MapOf(es)) <= 64
  {
    if es != [] {
      var i :| 0 <= i < |es| && Height(es[i].value) == PairsHeight(es);
      hide Height;
      MapHeight(es);
    }
  }

  lemma {:induction false} MapHeight(es: seq<Pair>)
    requires es != []
    ensures Height(MapOf(es)) == 1 + PairsHeight(es)
  {
  }

  /** `t` is what a wire value is in Python: itself, with byte strings as lists of numbers. */
  predicate Native(t: Tree, v: C.Value)
    decreases t
  {
    match t
    case Null => v == C.Null
    case Bool(b) => v == C.Bool(b)
    case Int(n) => v == C.Int(n)
    case Float(bits) => v == C.Float(bits)
    case Text(s) => v == C.Text(s)
    case ListOf(items) =>
      || (v.List? && |v.items| == |items| && forall i :: 0 <= i < |items| ==> Native(items[i], v.items[i]))
      || (v.Bytes? && |v.data| == |items| && forall i :: 0 <= i < |items| ==> items[i] == Int(v.data[i]))
    case MapOf(es) =>
      && v.Map? && |v.entries| == |es|
      && forall i :: 0 <= i < |es| ==> v.entries[i].key == es[i].key && Native(es[i].value, v.entries[i].value)
  }

  lemma {:induction false} RawItemsAre(items: seq<C.Value>)
    ensures |RawItems(items)| == |items| && forall i :: 0 <= i < |items| ==> RawItems(items)[i] == Raw(items[i])
  {
    hide Raw;
    if items != [] { RawItemsAre(items[1..]); }
  }

  lemma {:induction false} RawPairsAre(es: seq<C.Entry>)
    ensures |RawPairs(es)| == |es|
    ensures forall i :: 0 <= i < |es| ==> RawPairs(es)[i] == Pair(es[i].key, Raw(es[i].value))
  {
    hide Raw;
    if es != [] { RawPairsAre(es[1..]); }
  }

  /** The content of a text record is taken as it is. */
  lemma {:induction false} RawExactly(t: Tree, v: C.Value)
    ensures Raw(v) == t <==> Native(t, v)
    decreases t
  {
    match v
    case List(ws) =>
      RawItemsAre(ws);
      if t.ListOf? {
        forall i | 0 <= i < |ws| && i < |t.items| ensures Raw(ws[i]) == t.items[i] <==> Native(t.items[i], ws[i]) {
          RawExactly(t.items[i], ws[i]);
        }
        hide RawItems;
        if |ws| == |t.items| { SameItems(RawItems(ws), t.items); }
      }
    case Map(fs) =>
      RawPairsAre(fs);
      if t.MapOf? {
        forall i | 0 <= i < |fs| && i < |t.entries|
          ensures Raw(fs[i].value) == t.entries[i].value <==> Native(t.entries[i].value, fs[i].value)
        {
          RawExactly(t.entries[i].value, fs[i].value);
        }
        hide RawPairs;
        if |fs| == |t.entries| { SamePairs(RawPairs(fs), t.entries); }
      }
    case Bytes(data) =>
      if t.ListOf? && |t.items| == |data| {
        var r: seq<Tree> := seq(|data|, i requires 0 <= i < |data| => Int(data[i]));
        SameItems(r, t.items);
      }
    case _ =>
  }

  lemma {:induction false} SameItems(a: seq<Tree>, b: seq<Tree>)
    requires |a| == |b|
    ensures a == b <==> forall i :: 0 <= i < |b| ==> a[i] == b[i]
  {
  }

  lemma {:induction false} SamePairs(a: seq<Pair>, b: seq<Pair>)
    requires |a| == |b|
    ensures a == b <==> forall i :: 0 <= i < |b| ==> a[i].key == b[i].key && a[i].value == b[i].value
  {
    if forall i :: 0 <= i < |b| ==> a[i].key == b[i].key && a[i].value == b[i].value {
      forall i | 0 <= i < |b| ensures a[i] == b[i] { }
    }
  }
}
