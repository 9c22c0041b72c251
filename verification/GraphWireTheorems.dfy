/** Payload records cross the wire unchanged but for the content of opaque values. */
module GraphWireTheorems {
  import opened Wrappers
  import opened Ordering
  import opened PyHeap
  import opened GraphEncoder
  import opened GraphWire
  import C = Cbor
  import CborTheorems
  import opened Arrival
  import GraphDecoder
  import GraphTheorems
  import Base64
  import Decimal
  import Utf8
  import Envelope
  import Actor

  /** The records the encoder writes: integers as text, and nothing unreadable. */
  predicate WrittenEnc(e: Enc)
  {
    match e
    case Plain(c) => c.Copied? ==> !c.scalar.Integer?
    case Pointer(_) => true
    case BadValue => false
  }

  predicate WrittenAll(es: seq<Enc>) { forall i :: 0 <= i < |es| ==> WrittenEnc(es[i]) }

  predicate WrittenNode(n: Node)
  {
    && n.Node? && WrittenAll(n.items)
    && (n.kind == ByteArray ==> n.items == [])
    && (n.kind != ByteArray ==> n.data == [])
    && (n.kind == Dict ==> |n.items| % 2 == 0)
    && (n.kind == Scope ==> |n.items| == 2)
  }

  // -------------------------------------------------------------- fields read back

  lemma {:induction false} ReadKind(kind: string, fields: seq<C.Entry>)
    requires C.InRange(Record(kind, fields))
    ensures Envelope.Field(C.Norm(Record(kind, fields)), "kind") == Some(C.Text(kind))
  {
    Envelope.FieldNorm(Record(kind, fields), "kind");
    hide C.Norm;
    assert C.Norm(C.Text(kind)) == C.Text(kind) by { TextNorm(kind); }
  }

  lemma {:induction false} TextNorm(s: string)
    ensures C.Norm(C.Text(s)) == C.Text(s)
  {
  }

  lemma {:induction false} IntsNorm(b: seq<byte>)
    ensures C.Norm(Bits(b)) == Bits(b)
    ensures ReadBits(Some(Bits(b))) == Some(b)
  {
    var items := C.Ints(b);
    assert C.NormItems(items) == items;
    assert ReadBits(Some(Bits(b))).value == b;
  }

  lemma {:induction false} RecordField(kind: string, fields: seq<C.Entry>, key: string)
    requires key != "kind"
    ensures Envelope.Field(Record(kind, fields), key) == Envelope.Lookup(fields, key)
  {
    assert Record(kind, fields).entries[1..] == fields;
  }

  lemma {:induction false} ReadOne(kind: string, key: string, v: C.Value)
    requires key != "kind" && C.InRange(Record(kind, [C.Entry(key, v)]))
    ensures Envelope.Field(C.Norm(Record(kind, [C.Entry(key, v)])), key) == Some(C.Norm(v))
  {
    var r := Record(kind, [C.Entry(key, v)]);
    Envelope.FieldNorm(r, key);
    RecordField(kind, [C.Entry(key, v)], key);
    hide C.Norm, Record;
  }

  lemma {:induction false} ReadTwo(kind: string, k: string, v: C.Value, l: string, w: C.Value)
    requires k != "kind" && l != "kind" && k != l && C.InRange(Record(kind, [C.Entry(k, v), C.Entry(l, w)]))
    ensures var r := C.Norm(Record(kind, [C.Entry(k, v), C.Entry(l, w)]));
      Envelope.Field(r, k) == Some(C.Norm(v)) && Envelope.Field(r, l) == Some(C.Norm(w))
  {
    var r := Record(kind, [C.Entry(k, v), C.Entry(l, w)]);
    Envelope.FieldNorm(r, k);
    Envelope.FieldNorm(r, l);
    RecordField(kind, [C.Entry(k, v), C.Entry(l, w)], k);
    RecordField(kind, [C.Entry(k, v), C.Entry(l, w)], l);
    assert [C.Entry(k, v), C.Entry(l, w)][1..] == [C.Entry(l, w)];
    hide C.Norm, Record;
  }

  lemma {:induction false} ReadScalar(s: Scalar)
    requires !s.Integer? && C.InRange(WriteCode(Copied(s)))
    ensures ReadEnc(C.Norm(WriteCode(Copied(s)))) == Copy(ArrivedScalar(s))
  {
    hide C.Norm, C.InRange, Envelope.Field, Base64.Encode, Base64.Decode, Record, Bits, ReadBits;
    match s
    case Nothing => ReadKind("none", []);
    case Boolean(b) =>
      ReadKind("bool", [C.Entry("value", C.Bool(b))]);
      ReadOne("bool", "value", C.Bool(b));
      assert C.Norm(C.Bool(b)) == C.Bool(b) by { BoolNorm(b); }
    case Float64(bits) =>
      ReadKind("float64", [C.Entry("bits", Bits(bits))]);
      ReadOne("float64", "bits", Bits(bits));
      IntsNorm(bits);
    case Str(t) => ReadTextRecord("str", "value", t);
    case Html(t) => ReadTextRecord("o_html", "value", t);
    case StorePath(t) => ReadTextRecord("o_store_path", "value", t);
    case ByteString(b) =>
      ReadTextRecord("bytes", "value_b64", Base64.Encode(b));
      Base64.DecodeEncode(b);
    case Complex(re, im) =>
      ReadKind("complex", [C.Entry("real_bits", Bits(re)), C.Entry("imag_bits", Bits(im))]);
      ReadTwo("complex", "real_bits", Bits(re), "imag_bits", Bits(im));
      IntsNorm(re);
      IntsNorm(im);
    case Expr(src) => ReadTextRecord("o_expr", "src", src);
    case Opaque(wire) =>
      ReadKind("o_opaque", [C.Entry("wire_value", wire)]);
      ReadOne("o_opaque", "wire_value", wire);
  }

  lemma {:induction false} BoolNorm(b: bool)
    ensures C.Norm(C.Bool(b)) == C.Bool(b)
  {
  }

  lemma {:induction false} ReadTextRecord(kind: string, key: string, t: string)
    requires key != "kind" && C.InRange(Record(kind, [C.Entry(key, C.Text(t))]))
    ensures var r := C.Norm(Record(kind, [C.Entry(key, C.Text(t))]));
      ReadText(Envelope.Field(r, "kind")) == Some(kind) && ReadText(Envelope.Field(r, key)) == Some(t)
  {
    ReadKind(kind, [C.Entry(key, C.Text(t))]);
    ReadOne(kind, key, C.Text(t));
    TextNorm(t);
    hide C.Norm, Envelope.Field;
  }

  /** A value's record, written and read across the wire, is the same record, with an opaque
      value's content as the wire carries it. */
  lemma {:induction false} EncCrosses(e: Enc)
    requires WrittenEnc(e) && C.InRange(WriteEnc(e))
    ensures ReadEnc(C.Norm(WriteEnc(e))) == ArrivedEnc(e)
  {
    hide C.Norm, C.InRange, Envelope.Field, Record;
    match e
    case Pointer(n) =>
      ReadKind("ref", [C.Entry("node", C.Int(n))]);
      ReadOne("ref", "node", C.Int(n));
      assert C.Norm(C.Int(n)) == C.Int(n) by { IntNorm(n); }
    case Plain(c) =>
      if c.Copied? { ReadScalar(c.scalar); } else { ReadTextRecord("int", "value", c.text); }
  }

  lemma {:induction false} IntNorm(n: int)
    ensures C.Norm(C.Int(n)) == C.Int(n)
  {
  }

  // -------------------------------------------------------------- nodes read back

  lemma {:induction false} AllCross(es: seq<Enc>)
    requires WrittenAll(es) && C.InRange(C.List(WriteAll(es)))
    ensures C.Norm(C.List(WriteAll(es))) == C.List(C.NormItems(WriteAll(es)))
    ensures ReadAll(C.NormItems(WriteAll(es))) == ArrivedEncs(es)
  {
    hide C.Norm, ReadEnc, WriteEnc, ArrivedEnc;
    assert C.Norm(C.List(WriteAll(es))) == C.List(C.NormItems(WriteAll(es))) by { ListNorm(WriteAll(es)); }
    forall i | 0 <= i < |es| ensures ReadEnc(C.Norm(WriteEnc(es[i]))) == ArrivedEnc(es[i]) {
      assert WriteAll(es)[i] == WriteEnc(es[i]);
      EncCrosses(es[i]);
    }
  }

  lemma {:induction false} ListNorm(items: seq<C.Value>)
    ensures C.Norm(C.List(items)) == C.List(C.NormItems(items))
  {
  }

  ghost predicate InRangeAll(vs: seq<C.Value>) { forall i :: 0 <= i < |vs| ==> C.InRange(vs[i]) }

  lemma {:induction false} PairsCross(es: seq<Enc>)
    requires WrittenAll(es) && |es| % 2 == 0 && InRangeAll(WritePairs(es))
    ensures ReadPairs(C.NormItems(WritePairs(es))) == ArrivedEncs(es)
  {
    hide C.Norm, C.InRange, ReadEnc, WriteEnc, ArrivedEnc, WrittenEnc;
    if es != [] {
      PairsRange(es);
      EncCrosses(es[0]);
      EncCrosses(es[1]);
      assert WrittenAll(es[2..]);
      PairsCross(es[2..]);
      PairsNorm(es);
      var n := C.NormItems(WritePairs(es));
      assert n[0].items[0] == C.Norm(WriteEnc(es[0])) && n[0].items[1] == C.Norm(WriteEnc(es[1]));
      assert ArrivedEncs(es) == [ArrivedEnc(es[0]), ArrivedEnc(es[1])] + ArrivedEncs(es[2..]);
    }
  }

  lemma {:induction false} PairsRange(es: seq<Enc>)
    requires |es| >= 2 && InRangeAll(WritePairs(es))
    ensures C.InRange(WriteEnc(es[0])) && C.InRange(WriteEnc(es[1])) && InRangeAll(WritePairs(es[2..]))
  {
    hide WriteEnc;
    var pair, rest := [WriteEnc(es[0]), WriteEnc(es[1])], WritePairs(es[2..]);
    assert WritePairs(es)[0] == C.List(pair) && C.InRange(C.List(pair)) && C.InRange(pair[0]) && C.InRange(pair[1]);
    forall i | 0 <= i < |rest| ensures C.InRange(rest[i]) { assert WritePairs(es)[i + 1] == rest[i]; }
  }

  lemma {:induction false} PairsNorm(es: seq<Enc>)
    requires |es| >= 2
    ensures var n := C.NormItems(WritePairs(es));
      && n != [] && n[1..] == C.NormItems(WritePairs(es[2..]))
      && n[0] == C.List([C.Norm(WriteEnc(es[0])), C.Norm(WriteEnc(es[1]))])
  {
    hide C.Norm, WriteEnc;
    var pair, rest := [WriteEnc(es[0]), WriteEnc(es[1])], WritePairs(es[2..]);
    assert WritePairs(es) == [C.List(pair)] + rest;
    assert ([C.List(pair)] + rest)[1..] == rest;
    ListNorm(pair);
    assert C.NormItems(pair) == [C.Norm(pair[0]), C.Norm(pair[1])];
  }

  lemma {:induction false} RecordInRange(kind: string, fields: seq<C.Entry>, i: nat)
    requires C.InRange(Record(kind, fields)) && i < |fields|
    ensures C.InRange(fields[i].value)
  {
    assert Record(kind, fields).entries[i + 1] == fields[i];
  }

  // Reading one kind of node, given the fields found in its record.

  lemma {:induction false} ReadListNode(v: C.Value, kind: string, items: seq<C.Value>)
    requires kind == "list" || kind == "tuple"
    requires Envelope.Field(v, "kind") == Some(C.Text(kind)) && Envelope.Field(v, "items") == Some(C.List(items))
    ensures ReadNode(v) == Node(if kind == "list" then List else Tuple, ReadAll(items), [])
  {
    hide Envelope.Field, ReadAll;
  }

  lemma {:induction false} ReadDictNode(v: C.Value, entries: seq<C.Value>)
    requires Envelope.Field(v, "kind") == Some(C.Text("dict")) && Envelope.Field(v, "entries") == Some(C.List(entries))
    ensures ReadNode(v) == Node(Dict, ReadPairs(entries), [])
  {
    hide Envelope.Field, ReadPairs;
  }

  lemma {:induction false} ReadScopeNode(v: C.Value, b: C.Value, w: C.Value)
    requires Envelope.Field(v, "kind") == Some(C.Text("o_scope"))
    requires Envelope.Field(v, "bindings") == Some(b) && Envelope.Field(v, "wire_bindings") == Some(w)
    ensures ReadNode(v) == Node(Scope, [ReadEnc(b), ReadEnc(w)], [])
  {
    hide Envelope.Field, ReadEnc;
  }

  lemma {:induction false} ReadBytesNode(v: C.Value, data: seq<byte>)
    requires ReadText(Envelope.Field(v, "kind")) == Some("bytearray")
    requires ReadText(Envelope.Field(v, "value_b64")) == Some(Base64.Encode(data))
    ensures ReadNode(v) == Node(ByteArray, [], data)
  {
    Base64.DecodeEncode(data);
    hide Envelope.Field, ReadText, Base64.Encode, Base64.Decode;
  }

  lemma {:induction false} ListNodeCrosses(kind: string, es: seq<Enc>)
    requires kind == "list" || kind == "tuple"
    requires WrittenAll(es) && C.InRange(Record(kind, [C.Entry("items", C.List(WriteAll(es)))]))
    ensures ReadNode(C.Norm(Record(kind, [C.Entry("items", C.List(WriteAll(es)))])))
         == Node(if kind == "list" then List else Tuple, ArrivedEncs(es), [])
  {
    hide *;
    var fields := [C.Entry("items", C.List(WriteAll(es)))];
    RecordInRange(kind, fields, 0);
    ReadKind(kind, fields);
    ReadOne(kind, "items", C.List(WriteAll(es)));
    AllCross(es);
    ReadListNode(C.Norm(Record(kind, fields)), kind, C.NormItems(WriteAll(es)));
  }

  lemma {:induction false} ListItemsInRange(vs: seq<C.Value>)
    requires C.InRange(C.List(vs))
    ensures InRangeAll(vs)
  {
  }

  lemma {:induction false} DictNodeCrosses(es: seq<Enc>)
    requires WrittenAll(es) && |es| % 2 == 0 && C.InRange(Record("dict", [C.Entry("entries", C.List(WritePairs(es)))]))
    ensures ReadNode(C.Norm(Record("dict", [C.Entry("entries", C.List(WritePairs(es)))])))
         == Node(Dict, ArrivedEncs(es), [])
  {
    hide *;
    var fields := [C.Entry("entries", C.List(WritePairs(es)))];
    RecordInRange("dict", fields, 0);
    ListItemsInRange(WritePairs(es));
    ReadKind("dict", fields);
    ReadOne("dict", "entries", C.List(WritePairs(es)));
    ListNorm(WritePairs(es));
    PairsCross(es);
    ReadDictNode(C.Norm(Record("dict", fields)), C.NormItems(WritePairs(es)));
  }

  lemma {:induction false} ScopeNodeCrosses(b: Enc, w: Enc)
    requires WrittenEnc(b) && WrittenEnc(w)
    requires C.InRange(Record("o_scope", [C.Entry("bindings", WriteEnc(b)), C.Entry("wire_bindings", WriteEnc(w))]))
    ensures ReadNode(C.Norm(Record("o_scope",
        [C.Entry("bindings", WriteEnc(b)), C.Entry("wire_bindings", WriteEnc(w))])))
         == Node(Scope, [ArrivedEnc(b), ArrivedEnc(w)], [])
  {
    hide *;
    var fields := [C.Entry("bindings", WriteEnc(b)), C.Entry("wire_bindings", WriteEnc(w))];
    RecordInRange("o_scope", fields, 0);
    RecordInRange("o_scope", fields, 1);
    ReadKind("o_scope", fields);
    ReadTwo("o_scope", "bindings", WriteEnc(b), "wire_bindings", WriteEnc(w));
    EncCrosses(b);
    EncCrosses(w);
    ReadScopeNode(C.Norm(Record("o_scope", fields)), C.Norm(WriteEnc(b)), C.Norm(WriteEnc(w)));
  }

  lemma {:induction false} BytesNodeCrosses(data: seq<byte>)
    requires C.InRange(Record("bytearray", [C.Entry("value_b64", C.Text(Base64.Encode(data)))]))
    ensures ReadNode(C.Norm(Record("bytearray", [C.Entry("value_b64", C.Text(Base64.Encode(data)))])))
         == Node(ByteArray, [], data)
  {
    hide *;
    ReadTextRecord("bytearray", "value_b64", Base64.Encode(data));
    ReadBytesNode(C.Norm(Record("bytearray", [C.Entry("value_b64", C.Text(Base64.Encode(data)))])), data);
  }

  /** A node's record, written and read across the wire, is the same record up to opaque
      values. */
  lemma {:induction false} NodeCrosses(n: Node)
    requires WrittenNode(n) && C.InRange(WriteNode(n))
    ensures ReadNode(C.Norm(WriteNode(n))) == ArrivedNode(n)
  {
    hide ReadNode, C.Norm, C.InRange, Record, WritePairs, WrittenAll, ArrivedEnc;
    match n.kind
    case List => ListNodeCrosses("list", n.items);
    case Tuple => ListNodeCrosses("tuple", n.items);
    case Dict => DictNodeCrosses(n.items);
    case ByteArray =>
      BytesNodeCrosses(n.data);
      assert ArrivedEncs(n.items) == [];
    case Scope =>
      WrittenEach(n.items);
      ScopeNodeCrosses(n.items[0], n.items[1]);
      assert ArrivedEncs(n.items) == [ArrivedEnc(n.items[0]), ArrivedEnc(n.items[1])];
  }

  lemma {:induction false} WrittenEach(es: seq<Enc>)
    requires WrittenAll(es)
    ensures forall i :: 0 <= i < |es| ==> WrittenEnc(es[i])
  {
  }

  // ------------------------------------------------------------ the whole payload

  ghost predicate WrittenPayload(p: Actor.Payload)
  {
    && (forall i :: 0 <= i < |p.globals| ==> WrittenEnc(p.globals[i].value))
    && (forall i :: 0 <= i < |p.nodes| ==> WrittenNode(p.nodes[i]))
  }

  lemma {:induction false} NormFive(v: C.Value, key: string, i: nat)
    requires v.Map? && |v.entries| == 5 && i < 5 && C.InRange(v) && v.entries[i].key == key
    ensures Envelope.Field(C.Norm(v), key) == Some(C.Norm(v.entries[i].value)) && C.InRange(v.entries[i].value)
  {
    Envelope.FieldNorm(v, key);
    Envelope.LookupAt(v.entries, i);
    hide C.Norm;
  }

  lemma {:induction false} GlobalsCross(gs: seq<Actor.Global>)
    requires C.InRange(C.List(WriteGlobals(gs))) && forall i :: 0 <= i < |gs| ==> WrittenEnc(gs[i].value)
    ensures var r := C.NormItems(WriteGlobals(gs));
      forall i :: 0 <= i < |gs| ==>
        IsGlobal(r[i]) && Actor.Global(r[i].items[0].s, ReadEnc(r[i].items[1])) == ArrivedGlobals(gs)[i]
  {
    hide C.Norm, ReadEnc, WriteEnc, ArrivedEnc;
    forall i | 0 <= i < |gs|
      ensures var r := C.NormItems(WriteGlobals(gs));
        IsGlobal(r[i]) && Actor.Global(r[i].items[0].s, ReadEnc(r[i].items[1])) == ArrivedGlobals(gs)[i]
    {
      var pair := [C.Text(gs[i].name), WriteEnc(gs[i].value)];
      assert WriteGlobals(gs)[i] == C.List(pair);
      assert C.InRange(C.List(pair)) && C.InRange(pair[1]);
      ListNorm(pair);
      TextNorm(gs[i].name);
      EncCrosses(gs[i].value);
    }
  }

  lemma {:induction false} NamesCross(names: seq<string>)
    ensures C.NormItems(WriteNames(names)) == WriteNames(names)
  {
    forall i | 0 <= i < |names|
      ensures C.NormItems(WriteNames(names))[i] == WriteNames(names)[i]
    {
      TextNorm(names[i]);
    }
  }

  lemma {:induction false} NodesCross(nodes: seq<Node>)
    requires C.InRange(C.List(WriteNodes(nodes))) && forall i :: 0 <= i < |nodes| ==> WrittenNode(nodes[i])
    ensures forall i :: 0 <= i < |nodes| ==> ReadNode(C.NormItems(WriteNodes(nodes))[i]) == ArrivedNodes(nodes)[i]
  {
    hide C.Norm, ReadNode, WriteNode, WrittenNode, ArrivedNode;
    forall i | 0 <= i < |nodes| ensures ReadNode(C.NormItems(WriteNodes(nodes))[i]) == ArrivedNodes(nodes)[i] {
      assert WriteNodes(nodes)[i] == WriteNode(nodes[i]);
      NodeCrosses(nodes[i]);
    }
  }

  /** A payload dict, sent and received, is read back as the same payload up to opaque values. */
  lemma {:induction false} PayloadCrosses(p: Actor.Payload)
    requires WrittenPayload(p) && C.InRange(WritePayload(p))
    ensures ReadPayload(C.Norm(WritePayload(p))) == Some(ArrivedPayload(p))
  {
    hide *;
    PayloadRecord(p);
    ListNorm(WriteGlobals(p.globals));
    ListNorm(WriteNames(p.deleted));
    ListNorm(WriteNodes(p.nodes));
    TextNorm(p.profile);
    TextNorm(p.ambient);
    WrittenParts(p);
    GlobalsCross(p.globals);
    NamesCross(p.deleted);
    NodesCross(p.nodes);
    ArrivedParts(p);
    PayloadFields(C.Norm(WritePayload(p)), ArrivedPayload(p), C.NormItems(WriteGlobals(p.globals)),
      C.NormItems(WriteNodes(p.nodes)));
  }

  lemma {:induction false} WrittenParts(p: Actor.Payload)
    requires WrittenPayload(p)
    ensures forall i :: 0 <= i < |p.globals| ==> WrittenEnc(p.globals[i].value)
    ensures forall i :: 0 <= i < |p.nodes| ==> WrittenNode(p.nodes[i])
  {
  }

  lemma {:induction false} ArrivedParts(p: Actor.Payload)
    ensures var q := ArrivedPayload(p);
      && q.profile == p.profile && q.ambient == p.ambient && q.deleted == p.deleted
      && q.globals == ArrivedGlobals(p.globals) && q.nodes == ArrivedNodes(p.nodes)
      && |q.globals| == |p.globals| && |q.nodes| == |p.nodes|
  {
  }

  lemma {:induction false} PayloadRecord(p: Actor.Payload)
    requires C.InRange(WritePayload(p))
    ensures var v := C.Norm(WritePayload(p));
      && Envelope.Field(v, "profile") == Some(C.Norm(C.Text(p.profile)))
      && Envelope.Field(v, "ambient_sha256") == Some(C.Norm(C.Text(p.ambient)))
      && Envelope.Field(v, "globals") == Some(C.Norm(C.List(WriteGlobals(p.globals))))
      && Envelope.Field(v, "deleted_baseline") == Some(C.Norm(C.List(WriteNames(p.deleted))))
      && Envelope.Field(v, "nodes") == Some(C.Norm(C.List(WriteNodes(p.nodes))))
    ensures C.InRange(C.List(WriteGlobals(p.globals))) && C.InRange(C.List(WriteNodes(p.nodes)))
  {
    hide C.Norm, C.InRange, Envelope.Field;
    var v := WritePayload(p);
    NormFive(v, "profile", 0);
    NormFive(v, "ambient_sha256", 1);
    NormFive(v, "globals", 2);
    NormFive(v, "deleted_baseline", 3);
    NormFive(v, "nodes", 4);
  }

  lemma {:induction false} PayloadFields(v: C.Value, p: Actor.Payload, gs: seq<C.Value>, ns: seq<C.Value>)
    requires Envelope.Field(v, "profile") == Some(C.Text(p.profile))
    requires Envelope.Field(v, "ambient_sha256") == Some(C.Text(p.ambient))
    requires Envelope.Field(v, "globals") == Some(C.List(gs)) && Envelope.Field(v, "nodes") == Some(C.List(ns))
    requires Envelope.Field(v, "deleted_baseline") == Some(C.List(WriteNames(p.deleted)))
    requires |gs| == |p.globals| && |ns| == |p.nodes|
    requires forall i :: 0 <= i < |gs| ==>
      IsGlobal(gs[i]) && Actor.Global(gs[i].items[0].s, ReadEnc(gs[i].items[1])) == p.globals[i]
    requires forall i :: 0 <= i < |ns| ==> ReadNode(ns[i]) == p.nodes[i]
    ensures ReadPayload(v) == Some(p)
  {
    hide Envelope.Field, ReadEnc, ReadNode;
    var r := ReadPayload(v);
    assert r.Some?;
    assert r.value.globals == p.globals;
    assert r.value.deleted == p.deleted;
    assert r.value.nodes == p.nodes;
  }

  // ------------------------------------------------------------ byte strings

  // A payload holds byte strings only inside opaque values.

  predicate FreeScalar(s: Scalar) { s.Opaque? ==> C.BytesFree(s.wire) }

  predicate FreeEnc(e: Enc) { e.Plain? && e.code.Copied? ==> FreeScalar(e.code.scalar) }

  predicate FreeAll(es: seq<Enc>) { forall i :: 0 <= i < |es| ==> FreeEnc(es[i]) }

  predicate FreePayload(p: Actor.Payload)
  {
    && (forall i :: 0 <= i < |p.globals| ==> FreeEnc(p.globals[i].value))
    && (forall i :: 0 <= i < |p.nodes| ==> p.nodes[i].Node? ==> FreeAll(p.nodes[i].items))
  }

  lemma {:induction false} RecordBytesFree(kind: string, fields: seq<C.Entry>)
    ensures C.BytesFree(Record(kind, fields)) <==> forall i :: 0 <= i < |fields| ==> C.BytesFree(fields[i].value)
  {
    var es := Record(kind, fields).entries;
    assert forall i :: 0 <= i < |fields| ==> es[i + 1] == fields[i];
    if forall i :: 0 <= i < |fields| ==> C.BytesFree(fields[i].value) {
      forall i | 0 <= i < |es| ensures C.BytesFree(es[i].value) {
        if i > 0 { assert es[i] == fields[i - 1]; }
      }
    }
  }

  lemma {:induction false} OneBytesFree(kind: string, key: string, v: C.Value)
    ensures C.BytesFree(Record(kind, [C.Entry(key, v)])) <==> C.BytesFree(v)
  {
    var fields := [C.Entry(key, v)];
    RecordBytesFree(kind, fields);
    assert fields[0].value == v;
    hide C.BytesFree, Record;
  }

  lemma {:induction false} TwoBytesFree(kind: string, k: string, v: C.Value, l: string, w: C.Value)
    ensures C.BytesFree(Record(kind, [C.Entry(k, v), C.Entry(l, w)])) <==> C.BytesFree(v) && C.BytesFree(w)
  {
    var fields := [C.Entry(k, v), C.Entry(l, w)];
    RecordBytesFree(kind, fields);
    assert fields[0].value == v && fields[1].value == w;
    hide C.BytesFree, Record;
  }

  lemma {:induction false} ListBytesFree(items: seq<C.Value>)
    ensures C.BytesFree(C.List(items)) <==> forall i :: 0 <= i < |items| ==> C.BytesFree(items[i])
  {
  }

  lemma {:induction false} BitsBytesFree(bits: seq<byte>)
    ensures C.BytesFree(Bits(bits))
  {
  }

  lemma {:induction false} EncBytesFree(e: Enc)
    requires WrittenEnc(e)
    ensures C.BytesFree(WriteEnc(e)) <==> FreeEnc(e)
  {
    hide Record, Base64.Encode;
    match e
    case Pointer(n) => OneBytesFree("ref", "node", C.Int(n));
    case Plain(c) =>
      if c.IntText? { OneBytesFree("int", "value", C.Text(c.text)); } else { ScalarBytesFree(c.scalar); }
  }

  lemma {:induction false} ScalarBytesFree(s: Scalar)
    requires !s.Integer?
    ensures C.BytesFree(WriteCode(Copied(s))) <==> FreeScalar(s)
  {
    hide Record, Base64.Encode, Bits;
    match s
    case Nothing => RecordBytesFree("none", []);
    case Boolean(b) => OneBytesFree("bool", "value", C.Bool(b));
    case Float64(bits) => BitsBytesFree(bits); OneBytesFree("float64", "bits", Bits(bits));
    case Str(t) => OneBytesFree("str", "value", C.Text(t));
    case Html(t) => OneBytesFree("o_html", "value", C.Text(t));
    case StorePath(t) => OneBytesFree("o_store_path", "value", C.Text(t));
    case ByteString(b) => OneBytesFree("bytes", "value_b64", C.Text(Base64.Encode(b)));
    case Complex(re, im) =>
      BitsBytesFree(re);
      BitsBytesFree(im);
      TwoBytesFree("complex", "real_bits", Bits(re), "imag_bits", Bits(im));
    case Expr(src) => OneBytesFree("o_expr", "src", C.Text(src));
    case Opaque(wire) => OneBytesFree("o_opaque", "wire_value", wire);
  }

  lemma {:induction false} AllBytesFree(es: seq<Enc>)
    requires WrittenAll(es)
    ensures C.BytesFree(C.List(WriteAll(es))) <==> FreeAll(es)
  {
    hide WriteEnc, WrittenEnc, FreeEnc, C.BytesFree;
    forall i | 0 <= i < |es| ensures C.BytesFree(WriteAll(es)[i]) <==> FreeEnc(es[i]) { EncBytesFree(es[i]); }
    ListBytesFree(WriteAll(es));
  }

  lemma {:induction false} PairsBytesFree(es: seq<Enc>)
    requires WrittenAll(es) && |es| % 2 == 0
    ensures C.BytesFree(C.List(WritePairs(es))) <==> FreeAll(es)
  {
    hide WriteEnc, WrittenEnc, FreeEnc, C.BytesFree;
    ListBytesFree(WritePairs(es));
    if es != [] {
      var pair, rest := [WriteEnc(es[0]), WriteEnc(es[1])], WritePairs(es[2..]);
      EncBytesFree(es[0]);
      EncBytesFree(es[1]);
      ListBytesFree(pair);
      assert pair[0] == WriteEnc(es[0]) && pair[1] == WriteEnc(es[1]);
      PairsBytesFree(es[2..]);
      ListBytesFree(rest);
      FirstAndRest(C.List(pair), rest);
      assert es == [es[0], es[1]] + es[2..];
      assert FreeAll(es) <==> FreeEnc(es[0]) && FreeEnc(es[1]) && FreeAll(es[2..]) by { FreeSplit(es); }
    }
  }

  lemma {:induction false} FirstAndRest(v: C.Value, rest: seq<C.Value>)
    ensures (forall i :: 0 <= i < |[v] + rest| ==> C.BytesFree(([v] + rest)[i]))
       <==> C.BytesFree(v) && forall i :: 0 <= i < |rest| ==> C.BytesFree(rest[i])
  {
    hide C.BytesFree;
    var all := [v] + rest;
    assert all[0] == v && forall i :: 0 <= i < |rest| ==> all[i + 1] == rest[i];
    if C.BytesFree(v) && forall i :: 0 <= i < |rest| ==> C.BytesFree(rest[i]) {
      forall i | 0 <= i < |all| ensures C.BytesFree(all[i]) { if i > 0 { assert all[i] == rest[i - 1]; } }
    }
  }

  lemma {:induction false} FreeSplit(es: seq<Enc>)
    requires |es| >= 2
    ensures FreeAll(es) <==> FreeEnc(es[0]) && FreeEnc(es[1]) && FreeAll(es[2..])
  {
    hide FreeEnc;
    assert forall i :: 2 <= i < |es| ==> es[i] == es[2..][i - 2];
    assert forall i :: 0 <= i < |es[2..]| ==> es[2..][i] == es[i + 2];
  }

  lemma {:induction false} NodeBytesFree(n: Node)
    requires WrittenNode(n)
    ensures C.BytesFree(WriteNode(n)) <==> FreeAll(n.items)
  {
    hide Record, WritePairs, WriteAll, C.BytesFree, WriteEnc, WrittenEnc, FreeEnc, Base64.Encode;
    match n.kind
    case List => AllBytesFree(n.items); OneBytesFree("list", "items", C.List(WriteAll(n.items)));
    case Tuple => AllBytesFree(n.items); OneBytesFree("tuple", "items", C.List(WriteAll(n.items)));
    case Dict => PairsBytesFree(n.items); OneBytesFree("dict", "entries", C.List(WritePairs(n.items)));
    case ByteArray =>
      TextBytesFree(Base64.Encode(n.data));
      OneBytesFree("bytearray", "value_b64", C.Text(Base64.Encode(n.data)));
    case Scope =>
      EncBytesFree(n.items[0]);
      EncBytesFree(n.items[1]);
      TwoBytesFree("o_scope", "bindings", WriteEnc(n.items[0]), "wire_bindings", WriteEnc(n.items[1]));
  }

  lemma {:induction false} TextBytesFree(s: string)
    ensures C.BytesFree(C.Text(s))
  {
  }

  lemma {:induction false} GlobalsBytesFree(gs: seq<Actor.Global>)
    requires forall i :: 0 <= i < |gs| ==> WrittenEnc(gs[i].value)
    ensures C.BytesFree(C.List(WriteGlobals(gs))) <==> forall i :: 0 <= i < |gs| ==> FreeEnc(gs[i].value)
  {
    hide WriteEnc, WrittenEnc, FreeEnc, C.BytesFree;
    forall i | 0 <= i < |gs| ensures C.BytesFree(WriteGlobals(gs)[i]) <==> FreeEnc(gs[i].value) {
      var pair := [C.Text(gs[i].name), WriteEnc(gs[i].value)];
      EncBytesFree(gs[i].value);
      TextBytesFree(gs[i].name);
      ListBytesFree(pair);
      assert pair[0] == C.Text(gs[i].name) && pair[1] == WriteEnc(gs[i].value);
    }
    ListBytesFree(WriteGlobals(gs));
  }

  lemma {:induction false} NodesBytesFree(ns: seq<Node>)
    requires forall i :: 0 <= i < |ns| ==> WrittenNode(ns[i])
    ensures C.BytesFree(C.List(WriteNodes(ns))) <==> forall i :: 0 <= i < |ns| ==> ns[i].Node? ==> FreeAll(ns[i].items)
  {
    hide WriteNode, FreeAll, C.BytesFree;
    forall i | 0 <= i < |ns| ensures C.BytesFree(WriteNodes(ns)[i]) <==> FreeAll(ns[i].items) { NodeBytesFree(ns[i]); }
    ListBytesFree(WriteNodes(ns));
  }

  lemma {:induction false} FiveBytesFree(v: C.Value)
    requires v.Map? && |v.entries| == 5
    ensures C.BytesFree(v) <==>
      && C.BytesFree(v.entries[0].value) && C.BytesFree(v.entries[1].value) && C.BytesFree(v.entries[2].value)
      && C.BytesFree(v.entries[3].value) && C.BytesFree(v.entries[4].value)
  {
  }

  /** The payload dict has a byte string in it exactly when an opaque value it carries has. */
  lemma {:induction false} PayloadBytesFree(p: Actor.Payload)
    requires WrittenPayload(p)
    ensures C.BytesFree(WritePayload(p)) <==> FreePayload(p)
  {
    hide WriteGlobals, WriteNodes, FreeEnc, FreeAll, WrittenEnc, C.BytesFree;
    FiveBytesFree(WritePayload(p));
    TextBytesFree(p.profile);
    TextBytesFree(p.ambient);
    forall i | 0 <= i < |p.deleted| ensures C.BytesFree(WriteNames(p.deleted)[i]) { TextBytesFree(p.deleted[i]); }
    ListBytesFree(WriteNames(p.deleted));
    GlobalsBytesFree(p.globals);
    NodesBytesFree(p.nodes);
  }

  /** `{"t": "x", "v": b"\x07"}`, which `OOpaqueValue` accepts. */
  const TAGGED_BYTES := C.Map([C.Entry("t", C.Text("x")), C.Entry("v", C.Bytes([7]))])

  /** A payload can hold a byte string, and then is not read back as it was written. */
  lemma {:induction false} OpaqueBytes(profile: string, ambient: string, name: string)
    ensures
      var p := Actor.Payload(profile, ambient, [Actor.Global(name, Copy(Opaque(TAGGED_BYTES)))], [], []);
      && GraphDecoder.ValidScalar(Opaque(TAGGED_BYTES)) && WrittenPayload(p)
      && !C.BytesFree(WritePayload(p)) && ArrivedPayload(p) != p
  {
    hide C.BytesFree, C.Norm, C.InRange, WritePayload;
    var p := Actor.Payload(profile, ambient, [Actor.Global(name, Copy(Opaque(TAGGED_BYTES)))], [], []);
    TaggedBytes();
    assert TAGGED_BYTES.entries[0].key == "t";
    assert !FreeEnc(p.globals[0].value);
    PayloadBytesFree(p);
    NormIsFree(TAGGED_BYTES);
    assert ArrivedPayload(p).globals[0] != p.globals[0];
  }

  lemma {:induction false} TaggedBytes()
    ensures C.InRange(TAGGED_BYTES) && !C.BytesFree(TAGGED_BYTES)
  {
    assert !C.BytesFree(TAGGED_BYTES.entries[1].value);
    OneChar("t");
    OneChar("x");
    OneChar("v");
  }

  lemma {:induction false} OneChar(s: string)
    requires |s| == 1
    ensures |Utf8.Encode(s)| <= 4
  {
    assert Utf8.Encode(s[1..]) == [];
  }

  lemma {:induction false} NormIsFree(v: C.Value)
    requires C.InRange(v) && !C.BytesFree(v)
    ensures C.Norm(v) != v
  {
    CborTheorems.InRangeNorm(v);
  }

  // ------------------------------------------------- what the encoder writes

  lemma {:induction false} ImageWritten(memo: map<nat, nat>, vs: seq<Value>)
    requires Covers(memo, vs) && Supported(vs)
    ensures WrittenAll(ImageAll(memo, vs))
  {
  }

  lemma {:induction false} TableWritten(h: Heap, eq: GraphDecoder.Equality, roots: seq<Value>, es: seq<Enc>,
                                         table: seq<Node>, memo: map<nat, nat>)
    requires GraphTheorems.GoodHeap(h, eq) && TableOf(h, roots, es, table, memo)
    ensures WrittenAll(es) && forall j :: 0 <= j < |table| ==> WrittenNode(table[j])
  {
    hide WrittenAll;
    ImageWritten(memo, roots);
    forall j | 0 <= j < |table| ensures WrittenNode(table[j]) {
      var i := GraphTheorems.Origin(memo, |table|, j);
      ImageWritten(memo, h[i].items);
      assert GraphTheorems.GoodObject(h, eq, h[i]);
    }
  }

  predicate FreeValue(v: Value) { v.Leaf? ==> FreeScalar(v.scalar) }

  predicate FreeValues(vs: seq<Value>) { forall i :: 0 <= i < |vs| ==> FreeValue(vs[i]) }

  /** No opaque value the checkpoint reaches has a byte string in it. */
  ghost predicate FreeActor(h: Heap, env: Actor.Env, base: Actor.Env)
    requires ClosedHeap(h) && Actor.EnvClosed(h, env) && Actor.Checkpoint(h, env, base, "").Some?
  {
    && (forall n :: n in Actor.Own(env, base) ==> FreeValue(env[n]))
    && (forall i :: i in Actor.Reached(h, env, base) && i < |h| ==> FreeValues(h[i].items))
  }

  lemma {:induction false} ImageFree(memo: map<nat, nat>, vs: seq<Value>)
    ensures FreeAll(ImageAll(memo, vs)) <==> FreeValues(vs)
  {
    hide C.BytesFree, Decimal.Format;
    assert forall i :: 0 <= i < |vs| ==> (FreeEnc(ImageAll(memo, vs)[i]) <==> FreeValue(vs[i]));
  }

  lemma {:induction false} TableFree(h: Heap, roots: seq<Value>, es: seq<Enc>, table: seq<Node>, memo: map<nat, nat>)
    requires TableOf(h, roots, es, table, memo)
    ensures FreeAll(es) <==> FreeValues(roots)
    ensures (forall j :: 0 <= j < |table| ==> table[j].Node? ==> FreeAll(table[j].items))
       <==> (forall i :: i in memo && i < |h| ==> FreeValues(h[i].items))
  {
    hide FreeAll, FreeValues, ImageAll;
    ImageFree(memo, roots);
    forall i | i in memo && i < |h|
      ensures table[memo[i]].Node? && (FreeAll(table[memo[i]].items) <==> FreeValues(h[i].items))
    {
      ImageFree(memo, h[i].items);
    }
    if forall i :: i in memo && i < |h| ==> FreeValues(h[i].items) {
      forall j | 0 <= j < |table| && table[j].Node? ensures FreeAll(table[j].items) {
        var i := GraphTheorems.Origin(memo, |table|, j);
      }
    }
  }

  lemma {:induction false} RootsFree(env: Actor.Env, base: Actor.Env)
    ensures FreeValues(Actor.Roots(env, base)) <==> forall n :: n in Actor.Own(env, base) ==> FreeValue(env[n])
  {
    hide Actor.Roots, SortedNames, Ascending, FreeValue;
    var roots := Actor.Roots(env, base);
    if FreeValues(roots) {
      forall n | n in Actor.Own(env, base) ensures FreeValue(env[n]) { var i := Actor.RootOf(env, base, n); }
    }
    if forall n :: n in Actor.Own(env, base) ==> FreeValue(env[n]) {
      forall i | 0 <= i < |roots| ensures FreeValue(roots[i]) { Actor.RootAt(env, base, i); }
    }
  }

  /** Every checkpoint of an actor can be read back, and has a byte string in it exactly when
      an opaque value it reaches has. */
  lemma {:induction false} CheckpointWritten(h: Heap, env: Actor.Env, base: Actor.Env, ambient: string,
                                             eq: GraphDecoder.Equality, p: Actor.Payload)
    requires Actor.GoodActor(h, env, base, eq) && Actor.Checkpoint(h, env, base, ambient) == Some(p)
    ensures WrittenPayload(p) && Actor.Checkpoint(h, env, base, "").Some?
    ensures C.BytesFree(WritePayload(p)) <==> FreeActor(h, env, base)
  {
    hide EncodeGraph, MemoOf, TableOf, Actor.Checkpoint, SortedNames, Ascending, Actor.Roots, Actor.Own, Actor.Reached,
         WrittenEnc, WrittenNode, FreeEnc, FreeAll, FreeValues, C.BytesFree, WritePayload;
    var roots := Actor.Roots(env, base);
    Actor.CheckpointDefined(h, env, base, ambient);
    EncodedTable(h, roots);
    var (es, table) := EncodeGraph(h, roots).value;
    TableWritten(h, eq, roots, es, table, MemoOf(h, roots));
    Actor.CheckpointIs(h, env, base, ambient);
    WrittenEach(es);
    PayloadBytesFree(p);
    TableFree(h, roots, es, table, MemoOf(h, roots));
    RootsFree(env, base);
    NamedFree(SortedNames(Actor.Own(env, base)), es);
  }

  lemma {:induction false} NamedFree(names: seq<string>, es: seq<Enc>)
    requires |names| == |es|
    ensures (forall i :: 0 <= i < |es| ==> FreeEnc(Actor.Named(names, es)[i].value)) <==> FreeAll(es)
  {
    hide FreeEnc;
    assert forall i :: 0 <= i < |es| ==> Actor.Named(names, es)[i].value == es[i];
  }

  // ----------------------------------------- writing an arrived payload again

  lemma {:induction false} SameEntries(es: seq<C.Entry>, fs: seq<C.Entry>)
    requires |es| == |fs|
    requires forall i :: 0 <= i < |es| ==> es[i].key == fs[i].key && C.Norm(es[i].value) == C.Norm(fs[i].value)
    ensures C.Norm(C.Map(es)) == C.Norm(C.Map(fs))
  {
    hide C.Norm;
    assert C.NormEntries(es) == C.NormEntries(fs);
    CborTheorems.NormOfMap(es);
    CborTheorems.NormOfMap(fs);
  }

  lemma {:induction false} SameOne(kind: string, key: string, v: C.Value, w: C.Value)
    requires C.Norm(v) == C.Norm(w)
    ensures C.Norm(Record(kind, [C.Entry(key, v)])) == C.Norm(Record(kind, [C.Entry(key, w)]))
  {
    hide C.Norm;
    SameEntries(Record(kind, [C.Entry(key, v)]).entries, Record(kind, [C.Entry(key, w)]).entries);
  }

  lemma {:induction false} SameItems(xs: seq<C.Value>, ys: seq<C.Value>)
    requires |xs| == |ys| && forall i :: 0 <= i < |xs| ==> C.Norm(xs[i]) == C.Norm(ys[i])
    ensures C.Norm(C.List(xs)) == C.Norm(C.List(ys))
  {
    hide C.Norm;
    ListNorm(xs);
    ListNorm(ys);
    assert C.NormItems(xs) == C.NormItems(ys);
  }

  lemma {:induction false} EncAgain(e: Enc)
    requires C.InRange(WriteEnc(e))
    ensures C.Norm(WriteEnc(ArrivedEnc(e))) == C.Norm(WriteEnc(e))
  {
    hide C.Norm, C.InRange, Record;
    if e.Plain? && e.code.Copied? && e.code.scalar.Opaque? {
      var wire := e.code.scalar.wire;
      RecordInRange("o_opaque", [C.Entry("wire_value", wire)], 0);
      CborTheorems.NormTwice(wire);
      SameOne("o_opaque", "wire_value", C.Norm(wire), wire);
    }
  }

  lemma {:induction false} AllAgain(es: seq<Enc>)
    requires C.InRange(C.List(WriteAll(es)))
    ensures C.Norm(C.List(WriteAll(ArrivedEncs(es)))) == C.Norm(C.List(WriteAll(es)))
  {
    hide C.Norm, WriteEnc, ArrivedEnc;
    forall i | 0 <= i < |es| ensures C.Norm(WriteAll(ArrivedEncs(es))[i]) == C.Norm(WriteAll(es)[i]) {
      assert C.InRange(WriteAll(es)[i]);
      EncAgain(es[i]);
    }
    SameItems(WriteAll(ArrivedEncs(es)), WriteAll(es));
  }

  lemma {:induction false} PairsAgain(es: seq<Enc>)
    requires InRangeAll(WritePairs(es))
    ensures |WritePairs(ArrivedEncs(es))| == |WritePairs(es)|
    ensures forall i :: 0 <= i < |WritePairs(es)| ==>
      C.Norm(WritePairs(ArrivedEncs(es))[i]) == C.Norm(WritePairs(es)[i])
  {
    hide C.Norm, WriteEnc, ArrivedEnc;
    if |es| >= 2 {
      var pair, rest := [WriteEnc(es[0]), WriteEnc(es[1])], WritePairs(es[2..]);
      var as' := ArrivedEncs(es);
      assert as'[2..] == ArrivedEncs(es[2..]);
      assert WritePairs(es)[0] == C.List(pair) && C.InRange(C.List(pair)) && C.InRange(pair[0]) && C.InRange(pair[1]);
      assert InRangeAll(rest) by {
        forall i | 0 <= i < |rest| ensures C.InRange(rest[i]) {
          assert WritePairs(es)[i + 1] == rest[i];
        }
      }
      EncAgain(es[0]);
      EncAgain(es[1]);
      SameItems([WriteEnc(as'[0]), WriteEnc(as'[1])], pair);
      PairsAgain(es[2..]);
    }
  }

  lemma {:induction false} NodeAgain(n: Node)
    requires C.InRange(WriteNode(n))
    ensures C.Norm(WriteNode(ArrivedNode(n))) == C.Norm(WriteNode(n))
  {
    hide C.Norm, C.InRange, WriteEnc, WriteAll, WritePairs, Record, ArrivedEnc, Base64.Encode;
    if n.Node? {
      var as' := ArrivedEncs(n.items);
      match n.kind
      case List => ListAgain("list", n.items);
      case Tuple => ListAgain("tuple", n.items);
      case Dict =>
        RecordInRange("dict", [C.Entry("entries", C.List(WritePairs(n.items)))], 0);
        ListItemsInRange(WritePairs(n.items));
        PairsAgain(n.items);
        SameItems(WritePairs(as'), WritePairs(n.items));
        SameOne("dict", "entries", C.List(WritePairs(as')), C.List(WritePairs(n.items)));
      case ByteArray =>
      case Scope => if |n.items| == 2 { ScopeAgain(n.items[0], n.items[1]); }
    }
  }

  lemma {:induction false} ListAgain(kind: string, es: seq<Enc>)
    requires C.InRange(Record(kind, [C.Entry("items", C.List(WriteAll(es)))]))
    ensures C.Norm(Record(kind, [C.Entry("items", C.List(WriteAll(ArrivedEncs(es))))]))
         == C.Norm(Record(kind, [C.Entry("items", C.List(WriteAll(es)))]))
  {
    hide *;
    RecordInRange(kind, [C.Entry("items", C.List(WriteAll(es)))], 0);
    AllAgain(es);
    SameOne(kind, "items", C.List(WriteAll(ArrivedEncs(es))), C.List(WriteAll(es)));
  }

  lemma {:induction false} ScopeAgain(b: Enc, w: Enc)
    requires C.InRange(Record("o_scope", [C.Entry("bindings", WriteEnc(b)), C.Entry("wire_bindings", WriteEnc(w))]))
    ensures C.Norm(Record("o_scope",
        [C.Entry("bindings", WriteEnc(ArrivedEnc(b))), C.Entry("wire_bindings", WriteEnc(ArrivedEnc(w)))]))
         == C.Norm(Record("o_scope", [C.Entry("bindings", WriteEnc(b)), C.Entry("wire_bindings", WriteEnc(w))]))
  {
    hide C.Norm, C.InRange, WriteEnc, ArrivedEnc;
    var fields := [C.Entry("bindings", WriteEnc(b)), C.Entry("wire_bindings", WriteEnc(w))];
    RecordInRange("o_scope", fields, 0);
    RecordInRange("o_scope", fields, 1);
    EncAgain(b);
    EncAgain(w);
    var again := [C.Entry("bindings", WriteEnc(ArrivedEnc(b))), C.Entry("wire_bindings", WriteEnc(ArrivedEnc(w)))];
    SameEntries(Record("o_scope", again).entries, Record("o_scope", fields).entries);
  }

  /** Written again, an arrived payload is read as the first one was. */
  lemma {:induction false} PayloadAgain(p: Actor.Payload)
    requires C.InRange(WritePayload(p))
    ensures C.Norm(WritePayload(ArrivedPayload(p))) == C.Norm(WritePayload(p))
  {
    hide C.Norm, C.InRange, WriteEnc, WriteNode, ArrivedEnc, ArrivedNode;
    var q := ArrivedPayload(p);
    PayloadRecord(p);
    ListItemsInRange(WriteGlobals(p.globals));
    ListItemsInRange(WriteNodes(p.nodes));
    forall i | 0 <= i < |p.globals| ensures C.Norm(WriteGlobals(q.globals)[i]) == C.Norm(WriteGlobals(p.globals)[i]) {
      GlobalAgain(p.globals[i]);
    }
    SameItems(WriteGlobals(q.globals), WriteGlobals(p.globals));
    forall i | 0 <= i < |p.nodes| ensures C.Norm(WriteNodes(q.nodes)[i]) == C.Norm(WriteNodes(p.nodes)[i]) {
      NodeAgain(p.nodes[i]);
    }
    SameItems(WriteNodes(q.nodes), WriteNodes(p.nodes));
    SameEntries(WritePayload(q).entries, WritePayload(p).entries);
  }

  lemma {:induction false} GlobalAgain(g: Actor.Global)
    requires C.InRange(C.List([C.Text(g.name), WriteEnc(g.value)]))
    ensures C.Norm(C.List([C.Text(g.name), WriteEnc(ArrivedEnc(g.value))])) ==
      C.Norm(C.List([C.Text(g.name), WriteEnc(g.value)]))
  {
    hide C.Norm, WriteEnc, ArrivedEnc;
    var pair := [C.Text(g.name), WriteEnc(g.value)];
    assert C.InRange(pair[1]);
    EncAgain(g.value);
    SameItems([C.Text(g.name), WriteEnc(ArrivedEnc(g.value))], pair);
  }

  lemma {:induction false} ArrivedIsFree(p: Actor.Payload)
    requires WrittenPayload(p) && C.InRange(WritePayload(p))
    ensures WrittenPayload(ArrivedPayload(p)) && C.BytesFree(WritePayload(ArrivedPayload(p)))
  {
    hide *;
    ArrivedStaysWritten(p);
    PayloadRecord(p);
    ListItemsInRange(WriteGlobals(p.globals));
    ListItemsInRange(WriteNodes(p.nodes));
    ArrivedFree(p);
    PayloadBytesFree(ArrivedPayload(p));
  }

  lemma {:induction false} ArrivedStaysWritten(p: Actor.Payload)
    requires WrittenPayload(p)
    ensures WrittenPayload(ArrivedPayload(p))
  {
  }

  lemma {:induction false} EncArrivesFree(e: Enc)
    requires C.InRange(WriteEnc(e))
    ensures FreeEnc(ArrivedEnc(e))
  {
    hide C.Norm, C.InRange, C.BytesFree, Record;
    if e.Plain? && e.code.Copied? && e.code.scalar.Opaque? {
      var wire := e.code.scalar.wire;
      RecordInRange("o_opaque", [C.Entry("wire_value", wire)], 0);
      CborTheorems.InRangeNorm(wire);
    }
  }

  lemma {:induction false} PairsInRange(es: seq<Enc>)
    requires |es| % 2 == 0 && InRangeAll(WritePairs(es))
    ensures forall i :: 0 <= i < |es| ==> C.InRange(WriteEnc(es[i]))
  {
    hide WriteEnc;
    if es != [] {
      var pair, rest := [WriteEnc(es[0]), WriteEnc(es[1])], WritePairs(es[2..]);
      assert WritePairs(es)[0] == C.List(pair) && C.InRange(C.List(pair)) && C.InRange(pair[0]) && C.InRange(pair[1]);
      assert InRangeAll(rest) by {
        forall i | 0 <= i < |rest| ensures C.InRange(rest[i]) {
          assert WritePairs(es)[i + 1] == rest[i];
        }
      }
      PairsInRange(es[2..]);
      forall i | 0 <= i < |es| ensures C.InRange(WriteEnc(es[i])) { if i >= 2 { assert es[i] == es[2..][i - 2]; } }
    }
  }

  lemma {:induction false} NodeItemsInRange(n: Node)
    requires WrittenNode(n) && C.InRange(WriteNode(n))
    ensures forall i :: 0 <= i < |n.items| ==> C.InRange(WriteEnc(n.items[i]))
  {
    hide WriteEnc, WritePairs, C.InRange, Record, Base64.Encode;
    match n.kind
    case List => ListRecordInRange("list", n.items);
    case Tuple => ListRecordInRange("tuple", n.items);
    case Dict =>
      RecordInRange("dict", [C.Entry("entries", C.List(WritePairs(n.items)))], 0);
      ListItemsInRange(WritePairs(n.items));
      PairsInRange(n.items);
    case ByteArray =>
    case Scope =>
      var fields := [C.Entry("bindings", WriteEnc(n.items[0])), C.Entry("wire_bindings", WriteEnc(n.items[1]))];
      RecordInRange("o_scope", fields, 0);
      RecordInRange("o_scope", fields, 1);
  }

  lemma {:induction false} ListRecordInRange(kind: string, es: seq<Enc>)
    requires C.InRange(Record(kind, [C.Entry("items", C.List(WriteAll(es)))]))
    ensures forall i :: 0 <= i < |es| ==> C.InRange(WriteEnc(es[i]))
  {
    hide WriteEnc, C.InRange, Record;
    RecordInRange(kind, [C.Entry("items", C.List(WriteAll(es)))], 0);
    ListItemsInRange(WriteAll(es));
    forall i | 0 <= i < |es| ensures C.InRange(WriteEnc(es[i])) { assert C.InRange(WriteAll(es)[i]); }
  }

  lemma {:induction false} ArrivedFree(p: Actor.Payload)
    requires WrittenPayload(p) && InRangeAll(WriteGlobals(p.globals)) && InRangeAll(WriteNodes(p.nodes))
    ensures FreePayload(ArrivedPayload(p))
  {
    hide WriteEnc, WriteNode, ArrivedEnc, FreeEnc, WrittenEnc;
    var q := ArrivedPayload(p);
    forall i | 0 <= i < |q.globals| ensures FreeEnc(q.globals[i].value) {
      var pair := [C.Text(p.globals[i].name), WriteEnc(p.globals[i].value)];
      assert C.InRange(WriteGlobals(p.globals)[i]) && C.InRange(pair[1]);
      EncArrivesFree(p.globals[i].value);
    }
    forall i | 0 <= i < |q.nodes| ensures FreeAll(q.nodes[i].items) {
      var n := p.nodes[i];
      assert C.InRange(WriteNodes(p.nodes)[i]);
      NodeItemsInRange(n);
      forall k | 0 <= k < |n.items| ensures FreeEnc(ArrivedEncs(n.items)[k]) { EncArrivesFree(n.items[k]); }
    }
  }

  /** A payload without byte strings, received and written again, is the same bytes. */
  lemma {:induction false} RewrittenAlike(p: Actor.Payload)
    requires WrittenPayload(p) && C.InRange(WritePayload(p)) && C.BytesFree(WritePayload(p))
    ensures C.InRange(WritePayload(ArrivedPayload(p)))
    ensures C.Encode(WritePayload(ArrivedPayload(p))) == C.Encode(WritePayload(p))
  {
    hide *;
    PayloadAgain(p);
    ArrivedIsFree(p);
    CborTheorems.ReadAlike(WritePayload(p), WritePayload(ArrivedPayload(p)));
  }
}
