/** Exactly which dicts are read as which records of a checkpoint payload, whoever wrote them. */
module GraphReads {
  import opened Wrappers
  import opened Ordering
  import opened PyHeap
  import opened GraphEncoder
  import opened GraphWire
  import C = Cbor
  import Actor
  import Base64
  import Decimal
  import Envelope

  ghost predicate TextAt(v: C.Value, key: string, s: string) { Envelope.Field(v, key) == Some(C.Text(s)) }

  /** `v` has a text under `value_b64` that base64 decodes to `data`. */
  ghost predicate Base64At(v: C.Value, data: seq<byte>)
  {
    exists t :: TextAt(v, "value_b64", t) && Base64.Decode(t) == Some(data)
  }

  ghost predicate NumberAt(v: C.Value, t: string)
  {
    TextAt(v, "value", t) || exists n :: Envelope.Field(v, "value") == Some(C.Int(n)) && t == Decimal.Format(n)
  }

  /** `v` is a record of the scalar `s`. */
  ghost predicate ScalarReads(s: Scalar, v: C.Value)
  {
    match s
    case Nothing => TextAt(v, "kind", "none")
    case Boolean(b) => TextAt(v, "kind", "bool") && Envelope.Field(v, "value") == Some(C.Bool(b))
    case Integer(_) => false
    case Float64(bits) => TextAt(v, "kind", "float64") && Envelope.Field(v, "bits") == Some(C.List(C.Ints(bits)))
    case Str(t) => TextAt(v, "kind", "str") && TextAt(v, "value", t)
    case Html(t) => TextAt(v, "kind", "o_html") && TextAt(v, "value", t)
    case StorePath(t) => TextAt(v, "kind", "o_store_path") && TextAt(v, "value", t)
    case ByteString(data) => TextAt(v, "kind", "bytes") && Base64At(v, data)
    case Complex(re, im) =>
      && TextAt(v, "kind", "complex") && Envelope.Field(v, "real_bits") == Some(C.List(C.Ints(re)))
      && Envelope.Field(v, "imag_bits") == Some(C.List(C.Ints(im)))
    case Expr(src) => TextAt(v, "kind", "o_expr") && TextAt(v, "src", src)
    case Opaque(wire) => TextAt(v, "kind", "o_opaque") && Envelope.Field(v, "wire_value") == Some(wire)
  }

  ghost predicate EncReads(e: Enc, v: C.Value)
  {
    match e
    case Plain(IntText(t)) => TextAt(v, "kind", "int") && NumberAt(v, t)
    case Plain(Copied(s)) => ScalarReads(s, v)
    case Pointer(n) => TextAt(v, "kind", "ref") && Envelope.Field(v, "node") == Some(C.Int(n))
    case BadValue => false
  }

  lemma {:induction false} BitsExactly(v: Option<C.Value>, bits: seq<byte>)
    ensures ReadBits(v) == Some(bits) <==> v == Some(C.List(C.Ints(bits)))
  {
    if ReadBits(v) == Some(bits) {
      assert v.value.items == C.Ints(bits);
    }
    if v == Some(C.List(C.Ints(bits))) {
      assert ReadBits(v).Some? && ReadBits(v).value == bits;
    }
  }

  lemma {:induction false} Base64Exactly(v: C.Value, data: seq<byte>)
    ensures ReadBase64(v) == Some(data) <==> Base64At(v, data)
  {
    hide Base64.Decode, Envelope.Field;
    if ReadBase64(v) == Some(data) { assert TextAt(v, "value_b64", Envelope.Field(v, "value_b64").value.s); }
  }

  lemma {:induction false} NumberExactly(v: C.Value)
    ensures
      var w := Envelope.Field(v, "value");
      forall t :: NumberAt(v, t) <==>
        w.Some? && ((w.value.Text? && t == w.value.s) || (w.value.Int? && t == Decimal.Format(w.value.n)))
  {
    hide Envelope.Field, Decimal.Format;
  }

  /** A dict is read as a record exactly when it spells it; other keys are ignored. */
  lemma {:induction false} EncExactly(v: C.Value, e: Enc)
    requires e != BadValue
    ensures ReadEnc(v) == e <==> EncReads(e, v)
  {
    hide ReadOther, Envelope.Field, NumberAt, Base64At, EncReads, Decimal.Format;
    var kind := Envelope.Field(v, "kind");
    ReadsKind(v, e);
    if kind.Some? && kind.value.Text? {
      if kind.value.s in {"none", "bool", "int", "str", "o_html", "o_store_path"} {
        EarlyKinds(v, e, kind.value.s);
      } else {
        OtherExactly(v, kind.value.s, e);
      }
    }
  }

  /** The kind that records of `e` have. */
  function KindOf(e: Enc): string
    requires e != BadValue
  {
    match e
    case Pointer(_) => "ref"
    case Plain(IntText(_)) => "int"
    case Plain(Copied(s)) =>
      match s
      case Nothing => "none"
      case Boolean(_) => "bool"
      case Integer(_) => ""
      case Float64(_) => "float64"
      case Str(_) => "str"
      case Html(_) => "o_html"
      case StorePath(_) => "o_store_path"
      case ByteString(_) => "bytes"
      case Complex(_, _) => "complex"
      case Expr(_) => "o_expr"
      case Opaque(_) => "o_opaque"
  }

  lemma {:induction false} ReadsKind(v: C.Value, e: Enc)
    requires e != BadValue
    ensures EncReads(e, v) ==> TextAt(v, "kind", KindOf(e))
  {
    hide NumberAt, Base64At;
  }

  lemma {:induction false} EarlyKinds(v: C.Value, e: Enc, kind: string)
    requires e != BadValue && TextAt(v, "kind", kind)
    requires kind in {"none", "bool", "int", "str", "o_html", "o_store_path"}
    ensures ReadEnc(v) == e <==> EncReads(e, v)
  {
    hide Envelope.Field, NumberAt, Base64At, EncReads, ReadEnc;
    ReadsKind(v, e);
    EarlyKind(v, kind);
    if kind == KindOf(e) { EarlySame(v, e); }
  }

  /** What is read of an early kind is of that kind. */
  lemma {:induction false} EarlyKind(v: C.Value, kind: string)
    requires TextAt(v, "kind", kind) && kind in {"none", "bool", "int", "str", "o_html", "o_store_path"}
    ensures ReadEnc(v) != BadValue ==> KindOf(ReadEnc(v)) == kind
  {
    hide Envelope.Field, Decimal.Format, ReadOther;
  }

  lemma {:induction false} EarlySame(v: C.Value, e: Enc)
    requires e != BadValue && TextAt(v, "kind", KindOf(e))
    requires KindOf(e) in {"none", "bool", "int", "str", "o_html", "o_store_path"}
    ensures ReadEnc(v) == e <==> EncReads(e, v)
  {
    hide Envelope.Field, Decimal.Format, ReadOther, NumberAt, Base64At;
    NumberExactly(v);
  }

  lemma {:induction false} OtherExactly(v: C.Value, kind: string, e: Enc)
    requires e != BadValue && TextAt(v, "kind", kind)
    requires kind !in {"none", "bool", "int", "str", "o_html", "o_store_path"}
    ensures ReadOther(v, kind) == e <==> EncReads(e, v)
  {
    hide Envelope.Field, NumberAt, Base64At, EncReads, ReadOther;
    ReadsKind(v, e);
    OtherKind(v, kind);
    if kind == KindOf(e) { OtherSame(v, e); }
  }

  lemma {:induction false} OtherKind(v: C.Value, kind: string)
    ensures ReadOther(v, kind) != BadValue ==> KindOf(ReadOther(v, kind)) == kind
  {
    hide Envelope.Field, ReadBits, ReadBase64;
  }

  lemma {:induction false} OtherSame(v: C.Value, e: Enc)
    requires e != BadValue && TextAt(v, "kind", KindOf(e))
    requires KindOf(e) !in {"none", "bool", "int", "str", "o_html", "o_store_path"}
    ensures ReadOther(v, KindOf(e)) == e <==> EncReads(e, v)
  {
    hide Envelope.Field, ReadBits, ReadBase64, NumberAt, Base64At;
    match e {
      case Plain(Copied(Float64(bits))) => BitsExactly(Envelope.Field(v, "bits"), bits);
      case Plain(Copied(Complex(re, im))) =>
        BitsExactly(Envelope.Field(v, "real_bits"), re);
        BitsExactly(Envelope.Field(v, "imag_bits"), im);
      case Plain(Copied(ByteString(data))) => Base64Exactly(v, data);
      case _ =>
    }
  }

  // ------------------------------------------------------------------------ nodes

  /** The list under `key`, which may be missing, spells the records. */
  ghost predicate ItemsRead(v: C.Value, key: string, es: seq<Enc>)
  {
    match Envelope.Field(v, key)
    case None => es == []
    case Some(List(vs)) => |vs| == |es| && forall i :: 0 <= i < |vs| ==> EncReads(es[i], vs[i])
    case Some(_) => false
  }

  /** The list under `entries`, which may be missing, spells pairs of records. */
  ghost predicate PairsRead(v: C.Value, es: seq<Enc>)
  {
    match Envelope.Field(v, "entries")
    case None => es == []
    case Some(List(vs)) => PairList(vs, es)
    case Some(_) => false
  }

  ghost predicate PairList(vs: seq<C.Value>, es: seq<Enc>)
  {
    && |es| == 2 * |vs|
    && forall i :: 0 <= i < |vs| ==>
         && vs[i].List? && |vs[i].items| == 2
         && EncReads(es[2 * i], vs[i].items[0]) && EncReads(es[2 * i + 1], vs[i].items[1])
  }

  ghost predicate NodeReads(n: Node, v: C.Value)
  {
    && n.Node?
    && (n.kind != ByteArray ==> n.data == [])
    && match n.kind
       case List => TextAt(v, "kind", "list") && ItemsRead(v, "items", n.items)
       case Tuple => TextAt(v, "kind", "tuple") && ItemsRead(v, "items", n.items)
       case Dict => TextAt(v, "kind", "dict") && PairsRead(v, n.items)
       case ByteArray => TextAt(v, "kind", "bytearray") && n.items == [] && Base64At(v, n.data)
       case Scope =>
         && TextAt(v, "kind", "o_scope") && |n.items| == 2
         && var b, w := Envelope.Field(v, "bindings"), Envelope.Field(v, "wire_bindings");
            b.Some? && w.Some? && EncReads(n.items[0], b.value) && EncReads(n.items[1], w.value)
  }

  lemma {:induction false} ItemsExactly(vs: seq<C.Value>, es: seq<Enc>)
    requires BadValue !in es
    ensures ReadAll(vs) == es <==> |vs| == |es| && forall i :: 0 <= i < |vs| ==> EncReads(es[i], vs[i])
  {
    hide ReadEnc, EncReads;
    forall i | 0 <= i < |vs| && i < |es| ensures ReadEnc(vs[i]) == es[i] <==> EncReads(es[i], vs[i]) {
      assert es[i] in es;
      EncExactly(vs[i], es[i]);
    }
  }

  lemma {:induction false} PairsExactly(vs: seq<C.Value>, es: seq<Enc>)
    requires BadValue !in es
    ensures ReadPairs(vs) == es <==> PairList(vs, es)
  {
    hide ReadEnc, EncReads;
    if vs != [] {
      if vs[0].List? && |vs[0].items| == 2 {
        var a, b := vs[0].items[0], vs[0].items[1];
        if |es| >= 2 {
          assert es[0] in es && es[1] in es;
          EncExactly(a, es[0]);
          EncExactly(b, es[1]);
          var rest := es[2..];
          assert BadValue !in rest;
          PairsExactly(vs[1..], rest);
          assert es == [es[0], es[1]] + rest;
          PairListCons(vs, es);
          var r := [ReadEnc(a), ReadEnc(b)] + ReadPairs(vs[1..]);
          assert r[0] == ReadEnc(a) && r[1] == ReadEnc(b) && r[2..] == ReadPairs(vs[1..]);
        }
      } else {
        assert ReadPairs(vs)[0] == BadValue;
      }
    }
  }

  lemma {:induction false} PairListCons(vs: seq<C.Value>, es: seq<Enc>)
    requires vs != [] && |es| >= 2
    ensures PairList(vs, es) <==>
      && vs[0].List? && |vs[0].items| == 2 && EncReads(es[0], vs[0].items[0]) && EncReads(es[1], vs[0].items[1])
      && PairList(vs[1..], es[2..])
  {
    hide EncReads;
    var ws, fs := vs[1..], es[2..];
    if PairList(vs, es) {
      assert vs[0].List? && EncReads(es[2 * 0], vs[0].items[0]) && EncReads(es[2 * 0 + 1], vs[0].items[1]);
      forall i | 0 <= i < |ws|
        ensures && ws[i].List? && |ws[i].items| == 2
                && EncReads(fs[2 * i], ws[i].items[0]) && EncReads(fs[2 * i + 1], ws[i].items[1])
      {
        assert ws[i] == vs[i + 1] && fs[2 * i] == es[2 * (i + 1)] && fs[2 * i + 1] == es[2 * (i + 1) + 1];
      }
    }
    if && vs[0].List? && |vs[0].items| == 2 && EncReads(es[0], vs[0].items[0]) && EncReads(es[1], vs[0].items[1])
       && PairList(ws, fs)
    {
      forall i | 0 <= i < |vs|
        ensures && vs[i].List? && |vs[i].items| == 2
                && EncReads(es[2 * i], vs[i].items[0]) && EncReads(es[2 * i + 1], vs[i].items[1])
      {
        if i > 0 {
          assert ws[i - 1] == vs[i] && fs[2 * (i - 1)] == es[2 * i] && fs[2 * (i - 1) + 1] == es[2 * i + 1];
        }
      }
    }
  }

  function ItemsAt(v: C.Value, key: string): seq<Enc>
  {
    var l := ReadList(v, key);
    if l.None? then [BadValue] else ReadAll(l.value)
  }

  lemma {:induction false} ItemsAtExactly(v: C.Value, key: string, es: seq<Enc>)
    requires BadValue !in es
    ensures ItemsAt(v, key) == es <==> ItemsRead(v, key, es)
  {
    hide Envelope.Field, EncReads, ReadAll;
    NoItems();
    match Envelope.Field(v, key) {
      case Some(List(vs)) => ItemsExactly(vs, es);
      case _ =>
    }
  }

  function PairsAt(v: C.Value): seq<Enc>
  {
    var l := ReadList(v, "entries");
    if l.None? then [BadValue] else ReadPairs(l.value)
  }

  lemma {:induction false} PairsAtExactly(v: C.Value, es: seq<Enc>)
    requires BadValue !in es
    ensures PairsAt(v) == es <==> PairsRead(v, es)
  {
    hide Envelope.Field, PairList, ReadPairs;
    NoItems();
    match Envelope.Field(v, "entries") {
      case Some(List(vs)) => PairsExactly(vs, es);
      case _ =>
    }
  }

  lemma {:induction false} SeqNode(v: C.Value, n: Node, kind: string)
    requires n.Node? && BadValue !in n.items && TextAt(v, "kind", kind) && (kind == "list" || kind == "tuple")
    ensures ReadNode(v) == n <==> NodeReads(n, v)
  {
    hide Envelope.Field, ReadList, ItemsRead, PairsRead, Base64At, EncReads, ReadAll;
    ItemsAtExactly(v, "items", n.items);
    assert ReadNode(v) == Node(if kind == "list" then List else Tuple, ItemsAt(v, "items"), []);
    hide ReadNode, ItemsAt;
  }

  lemma {:induction false} DictNode(v: C.Value, n: Node)
    requires n.Node? && BadValue !in n.items && TextAt(v, "kind", "dict")
    ensures ReadNode(v) == n <==> NodeReads(n, v)
  {
    hide Envelope.Field, ReadList, ItemsRead, PairsRead, Base64At, EncReads, ReadPairs;
    PairsAtExactly(v, n.items);
    assert ReadNode(v) == Node(Dict, PairsAt(v), []);
    hide ReadNode, PairsAt;
  }

  lemma {:induction false} BytesNode(v: C.Value, n: Node)
    requires n.Node? && TextAt(v, "kind", "bytearray")
    ensures ReadNode(v) == n <==> NodeReads(n, v)
  {
    hide Envelope.Field, EncReads, ReadBase64, Base64At, ItemsRead, PairsRead, ReadPairs, ReadAll;
    Base64Exactly(v, n.data);
  }

  lemma {:induction false} ScopeNode(v: C.Value, n: Node)
    requires n.Node? && BadValue !in n.items && TextAt(v, "kind", "o_scope")
    ensures ReadNode(v) == n <==> NodeReads(n, v)
  {
    hide Envelope.Field, ReadEnc, EncReads, ReadBase64, Base64At, ItemsRead, PairsRead, ReadPairs, ReadAll;
    var b, w := Envelope.Field(v, "bindings"), Envelope.Field(v, "wire_bindings");
    if |n.items| == 2 && b.Some? && w.Some? {
      assert n.items[0] in n.items && n.items[1] in n.items;
      EncExactly(b.value, n.items[0]);
      EncExactly(w.value, n.items[1]);
      assert n.items == [n.items[0], n.items[1]];
    }
  }

  /** A dict is read as a container exactly when it spells one. */
  lemma {:induction false} NodeExactly(v: C.Value, n: Node)
    requires n.Node? && BadValue !in n.items
    ensures ReadNode(v) == n <==> NodeReads(n, v)
  {
    hide Envelope.Field, ReadEnc, EncReads, ReadBase64, Base64At, ItemsRead, PairsRead, ReadPairs, ReadAll;
    var kind := Envelope.Field(v, "kind");
    if TextAt(v, "kind", "list") {
      SeqNode(v, n, "list");
    } else if TextAt(v, "kind", "tuple") {
      SeqNode(v, n, "tuple");
    } else if TextAt(v, "kind", "dict") {
      DictNode(v, n);
    } else if TextAt(v, "kind", "bytearray") {
      BytesNode(v, n);
    } else if TextAt(v, "kind", "o_scope") {
      ScopeNode(v, n);
    }
  }

  lemma {:induction false} NoItems()
    ensures ReadAll([]) == [] && ReadPairs([]) == []
  {
  }

  // ---------------------------------------------------------------------- payloads

  ghost predicate GlobalReads(g: Actor.Global, v: C.Value)
  {
    v.List? && |v.items| == 2 && v.items[0] == C.Text(g.name) && g.value == ReadEnc(v.items[1])
  }

  /** `v` says everything that `p` does. */
  ghost predicate PayloadReads(p: Actor.Payload, v: C.Value)
  {
    && TextAt(v, "profile", p.profile) && TextAt(v, "ambient_sha256", p.ambient)
    && (match Envelope.Field(v, "globals")
        case Some(List(gs)) => |gs| == |p.globals| && forall i :: 0 <= i < |gs| ==> GlobalReads(p.globals[i], gs[i])
        case _ => false)
    && (match Envelope.Field(v, "deleted_baseline")
        case None => p.deleted == []
        case Some(List(ds)) => |ds| == |p.deleted| && forall i :: 0 <= i < |ds| ==> ds[i] == C.Text(p.deleted[i])
        case Some(_) => false)
    && (match Envelope.Field(v, "nodes")
        case Some(List(ns)) => |ns| == |p.nodes| && forall i :: 0 <= i < |ns| ==> p.nodes[i] == ReadNode(ns[i])
        case _ => false)
  }

  /** A dict is read as a payload exactly when it says everything the payload does. */
  lemma {:induction false} PayloadExactly(v: C.Value, p: Actor.Payload)
    ensures ReadPayload(v) == Some(p) <==> PayloadReads(p, v)
  {
    hide Envelope.Field, ReadEnc, ReadNode;
    if PayloadReads(p, v) {
      var gs, ns := Envelope.Field(v, "globals").value.items, Envelope.Field(v, "nodes").value.items;
      forall i | 0 <= i < |gs| ensures IsGlobal(gs[i]) { assert GlobalReads(p.globals[i], gs[i]); }
      var q := ReadPayload(v).value;
      assert q.globals == p.globals && q.nodes == p.nodes && q.deleted == p.deleted;
    }
  }
}
