/** The graph payload as wire records: the dicts that the encoder of
    backends/python_shim.py builds and its decoder takes apart. */
module GraphWire {
  import opened Wrappers
  import opened Ordering
  import opened PyHeap
  import opened GraphEncoder
  import C = Cbor
  import Base64
  import Decimal
  import Envelope
  import Actor

  function Record(kind: string, fields: seq<C.Entry>): C.Value { C.Map([C.Entry("kind", C.Text(kind))] + fields) }

  function Bits(bits: seq<byte>): C.Value { C.List(C.Ints(bits)) }

  // ---------------------------------------------------------------- writing

  function WriteCode(c: Code): C.Value
  {
    match c
    case IntText(text) => Record("int", [C.Entry("value", C.Text(text))])
    case Copied(s) =>
      match s
      case Nothing => Record("none", [])
      case Boolean(b) => Record("bool", [C.Entry("value", C.Bool(b))])
      case Integer(n) => Record("int", [C.Entry("value", C.Int(n))])
      case Float64(bits) => Record("float64", [C.Entry("bits", Bits(bits))])
      case Str(t) => Record("str", [C.Entry("value", C.Text(t))])
      case Html(t) => Record("o_html", [C.Entry("value", C.Text(t))])
      case StorePath(t) => Record("o_store_path", [C.Entry("value", C.Text(t))])
      case ByteString(b) => Record("bytes", [C.Entry("value_b64", C.Text(Base64.Encode(b)))])
      case Complex(re, im) => Record("complex", [C.Entry("real_bits", Bits(re)), C.Entry("imag_bits", Bits(im))])
      case Expr(src) => Record("o_expr", [C.Entry("src", C.Text(src))])
      case Opaque(wire) => Record("o_opaque", [C.Entry("wire_value", wire)])
  }

  function WriteEnc(e: Enc): C.Value
  {
    match e
    case Plain(c) => WriteCode(c)
    case Pointer(n) => Record("ref", [C.Entry("node", C.Int(n))])
    case BadValue => C.Null
  }

  function WriteAll(es: seq<Enc>): (r: seq<C.Value>)
    ensures |r| == |es| && forall i :: 0 <= i < |es| ==> r[i] == WriteEnc(es[i])
  {
    seq(|es|, i requires 0 <= i < |es| => WriteEnc(es[i]))
  }

  /** A dict's entries as two-element lists. */
  function WritePairs(es: seq<Enc>): seq<C.Value>
  {
    if |es| < 2 then [] else [C.List([WriteEnc(es[0]), WriteEnc(es[1])])] + WritePairs(es[2..])
  }

  function WriteNode(n: Node): C.Value
  {
    if n.BadNode? then C.Null
    else
      match n.kind
      case List => Record("list", [C.Entry("items", C.List(WriteAll(n.items)))])
      case Tuple => Record("tuple", [C.Entry("items", C.List(WriteAll(n.items)))])
      case Dict => Record("dict", [C.Entry("entries", C.List(WritePairs(n.items)))])
      case ByteArray => Record("bytearray", [C.Entry("value_b64", C.Text(Base64.Encode(n.data)))])
      case Scope =>
        if |n.items| != 2 then C.Null
        else
          Record("o_scope", [C.Entry("bindings", WriteEnc(n.items[0])), C.Entry("wire_bindings", WriteEnc(n.items[1]))])
  }

  // ---------------------------------------------------------------- reading

  /** `bytes(value)` on a list of integers. */
  function ReadBits(v: Option<C.Value>): Option<seq<byte>>
  {
    if v.Some? && v.value.List? && forall i :: 0 <= i < |v.value.items| ==>
      v.value.items[i].Int? && 0 <= v.value.items[i].n < 256
    then
      var items := v.value.items;
      Some(seq(|items|, i requires 0 <= i < |items| => items[i].n))
    else None
  }

  function ReadText(v: Option<C.Value>): Option<string>
  {
    if v.Some? && v.value.Text? then Some(v.value.s) else None
  }

  function Copy(s: Scalar): Enc { Plain(Copied(s)) }

  function ReadEnc(v: C.Value): Enc
  {
    var kind := ReadText(Envelope.Field(v, "kind"));
    if kind.None? then BadValue
    else
      var text := ReadText(Envelope.Field(v, "value"));
      if kind.value == "none" then Copy(Nothing)
      else if kind.value == "bool" then
        var b := Envelope.Field(v, "value");
        if b.Some? && b.value.Bool? then Copy(Boolean(b.value.b)) else BadValue
      else if kind.value == "int" then
        var n := Envelope.Field(v, "value");
        if text.Some? then Plain(IntText(text.value))
        else if n.Some? && n.value.Int? then Plain(IntText(Decimal.Format(n.value.n)))
        else BadValue
      else if kind.value == "str" then (if text.None? then BadValue else Copy(Str(text.value)))
      else if kind.value == "o_html" then (if text.None? then BadValue else Copy(Html(text.value)))
      else if kind.value == "o_store_path" then (if text.None? then BadValue else Copy(StorePath(text.value)))
      else ReadOther(v, kind.value)
  }

  function ReadOther(v: C.Value, kind: string): Enc
  {
    if kind == "float64" then
      var bits := ReadBits(Envelope.Field(v, "bits"));
      if bits.None? then BadValue else Copy(Float64(bits.value))
    else if kind == "bytes" then
      var b := ReadBase64(v);
      if b.None? then BadValue else Copy(ByteString(b.value))
    else if kind == "complex" then
      var re, im := ReadBits(Envelope.Field(v, "real_bits")), ReadBits(Envelope.Field(v, "imag_bits"));
      if re.None? || im.None? then BadValue else Copy(Complex(re.value, im.value))
    else if kind == "o_expr" then
      var src := ReadText(Envelope.Field(v, "src"));
      if src.None? then BadValue else Copy(Expr(src.value))
    else if kind == "o_opaque" then
      var wire := Envelope.Field(v, "wire_value");
      if wire.None? then BadValue else Copy(Opaque(wire.value))
    else if kind == "ref" then
      var n := Envelope.Field(v, "node");
      if n.Some? && n.value.Int? then Pointer(n.value.n) else BadValue
    else BadValue
  }

  function ReadBase64(v: C.Value): Option<seq<byte>>
  {
    var text := ReadText(Envelope.Field(v, "value_b64"));
    if text.None? then None else Base64.Decode(text.value)
  }

  function ReadAll(vs: seq<C.Value>): (r: seq<Enc>)
    ensures |r| == |vs| && forall i :: 0 <= i < |vs| ==> r[i] == ReadEnc(vs[i])
  {
    seq(|vs|, i requires 0 <= i < |vs| => ReadEnc(vs[i]))
  }

  /** A malformed entry leaves the node unreadable. */
  function ReadPairs(vs: seq<C.Value>): seq<Enc>
  {
    if vs == [] then []
    else if !vs[0].List? || |vs[0].items| != 2 then [BadValue, BadValue]
    else [ReadEnc(vs[0].items[0]), ReadEnc(vs[0].items[1])] + ReadPairs(vs[1..])
  }

  /** `node.get(key, [])` where a list is expected. */
  function ReadList(v: C.Value, key: string): Option<seq<C.Value>>
  {
    var items := Envelope.Field(v, key);
    if items.None? then Some([]) else if items.value.List? then Some(items.value.items) else None
  }

  function ReadNode(v: C.Value): Node
  {
    var kind := ReadText(Envelope.Field(v, "kind"));
    if kind.None? then BadNode
    else if kind.value == "list" || kind.value == "tuple" then
      var items := ReadList(v, "items");
      Node(if kind.value == "list" then List else Tuple, if items.None? then [BadValue] else ReadAll(items.value), [])
    else if kind.value == "dict" then
      var entries := ReadList(v, "entries");
      Node(Dict, if entries.None? then [BadValue] else ReadPairs(entries.value), [])
    else if kind.value == "bytearray" then
      var data := ReadBase64(v);
      if data.None? then BadNode else Node(ByteArray, [], data.value)
    else if kind.value == "o_scope" then
      var b, w := Envelope.Field(v, "bindings"), Envelope.Field(v, "wire_bindings");
      Node(Scope, if b.None? || w.None? then [BadValue] else [ReadEnc(b.value), ReadEnc(w.value)], [])
    else BadNode
  }

  function WriteGlobals(gs: seq<Actor.Global>): (r: seq<C.Value>)
    ensures |r| == |gs|
    ensures forall i :: 0 <= i < |gs| ==> r[i] == C.List([C.Text(gs[i].name), WriteEnc(gs[i].value)])
  {
    seq(|gs|, i requires 0 <= i < |gs| => C.List([C.Text(gs[i].name), WriteEnc(gs[i].value)]))
  }

  function WriteNames(names: seq<string>): (r: seq<C.Value>)
    ensures |r| == |names| && forall i :: 0 <= i < |names| ==> r[i] == C.Text(names[i])
  {
    seq(|names|, i requires 0 <= i < |names| => C.Text(names[i]))
  }

  function WriteNodes(nodes: seq<Node>): (r: seq<C.Value>)
    ensures |r| == |nodes| && forall i :: 0 <= i < |nodes| ==> r[i] == WriteNode(nodes[i])
  {
    seq(|nodes|, i requires 0 <= i < |nodes| => WriteNode(nodes[i]))
  }

  /** The dict `_encode_python_globals` returns. */
  function WritePayload(p: Actor.Payload): C.Value
  {
    C.Map([
      C.Entry("profile", C.Text(p.profile)), C.Entry("ambient_sha256", C.Text(p.ambient)),
      C.Entry("globals", C.List(WriteGlobals(p.globals))), C.Entry("deleted_baseline", C.List(WriteNames(p.deleted))),
      C.Entry("nodes", C.List(WriteNodes(p.nodes)))
    ])
  }

  predicate IsGlobal(v: C.Value) { v.List? && |v.items| == 2 && v.items[0].Text? }

  /** What `_decode_python_globals` takes from a payload dict; nothing when its shape is wrong. */
  function ReadPayload(v: C.Value): Option<Actor.Payload>
  {
    var profile, ambient := ReadText(Envelope.Field(v, "profile")), ReadText(Envelope.Field(v, "ambient_sha256"));
    var globals, nodes := Envelope.Field(v, "globals"), Envelope.Field(v, "nodes");
    var deleted := ReadList(v, "deleted_baseline");
    if profile.None? || ambient.None? || globals.None? || nodes.None? || deleted.None? then None
    else if !globals.value.List? || !nodes.value.List? then None
    else
      var gs, ns := globals.value.items, nodes.value.items;
      if || (exists i :: 0 <= i < |gs| && !IsGlobal(gs[i]))
       || (exists i :: 0 <= i < |deleted.value| && !deleted.value[i].Text?)
      then None
      else Some(Actor.Payload(profile.value, ambient.value,
        seq(|gs|, i requires 0 <= i < |gs| => Actor.Global(gs[i].items[0].s, ReadEnc(gs[i].items[1]))),
        seq(|deleted.value|, i requires 0 <= i < |deleted.value| => deleted.value[i].s),
        seq(|ns|, i requires 0 <= i < |ns| => ReadNode(ns[i]))))
  }
}
