/** The plain-data crossing of backends/python_shim.py: `_lossless_native_witness`,
    `_lossless_input`, and the input law that `handle_exec` enforces. */
module PlainData {
  import opened Wrappers
  import opened Ordering
  import opened PyHeap
  import C = Cbor
  import Decimal
  import Envelope

  const MAX_DEPTH: nat := 64

  /** A plain native value read as a tree. */
  datatype Tree =
    | Null
    | Bool(b: bool)
    | Int(n: int)
    | Float(bits: seq<byte>)
    | Text(s: string)
    | ListOf(items: seq<Tree>)
    | MapOf(entries: seq<Pair>)

  datatype Pair = Pair(key: string, value: Tree)

  predicate Finite(bits: seq<byte>) { |bits| == 8 && !(bits[0] % 128 == 127 && bits[1] / 16 == 15) }

  predicate DistinctPairs(es: seq<Pair>) { forall i, j :: 0 <= i < j < |es| ==> es[i].key != es[j].key }

  /** Finite floats and dict keys without repetition, all the way down. */
  predicate Plain(t: Tree)
  {
    match t
    case Float(bits) => Finite(bits)
    case ListOf(items) => forall i :: 0 <= i < |items| ==> Plain(items[i])
    case MapOf(es) => DistinctPairs(es) && forall i :: 0 <= i < |es| ==> Plain(es[i].value)
    case _ => true
  }

  /** Placed at depth `d`, no part lies deeper than the limit. */
  predicate Within(t: Tree, d: nat)
  {
    && d <= MAX_DEPTH
    && match t
       case ListOf(items) => forall i :: 0 <= i < |items| ==> Within(items[i], d + 1)
       case MapOf(es) => forall i :: 0 <= i < |es| ==> Within(es[i].value, d + 1)
       case _ => true
  }

  // ---------------------------------------------------------- the wire form

  function Tagged(tag: string, v: C.Value): C.Value { C.Map([C.Entry("t", C.Text(tag)), C.Entry("v", v)]) }

  function IntRecord(text: string): C.Value { C.Map([C.Entry("kind", C.Text("int")), C.Entry("v", C.Text(text))]) }

  function FloatRecord(bits: C.Value): C.Value
  {
    C.Map([C.Entry("kind", C.Text("binary_float")), C.Entry("format", C.Text("f64")), C.Entry("bits", bits)])
  }

  function TextRecord(s: string): C.Value { C.Map([C.Entry("utf8", C.Text(s)), C.Entry("encoding", C.Text("utf-8"))]) }

  function WireOf(t: Tree): C.Value
  {
    match t
    case Null => C.Map([C.Entry("t", C.Text("null"))])
    case Bool(b) => Tagged("bool", C.Bool(b))
    case Int(n) =>
      Tagged("number", IntRecord(Decimal.Format(n)))
    case Float(bits) =>
      Tagged("number", FloatRecord(C.List(C.Ints(bits))))
    case Text(s) => Tagged("text", TextRecord(s))
    case ListOf(items) => Tagged("list", C.List(WireItems(items)))
    case MapOf(es) => Tagged("map", C.Map(WirePairs(es)))
  }

  function WireItems(items: seq<Tree>): (r: seq<C.Value>)
    ensures |r| == |items| && forall i :: 0 <= i < |items| ==> r[i] == WireOf(items[i])
  {
    if items == [] then [] else [WireOf(items[0])] + WireItems(items[1..])
  }

  function WirePairs(es: seq<Pair>): (r: seq<C.Entry>)
    ensures |r| == |es| && forall i :: 0 <= i < |es| ==> r[i] == C.Entry(es[i].key, WireOf(es[i].value))
  {
    if es == [] then [] else [C.Entry(es[0].key, WireOf(es[0].value))] + WirePairs(es[1..])
  }

  // ------------------------------------------------- observing native objects

  predicate IsStr(v: Value) { v.Leaf? && v.scalar.Str? }

  /** The values a list or a text-keyed dict holds; nothing for any other object. */
  function Children(o: Obj): Option<seq<Value>>
  {
    if o.kind == List then Some(o.items)
    else if o.kind == Dict && |o.items| % 2 == 0 && forall i :: 0 <= i < |o.items| && i % 2 == 0 ==> IsStr(o.items[i])
    then Some(seq(|o.items| / 2, i requires 0 <= i < |o.items| / 2 => o.items[2 * i + 1]))
    else None
  }

  function LeafTree(s: Scalar): Option<Tree>
  {
    match s
    case Nothing => Some(Null)
    case Boolean(b) => Some(Bool(b))
    case Integer(n) => Some(Int(n))
    case Float64(bits) => if Finite(bits) then Some(Float(bits)) else None
    case Str(t) => Some(Text(t))
    case _ => None
  }

  function Rebuild(o: Obj, ts: seq<Tree>): Tree
    requires Children(o).Some? && |ts| == |Children(o).value|
  {
    if o.kind == List then ListOf(ts)
    else MapOf(seq(|ts|, i requires 0 <= i < |ts| => Pair(o.items[2 * i].scalar.s, ts[i])))
  }

  /** `_lossless_native_witness` with its `seen` set of identities: the tree observed. */
  function Observe(h: Heap, v: Value, seen: set<nat>, d: nat): (r: Option<(Tree, set<nat>)>)
    requires ClosedHeap(h) && InHeap(h, v)
    ensures r.Some? ==> seen <= r.value.1
    decreases MAX_DEPTH + 1 - d, 0
  {
    if d > MAX_DEPTH then None
    else
      match v
      case Foreign(_) => None
      case Leaf(s) =>
        var t := LeafTree(s);
        if t.None? then None else Some((t.value, seen))
      case Ref(i) =>
        var kids := Children(h[i]);
        if h[i].kind != List && h[i].kind != Dict then None
        else if i in seen then None
        else if kids.None? then None
        else
          assert forall k :: 0 <= k < |kids.value| ==> kids.value[k] in h[i].items;
          var r := ObserveAll(h, kids.value, seen + {i}, d + 1);
          if r.None? then None else Some((Rebuild(h[i], r.value.0), r.value.1))
  }

  function ObserveAll(h: Heap, vs: seq<Value>, seen: set<nat>, d: nat): (r: Option<(seq<Tree>, set<nat>)>)
    requires ClosedHeap(h) && Closed(h, vs) && d <= MAX_DEPTH + 1
    ensures r.Some? ==> seen <= r.value.1 && |r.value.0| == |vs|
    decreases MAX_DEPTH + 1 - d, 1, |vs|
  {
    if vs == [] then Some(([], seen))
    else
      var first := Observe(h, vs[0], seen, d);
      if first.None? then None
      else
        var rest := ObserveAll(h, vs[1..], first.value.1, d);
        if rest.None? then None else Some(([first.value.0] + rest.value.0, rest.value.1))
  }

  // ------------------------------------------------- admitting wire values

  /** A raw wire object taken as a native value, as the `utf8` field is. */
  function Raw(v: C.Value): Tree
  {
    match v
    case Null => Null
    case Bool(b) => Bool(b)
    case Int(n) => Int(n)
    case Float(bits) => Float(bits)
    case Bytes(data) => ListOf(seq(|data|, i requires 0 <= i < |data| => Int(data[i])))
    case Text(s) => Text(s)
    case List(items) => ListOf(RawItems(items))
    case Map(es) => MapOf(RawPairs(es))
  }

  function RawItems(items: seq<C.Value>): seq<Tree>
  {
    if items == [] then [] else [Raw(items[0])] + RawItems(items[1..])
  }

  function RawPairs(es: seq<C.Entry>): seq<Pair>
  {
    if es == [] then [] else [Pair(es[0].key, Raw(es[0].value))] + RawPairs(es[1..])
  }

  predicate IsByte(v: C.Value) { v.Bool? || (v.Int? && 0 <= v.n < 256) }

  function AsByte(v: C.Value): byte
    requires IsByte(v)
  {
    if v.Bool? then (if v.b then 1 else 0) else v.n
  }

  /** `bytes(value)`: a list of small integers, where `True` and `False` count as 1 and 0, or
      a number of zero bytes. */
  function AsBytes(v: Option<C.Value>): Option<seq<byte>>
  {
    if v.None? then Some([])
    else if v.value.Int? && v.value.n >= 0 then Some(seq(v.value.n, _ => 0))
    else if v.value.List? && forall i :: 0 <= i < |v.value.items| ==> IsByte(v.value.items[i]) then
      var items := v.value.items;
      Some(seq(|items|, i requires 0 <= i < |items| => AsByte(items[i])))
    else None
  }

  /** `oval_number_to_py` on the two admitted kinds; nothing stands for an opaque result. */
  function ReadNumber(m: C.Value): Option<Tree>
  {
    if !m.Map? then None
    else if Envelope.IsText(Envelope.Field(m, "kind"), "int") then
      var v := Envelope.Field(m, "v");
      if v.None? then Some(Int(0))
      else if v.value.Int? then Some(Int(v.value.n))
      else if v.value.Text? then
        var n := Decimal.Parse(v.value.s);
        if n.None? then None else Some(Int(n.value))
      else None
    else if Envelope.IsText(Envelope.Field(m, "kind"), "binary_float")
            && Envelope.IsText(Envelope.Field(m, "format"), "f64") then
      var bits := AsBytes(Envelope.Field(m, "bits"));
      if bits.Some? && |bits.value| == 8 then Some(Float(bits.value)) else None
    else None
  }

  /** `_lossless_input`, ending with the witness check on the result. */
  function Input(w: C.Value, d: nat): Option<Tree>
    decreases w, 1
  {
    var r := InputShape(w, d);
    if r.Some? && Plain(r.value) && Within(r.value, 0) then r else None
  }

  function InputShape(w: C.Value, d: nat): Option<Tree>
    decreases w, 0
  {
    if d > MAX_DEPTH || !w.Map? then None
    else
      var tag, v := Envelope.Field(w, "t"), Envelope.Field(w, "v");
      if Envelope.IsText(tag, "null") then Some(Null)
      else if v.None? then None
      else if Envelope.IsText(tag, "bool") && v.value.Bool? then Some(Bool(v.value.b))
      else if Envelope.IsText(tag, "number") then ReadNumber(v.value)
      else if Envelope.IsText(tag, "text") && Envelope.IsText(Envelope.Field(v.value, "encoding"), "utf-8") then
        var s := Envelope.Field(v.value, "utf8");
        if s.None? then None else Some(Raw(s.value))
      else if Envelope.IsText(tag, "list") && v.value.List? then
        FieldSmaller(w, "v");
        var ts := InputItems(v.value.items, d + 1);
        if ts.None? then None else Some(ListOf(ts.value))
      else if Envelope.IsText(tag, "map") && v.value.Map? then
        FieldSmaller(w, "v");
        var es := InputPairs(v.value.entries, d + 1);
        if es.None? then None else Some(MapOf(es.value))
      else None
  }

  function InputItems(ws: seq<C.Value>, d: nat): (r: Option<seq<Tree>>)
    ensures r.Some? ==> |r.value| == |ws|
    decreases ws, 2
  {
    if ws == [] then Some([])
    else
      var t, ts := Input(ws[0], d), InputItems(ws[1..], d);
      if t.None? || ts.None? then None else Some([t.value] + ts.value)
  }

  function InputPairs(fs: seq<C.Entry>, d: nat): (r: Option<seq<Pair>>)
    ensures r.Some? ==> |r.value| == |fs|
    decreases fs, 2
  {
    if fs == [] then Some([])
    else
      var t, ts := Input(fs[0].value, d), InputPairs(fs[1..], d);
      if t.None? || ts.None? then None else Some([Pair(fs[0].key, t.value)] + ts.value)
  }

  lemma {:induction false} FieldSmaller(w: C.Value, key: string)
    requires Envelope.Field(w, key).Some?
    ensures w.Map? && Envelope.Field(w, key).value < w
  {
    var i := Envelope.LookupFound(w.entries, key);
    assert w.entries[i] in w.entries;
  }

  /** Equality of wire values up to the order of dict entries. With `loose`, Python's `==`,
      for which `True` is 1; without it, values of different types differ. */
  predicate Equal(a: C.Value, b: C.Value, loose: bool)
    decreases a
  {
    if a.List? then
      b.List? && |a.items| == |b.items| && forall i :: 0 <= i < |a.items| ==> Equal(a.items[i], b.items[i], loose)
    else if a.Map? then
      b.Map? && |a.entries| == |b.entries| && forall i :: 0 <= i < |a.entries| ==>
        var x := Envelope.Field(b, a.entries[i].key);
        x.Some? && Equal(a.entries[i].value, x.value, loose)
    else a == b || (loose && IsNumeral(a) && IsNumeral(b) && Numeral(a) == Numeral(b))
  }

  predicate IsNumeral(v: C.Value) { v.Bool? || v.Int? }

  function Numeral(v: C.Value): int
    requires IsNumeral(v)
  {
    if v.Bool? then (if v.b then 1 else 0) else v.n
  }

  /** The input law of `handle_exec`: convert, observe the result, and compare. */
  function Admit(w: C.Value): Option<Tree>
  {
    var t := Input(w, 0);
    if t.Some? && Equal(WireOf(t.value), w, true) then t else None
  }

  // ------------------------------------------------- what admission comes to

  /** `w` is a dict with exactly these keys. */
  predicate Keys1(w: C.Value, k: string) { w.Map? && |w.entries| == 1 && Envelope.Field(w, k).Some? }

  predicate Keys2(w: C.Value, k: string, l: string)
  {
    w.Map? && |w.entries| == 2 && Envelope.Field(w, k).Some? && Envelope.Field(w, l).Some?
  }

  predicate Keys3(w: C.Value, k: string, l: string, m: string)
  {
    w.Map? && |w.entries| == 3 && Envelope.Field(w, k).Some? && Envelope.Field(w, l).Some? && Envelope.Field(w, m).Some?
  }

  predicate HasTag(w: C.Value, tag: string) { Keys2(w, "t", "v") && Envelope.IsText(Envelope.Field(w, "t"), tag) }

  function Body(w: C.Value): C.Value
    requires Keys2(w, "t", "v")
  {
    Envelope.Field(w, "v").value
  }

  /** `w` spells out `t`, in a form that leaves only dict order and, in the bytes of a float,
      booleans for 0 and 1 to choose. */
  predicate Carries(t: Tree, w: C.Value)
    decreases t
  {
    match t
    case Null => Keys1(w, "t") && Envelope.IsText(Envelope.Field(w, "t"), "null")
    case Bool(b) => HasTag(w, "bool") && Body(w) == C.Bool(b)
    case Int(n) =>
      && HasTag(w, "number") && Keys2(Body(w), "kind", "v")
      && Envelope.IsText(Envelope.Field(Body(w), "kind"), "int")
      && Envelope.IsText(Envelope.Field(Body(w), "v"), Decimal.Format(n))
    case Float(bits) =>
      && HasTag(w, "number") && Keys3(Body(w), "kind", "format", "bits")
      && Envelope.IsText(Envelope.Field(Body(w), "kind"), "binary_float")
      && Envelope.IsText(Envelope.Field(Body(w), "format"), "f64")
      && Envelope.Field(Body(w), "bits").value.List? && AsBytes(Envelope.Field(Body(w), "bits")) == Some(bits)
    case Text(s) =>
      && HasTag(w, "text") && Keys2(Body(w), "utf8", "encoding")
      && Envelope.IsText(Envelope.Field(Body(w), "utf8"), s)
      && Envelope.IsText(Envelope.Field(Body(w), "encoding"), "utf-8")
    case ListOf(items) =>
      && HasTag(w, "list") && Body(w).List? && |Body(w).items| == |items|
      && forall i :: 0 <= i < |items| ==> Carries(items[i], Body(w).items[i])
    case MapOf(es) =>
      && HasTag(w, "map") && Body(w).Map? && |Body(w).entries| == |es|
      && forall i :: 0 <= i < |es| ==>
          Body(w).entries[i].key == es[i].key && Carries(es[i].value, Body(w).entries[i].value)
  }

  // ------------------------------------------------- what conversion alone comes to

  /** `m` reads as the number `t`: an integer that is missing, a wire integer or any decimal
      text of it; a float by anything `bytes` turns into its eight bytes. */
  predicate NumberReads(t: Tree, m: C.Value)
  {
    && m.Map?
    && match t
       case Int(n) =>
         var v := Envelope.Field(m, "v");
         && Envelope.IsText(Envelope.Field(m, "kind"), "int")
         && if v.None? then n == 0
            else v.value == C.Int(n) || (v.value.Text? && Decimal.Parse(v.value.s) == Some(n))
       case Float(bits) =>
         && Envelope.IsText(Envelope.Field(m, "kind"), "binary_float")
         && Envelope.IsText(Envelope.Field(m, "format"), "f64")
         && |bits| == 8 && AsBytes(Envelope.Field(m, "bits")) == Some(bits)
       case _ => false
  }

  /** A text record, whose `utf8` field is taken as it is, whatever it holds. */
  predicate TextReads(t: Tree, w: C.Value)
  {
    var v := Envelope.Field(w, "v");
    && Envelope.IsText(Envelope.Field(w, "t"), "text") && v.Some?
    && Envelope.IsText(Envelope.Field(v.value, "encoding"), "utf-8")
    && Envelope.Field(v.value, "utf8").Some? && Raw(Envelope.Field(v.value, "utf8").value) == t
  }

  /** `w` reads as `t`; entries with other keys are ignored. */
  predicate Reads(t: Tree, w: C.Value)
    decreases t
  {
    var tag, v := Envelope.Field(w, "t"), Envelope.Field(w, "v");
    || TextReads(t, w)
    || match t
       case Null => Envelope.IsText(tag, "null")
       case Bool(b) => Envelope.IsText(tag, "bool") && v == Some(C.Bool(b))
       case Text(_) => false
       case ListOf(items) =>
         && Envelope.IsText(tag, "list") && v.Some? && v.value.List? && |v.value.items| == |items|
         && forall i :: 0 <= i < |items| ==> Reads(items[i], v.value.items[i])
       case MapOf(es) =>
         && Envelope.IsText(tag, "map") && v.Some? && v.value.Map? && |v.value.entries| == |es|
         && forall i :: 0 <= i < |es| ==>
              v.value.entries[i].key == es[i].key && Reads(es[i].value, v.value.entries[i].value)
       case _ => Envelope.IsText(tag, "number") && v.Some? && NumberReads(t, v.value)
  }
}
