/** A Python heap as the checkpoint codec sees it: containers with identity, holding
    scalars, references to containers, and objects the codec does not support. */
module PyHeap {
  import opened Ordering
  import Cbor

  /** Values written by content, without identity. Floats are their eight bytes. */
  datatype Scalar =
    | Nothing
    | Boolean(b: bool)
    | Integer(n: int)
    | Float64(bits: seq<byte>)
    | Str(s: string)
    | Html(s: string)
    | StorePath(s: string)
    | ByteString(bytes: seq<byte>)
    | Complex(re: seq<byte>, im: seq<byte>)
    | Expr(src: string)
    | Opaque(wire: Cbor.Value)

  datatype Value = Leaf(scalar: Scalar) | Ref(id: nat) | Foreign(id: nat)

  datatype Kind = List | Dict | Tuple | ByteArray | Scope

  /** One container. The items of a dict alternate key and value in insertion order; the
      items of a scope are its bindings and its wire bindings; `data` is a bytearray's. */
  datatype Obj = Obj(kind: Kind, items: seq<Value>, data: seq<byte>)

  /** Object identity is the index. */
  type Heap = seq<Obj>

  predicate InHeap(h: Heap, v: Value) { v.Ref? ==> v.id < |h| }

  predicate Closed(h: Heap, vs: seq<Value>)
  {
    forall i :: 0 <= i < |vs| ==> InHeap(h, vs[i])
  }

  predicate ClosedHeap(h: Heap)
  {
    forall i :: 0 <= i < |h| ==> Closed(h, h[i].items)
  }

  // ------------------------------------------------------------ isomorphism

  function Rename(f: map<nat, nat>, v: Value): Value
  {
    if v.Ref? && v.id in f then Ref(f[v.id]) else v
  }

  function RenameAll(f: map<nat, nat>, vs: seq<Value>): (r: seq<Value>)
    ensures |r| == |vs|
    ensures forall i :: 0 <= i < |vs| ==> r[i] == Rename(f, vs[i])
  {
    seq(|vs|, i requires 0 <= i < |vs| => Rename(f, vs[i]))
  }

  function RenameObj(f: map<nat, nat>, o: Obj): Obj { Obj(o.kind, RenameAll(f, o.items), o.data) }

  ghost predicate Covers(f: map<nat, nat>, vs: seq<Value>)
  {
    forall i :: 0 <= i < |vs| && vs[i].Ref? ==> vs[i].id in f
  }

  ghost predicate Injective(f: map<nat, nat>)
  {
    forall i, j :: i in f && j in f && f[i] == f[j] ==> i == j
  }

  /** `f` carries the containers in its domain, which is closed under reference, one to one
      onto containers of `h'` with the same kind, contents, order and sharing. */
  ghost predicate Iso(h: Heap, h': Heap, f: map<nat, nat>)
  {
    && Injective(f)
    && forall i :: i in f ==>
         i < |h| && f[i] < |h'| && Covers(f, h[i].items) && h'[f[i]] == RenameObj(f, h[i])
  }

  // -------------------------------------------------- dict keys: hash and equality

  /** Within `n` levels of tuple nesting, hashing `v` meets a list, dict or bytearray. */
  predicate UnhashableWithin(h: Heap, n: nat, v: Value)
    requires ClosedHeap(h) && InHeap(h, v)
    decreases n
  {
    && n > 0
    && v.Ref?
    && match h[v.id].kind
       case Scope => false
       case Tuple =>
         var items := h[v.id].items;
         exists i :: 0 <= i < |items| && UnhashableWithin(h, n - 1, items[i])
       case _ => true
  }

  /** Python's identity-or-equality on keys, up to `n` levels of tuple nesting. Equality of
      scalars is a parameter: it identifies `1`, `True` and `1.0`, and not two NaNs. */
  predicate EqualWithin(h: Heap, eq: (Scalar, Scalar) -> bool, n: nat, a: Value, b: Value)
    requires ClosedHeap(h) && InHeap(h, a) && InHeap(h, b)
    decreases n
  {
    if a.Leaf? && b.Leaf? then eq(a.scalar, b.scalar)
    else if a.Ref? && b.Ref? && a.id != b.id then
      var x, y := h[a.id], h[b.id];
      && n > 0 && x.kind == Tuple && y.kind == Tuple && |x.items| == |y.items|
      && forall i :: 0 <= i < |x.items| ==> EqualWithin(h, eq, n - 1, x.items[i], y.items[i])
    else a == b
  }
}
