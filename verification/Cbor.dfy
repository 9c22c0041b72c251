/** The O wire's CBOR subset: `_encode_type_len`, `cbor_encode`, `_CborDecoder` and
    `cbor_decode` of backends/o_shim_common.py. */
module Cbor {
  import opened Wrappers
  import opened Ordering
  import Utf8

  /** A Python value the wire can carry. A dict keeps its insertion order; a tuple is
      written as a list; a float is its eight big-endian bytes. */
  datatype Value =
    | Null
    | Bool(b: bool)
    | Int(n: int)
    | Float(bits: seq<byte>)
    | Bytes(data: seq<byte>)
    | Text(s: string)
    | List(items: seq<Value>)
    | Map(entries: seq<Entry>)

  datatype Entry = Entry(key: string, value: Value)

  const TWO64: nat := 0x1_0000_0000_0000_0000

  // ---------------------------------------------------------------- encoding

  function BigEndian(n: nat, width: nat): (r: seq<byte>)
    ensures |r| == width
  {
    if width == 0 then [] else BigEndian(n / 256, width - 1) + [n % 256]
  }

  function FromBigEndian(b: seq<byte>): nat
  {
    if b == [] then 0 else FromBigEndian(b[..|b| - 1]) * 256 + b[|b| - 1]
  }

  /** `_encode_type_len`: the shortest head for a length or number. */
  function Head(major: nat, n: nat): (r: seq<byte>)
    requires major < 8
    ensures 1 <= |r| <= 9
  {
    var prefix := major * 32;
    if n <= 23 then [prefix + n]
    else if n <= 0xFF then [prefix + 24] + BigEndian(n, 1)
    else if n <= 0xFFFF then [prefix + 25] + BigEndian(n, 2)
    else if n <= 0xFFFF_FFFF then [prefix + 26] + BigEndian(n, 4)
    else [prefix + 27] + BigEndian(n, 8)
  }

  function EncodeText(s: string): seq<byte>
  {
    var u := Utf8.Encode(s);
    Head(3, |u|) + u
  }

  function PairKey(p: (seq<byte>, seq<byte>)): seq<int> { [|p.0|] + p.0 }

  function Concat(ps: seq<(seq<byte>, seq<byte>)>): seq<byte>
  {
    if ps == [] then [] else ps[0].0 + ps[0].1 + Concat(ps[1..])
  }

  function Encode(v: Value): seq<byte>
  {
    match v
    case Null => [0xF6]
    case Bool(b) => [if b then 0xF5 else 0xF4]
    case Int(n) => if n >= 0 then Head(0, n) else Head(1, -1 - n)
    case Float(bits) => [0xFB] + bits
    case Bytes(data) => Head(2, |data|) + data
    case Text(s) => EncodeText(s)
    case List(items) => Head(4, |items|) + EncodeItems(items)
    case Map(entries) => Head(5, |entries|) + Concat(Sort(EncodePairs(entries), PairKey))
  }

  function EncodeItems(items: seq<Value>): seq<byte>
  {
    if items == [] then [] else Encode(items[0]) + EncodeItems(items[1..])
  }

  function EncodePairs(es: seq<Entry>): (r: seq<(seq<byte>, seq<byte>)>)
    ensures |r| == |es|
  {
    if es == [] then [] else [(EncodeText(es[0].key), Encode(es[0].value))] + EncodePairs(es[1..])
  }

  predicate Distinct(es: seq<Entry>)
  {
    forall i, j :: 0 <= i < j < |es| ==> es[i].key != es[j].key
  }

  /** What the encoder accepts: every head fits in eight bytes, floats are eight bytes,
      and a dict's keys are distinct (as they always are in a dict). */
  predicate InRange(v: Value)
  {
    match v
    case Null => true
    case Bool(_) => true
    case Int(n) => -(TWO64 as int) <= n < TWO64
    case Float(bits) => |bits| == 8
    case Bytes(data) => |data| < TWO64
    case Text(s) => |Utf8.Encode(s)| < TWO64
    case List(items) => |items| < TWO64 && forall i :: 0 <= i < |items| ==> InRange(items[i])
    case Map(entries) =>
      && |entries| < TWO64
      && Distinct(entries)
      && forall i :: 0 <= i < |entries| ==> |Utf8.Encode(entries[i].key)| < TWO64 && InRange(entries[i].value)
  }

  // ---------------------------------------------------------------- decoding

  /** `read_len`: the number after an initial byte, and where the reader stands after it. */
  function ReadLen(b: seq<byte>, pos: nat, additional: nat): (r: Option<(nat, nat)>)
    requires pos <= |b|
    ensures r.Some? ==> pos <= r.value.1 <= |b|
  {
    if additional <= 23 then Some((additional, pos))
    else
      var width :=
        if additional == 24 then 1 else if additional == 25 then 2
        else if additional == 26 then 4 else if additional == 27 then 8 else 0;
      if width == 0 || pos + width > |b| then None
      else Some((FromBigEndian(b[pos..pos + width]), pos + width))
  }

  function Ints(data: seq<byte>): seq<Value> { seq(|data|, i requires 0 <= i < |data| => Int(data[i])) }

  /** `result[key] = value` on an ordered dict. */
  function Put(es: seq<Entry>, k: string, v: Value): (r: seq<Entry>)
    ensures |es| <= |r| <= |es| + 1
  {
    if es == [] then [Entry(k, v)]
    else if es[0].key == k then [Entry(k, v)] + es[1..]
    else [es[0]] + Put(es[1..], k, v)
  }

  /** A four-byte float widened to eight bytes, as `struct.unpack(">f", ...)` yields it. */
  function Widen(four: seq<byte>): (r: seq<byte>)
    requires |four| == 4
    ensures |r| == 8
  {
    var x := FromBigEndian(four);
    var sign, e, m := x / 0x8000_0000, x / 0x80_0000 % 256, x % 0x80_0000;
    var widened :=
      if e == 255 then 2047 * 0x10_0000_0000_0000 + m * 0x2000_0000
      else if e > 0 then (e + 896) * 0x10_0000_0000_0000 + m * 0x2000_0000
      else if m == 0 then 0
      else Subnormal(m, 897);
    BigEndian((sign * 0x8000_0000_0000_0000 + widened) % TWO64, 8)
  }

  /** A subnormal fraction is doubled until its leading bit is implicit. */
  function Subnormal(m: nat, exponent: int): int
    requires m > 0
    decreases 0x80_0000 - m
  {
    if m >= 0x80_0000 then exponent * 0x10_0000_0000_0000 + (m - 0x80_0000) * 0x2000_0000
    else Subnormal(2 * m, exponent - 1)
  }

  /** What an initial byte and its argument announce: a complete value and where it ends,
      or a number of items or entries and where they start. */
  datatype Item =
    | Whole(value: Value, end: nat)
    | Items(count: nat, at: nat)
    | Entries(count: nat, at: nat)

  /** The seven major types of `decode`, up to the items of a list or the entries of a map. */
  function ReadItem(b: seq<byte>, pos: nat): (r: Option<Item>)
    requires pos <= |b|
    ensures r.Some? ==> pos < (if r.value.Whole? then r.value.end else r.value.at) <= |b|
  {
    if pos == |b| then None
    else
      var major, additional := b[pos] / 32, b[pos] % 32;
      if major == 7 then ReadSimple(b, pos, additional)
      else if major == 6 then None
      else
        var len := ReadLen(b, pos + 1, additional);
        if len.None? then None else ReadSized(b, major, len.value.0, len.value.1)
  }

  function ReadSimple(b: seq<byte>, pos: nat, additional: nat): (r: Option<Item>)
    requires pos < |b|
    ensures r.Some? ==> r.value.Whole? && pos < r.value.end <= |b|
  {
    if additional == 20 then Some(Whole(Bool(false), pos + 1))
    else if additional == 21 then Some(Whole(Bool(true), pos + 1))
    else if additional == 22 then Some(Whole(Null, pos + 1))
    else if additional == 26 && pos + 5 <= |b| then Some(Whole(Float(Widen(b[pos + 1..pos + 5])), pos + 5))
    else if additional == 27 && pos + 9 <= |b| then Some(Whole(Float(b[pos + 1..pos + 9]), pos + 9))
    else None
  }

  function ReadSized(b: seq<byte>, major: nat, n: nat, at: nat): (r: Option<Item>)
    requires major < 6 && at <= |b|
    ensures r.Some? ==> at <= (if r.value.Whole? then r.value.end else r.value.at) <= |b|
  {
    match major
    case 0 => Some(Whole(Int(n), at))
    case 1 => Some(Whole(Int(-1 - n), at))
    case 2 => if at + n > |b| then None else Some(Whole(List(Ints(b[at..at + n])), at + n))
    case 3 =>
      if at + n > |b| then None
      else
        var s := Utf8.Decode(b[at..at + n]);
        if s.None? then None else Some(Whole(Text(s.value), at + n))
    case 4 => Some(Items(n, at))
    case _ => Some(Entries(n, at))
  }

  function DecodeAt(b: seq<byte>, pos: nat): (r: Option<(Value, nat)>)
    requires pos <= |b|
    ensures r.Some? ==> pos < r.value.1 <= |b|
    decreases |b| - pos, 0
  {
    var item := ReadItem(b, pos);
    if item.None? then None
    else
      match item.value
      case Whole(v, end) => Some((v, end))
      case Items(n, at) =>
        var items := DecodeItems(b, at, n);
        if items.None? then None else Some((List(items.value.0), items.value.1))
      case Entries(n, at) =>
        var entries := DecodeEntries(b, at, n, []);
        if entries.None? then None else Some((Map(entries.value.0), entries.value.1))
  }

  function DecodeItems(b: seq<byte>, pos: nat, n: nat): (r: Option<(seq<Value>, nat)>)
    requires pos <= |b|
    ensures r.Some? ==> pos <= r.value.1 <= |b|
    decreases |b| - pos, 1
  {
    if n == 0 then Some(([], pos))
    else
      var first := DecodeAt(b, pos);
      if first.None? then None
      else
        var rest := DecodeItems(b, first.value.1, n - 1);
        if rest.None? then None else Some(([first.value.0] + rest.value.0, rest.value.1))
  }

  function DecodeEntries(b: seq<byte>, pos: nat, n: nat, acc: seq<Entry>)
    : (r: Option<(seq<Entry>, nat)>)
    requires pos <= |b|
    ensures r.Some? ==> pos <= r.value.1 <= |b|
    decreases |b| - pos, 1
  {
    if n == 0 then Some((acc, pos))
    else
      var key := DecodeAt(b, pos);
      if key.None? || !key.value.0.Text? then None
      else
        var item := DecodeAt(b, key.value.1);
        if item.None? then None
        else DecodeEntries(b, item.value.1, n - 1, Put(acc, key.value.0.s, item.value.0))
  }

  /** `cbor_decode`: one value and nothing after it. */
  function Decode(b: seq<byte>): Option<Value>
  {
    var r := DecodeAt(b, 0);
    if r.Some? && r.value.1 == |b| then Some(r.value.0) else None
  }

  // ------------------------------------------------------- what a round trip keeps

  function EntryKey(e: Entry): seq<int>
  {
    var k := EncodeText(e.key);
    [|k|] + k
  }

  /** The value a reader sees: byte strings as integer lists, dicts in wire order. */
  function Norm(v: Value): Value
  {
    match v
    case Bytes(data) => List(Ints(data))
    case List(items) => List(NormItems(items))
    case Map(entries) => Map(Sort(NormEntries(entries), EntryKey))
    case _ => v
  }

  function NormItems(items: seq<Value>): (r: seq<Value>)
    ensures |r| == |items|
    ensures forall i :: 0 <= i < |items| ==> r[i] == Norm(items[i])
  {
    if items == [] then [] else [Norm(items[0])] + NormItems(items[1..])
  }

  function NormEntries(es: seq<Entry>): (r: seq<Entry>)
    ensures |r| == |es|
    ensures forall i :: 0 <= i < |es| ==> r[i] == Entry(es[i].key, Norm(es[i].value))
  {
    if es == [] then [] else [Entry(es[0].key, Norm(es[0].value))] + NormEntries(es[1..])
  }

  predicate BytesFree(v: Value)
  {
    match v
    case Bytes(_) => false
    case List(items) => forall i :: 0 <= i < |items| ==> BytesFree(items[i])
    case Map(entries) => forall i :: 0 <= i < |entries| ==> BytesFree(entries[i].value)
    case _ => true
  }

  /** Python objects in a decoded value, counting a dict entry's key as one. */
  function Nodes(v: Value): (r: nat)
    ensures r >= 1
  {
    match v
    case List(items) => 1 + NodesOfItems(items)
    case Map(entries) => 1 + NodesOfEntries(entries)
    case Bytes(data) => 1 + |data|
    case _ => 1
  }

  function NodesOfItems(items: seq<Value>): nat
  {
    if items == [] then 0 else Nodes(items[0]) + NodesOfItems(items[1..])
  }

  function NodesOfEntries(es: seq<Entry>): nat
  {
    if es == [] then 0 else 1 + Nodes(es[0].value) + NodesOfEntries(es[1..])
  }
}
