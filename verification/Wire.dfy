/** Framed CBOR messages over a byte stream: `_CborDecoder`, `_read_exact`,
    `read_wire_message` and `write_wire_message` of backends/o_shim_common.py. */
module Wire {
  import opened Wrappers
  import opened Ordering
  import opened Cbor
  import CborTheorems
  import Utf8

  const MAX_FRAME_LEN: nat := 128 * 1024 * 1024

  /** The stateful decoder: it walks `payload` by advancing `offset`. */
  class Decoder {
    const payload: seq<byte>
    var offset: nat

    constructor (payload: seq<byte>)
      ensures this.payload == payload && offset == 0
    {
      this.payload := payload;
      offset := 0;
    }

    method Read(length: nat) returns (r: Option<seq<byte>>)
      requires offset <= |payload|
      modifies this
      ensures old(offset) + length > |payload| ==> r == None && offset == old(offset)
      ensures old(offset) + length <= |payload| ==>
        r == Some(payload[old(offset)..old(offset) + length]) && offset == old(offset) + length
    {
      var end := offset + length;
      if end > |payload| { return None; }
      r := Some(payload[offset..end]);
      offset := end;
    }

    method ReadLength(additional: nat) returns (r: Option<nat>)
      requires offset <= |payload|
      modifies this
      ensures old(offset) <= offset <= |payload|
      ensures ReadLen(payload, old(offset), additional)
           == (if r.None? then None else Some((r.value, offset)))
    {
      if additional <= 23 { return Some(additional); }
      var width := 0;
      if additional == 24 { width := 1; }
      else if additional == 25 { width := 2; }
      else if additional == 26 { width := 4; }
      else if additional == 27 { width := 8; }
      else { return None; }
      var bytes := Read(width);
      r := if bytes.None? then None else Some(FromBigEndian(bytes.value));
    }

    /** Reads one value, exactly as the positional decoder does from the same place. */
    method Decode() returns (r: Option<Value>)
      requires offset <= |payload|
      modifies this
      ensures old(offset) <= offset <= |payload|
      ensures DecodeAt(payload, old(offset)) == (if r.None? then None else Some((r.value, offset)))
      decreases |payload| - offset, 0
    {
      hide DecodeItems, DecodeEntries, ReadLen, ReadSimple, Utf8.Decode, FromBigEndian;
      var first := Read(1);
      if first.None? { return None; }
      var major, additional := first.value[0] / 32, first.value[0] % 32;
      assert payload[old(offset)] == first.value[0];
      if major == 6 { return None; }
      if major == 7 { r := DecodeSimple(additional); return; }
      var len := ReadLength(additional);
      if len.None? { return None; }
      ghost var at := offset;
      assert ReadItem(payload, old(offset)) == ReadSized(payload, major, len.value, at);
      if major == 0 { return Some(Int(len.value)); }
      if major == 1 { return Some(Int(-1 - (len.value as int))); }
      if major == 4 {
        var items := DecodeList(len.value);
        return if items.None? then None else Some(List(items.value));
      }
      if major == 5 {
        var entries := DecodeMap(len.value);
        return if entries.None? then None else Some(Map(entries.value));
      }
      var body := Read(len.value);
      if body.None? { return None; }
      if major == 2 { return Some(List(Ints(body.value))); }
      var s := Utf8.Decode(body.value);
      r := if s.None? then None else Some(Text(s.value));
    }

    method DecodeSimple(additional: nat) returns (r: Option<Value>)
      requires 0 < offset <= |payload|
      modifies this
      ensures old(offset) <= offset <= |payload|
      ensures ReadSimple(payload, old(offset) - 1, additional)
           == (if r.None? then None else Some(Whole(r.value, offset)))
    {
      if additional == 20 { return Some(Bool(false)); }
      if additional == 21 { return Some(Bool(true)); }
      if additional == 22 { return Some(Null); }
      if additional == 26 {
        var four := Read(4);
        return if four.None? then None else Some(Float(Widen(four.value)));
      }
      if additional == 27 {
        var eight := Read(8);
        return if eight.None? then None else Some(Float(eight.value));
      }
      r := None;
    }

    method DecodeList(n: nat) returns (r: Option<seq<Value>>)
      requires offset <= |payload|
      modifies this
      ensures old(offset) <= offset <= |payload|
      ensures DecodeItems(payload, old(offset), n) == (if r.None? then None else Some((r.value, offset)))
      decreases |payload| - offset, 1
    {
      hide DecodeAt;
      var items: seq<Value> := [];
      var k := 0;
      assert forall tail: seq<Value> :: items + tail == tail;
      while k < n
        invariant 0 <= k <= n && old(offset) <= offset <= |payload|
        invariant k == 0 ==> offset == old(offset) && items == []
        invariant k > 0 ==> offset > old(offset)
        invariant DecodeItems(payload, old(offset), n) ==
          var rest := DecodeItems(payload, offset, n - k);
          if rest.None? then None else Some((items + rest.value.0, rest.value.1))
        decreases n - k
      {
        ghost var here := offset;
        var item := Decode();
        if item.None? { return None; }
        ghost var rest := DecodeItems(payload, offset, n - k - 1);
        assert rest.Some? ==> (items + [item.value]) + rest.value.0 == items + ([item.value] + rest.value.0);
        items := items + [item.value];
        k := k + 1;
      }
      assert items + [] == items;
      r := Some(items);
    }

    method DecodeMap(n: nat) returns (r: Option<seq<Entry>>)
      requires offset <= |payload|
      modifies this
      ensures old(offset) <= offset <= |payload|
      ensures DecodeEntries(payload, old(offset), n, [])
           == (if r.None? then None else Some((r.value, offset)))
      decreases |payload| - offset, 1
    {
      hide DecodeAt;
      var result: seq<Entry> := [];
      var k := 0;
      while k < n
        invariant 0 <= k <= n && old(offset) <= offset <= |payload|
        invariant k > 0 ==> offset > old(offset)
        invariant DecodeEntries(payload, old(offset), n, []) == DecodeEntries(payload, offset, n - k, result)
        decreases n - k
      {
        var key := Decode();
        if key.None? || !key.value.Text? { return None; }
        var item := Decode();
        if item.None? { return None; }
        result := Put(result, key.value.s, item.value);
        k := k + 1;
      }
      r := Some(result);
    }
  }

  /** `cbor_decode`: decode, then insist that nothing is left. */
  method DecodePayload(payload: seq<byte>) returns (r: Option<Value>)
    ensures r == Cbor.Decode(payload)
    ensures r.Some? ==> Nodes(r.value) <= |payload|
  {
    var decoder := new Decoder(payload);
    r := decoder.Decode();
    if r.Some? { CborTheorems.DecodedSize(payload, 0); }
    if decoder.offset != |payload| { r := None; }
  }

  // ---------------------------------------------------------------- framing

  /** What reading an exact number of bytes can come to. */
  datatype Exact = Got(bytes: seq<byte>) | End | Truncated

  function TakeExact(data: seq<byte>, length: nat): Exact
  {
    if length <= |data| then Got(data[..length]) else if data == [] then End else Truncated
  }

  datatype Incoming = Message(value: Value) | Closed | Broken

  /** One message off the front of the bytes still to come, and what remains after it. */
  function Next(data: seq<byte>): (r: (Incoming, seq<byte>))
    ensures r.0.Message? ==> |r.1| < |data|
  {
    match TakeExact(data, 4)
    case End => (Closed, [])
    case Truncated => (Broken, [])
    case Got(header) =>
      var length := FromBigEndian(header);
      if length > MAX_FRAME_LEN then (Broken, data[4..])
      else
        match TakeExact(data[4..], length)
        case Got(payload) =>
          var v := Cbor.Decode(payload);
          (if v.Some? then Message(v.value) else Broken, data[4 + length..])
        case _ => (Broken, [])
  }

  /** A reader looping until the stream closes or breaks. */
  function ReadAll(data: seq<byte>): (seq<Value>, Incoming)
    decreases |data|
  {
    var (m, rest) := Next(data);
    if m.Message? then
      var (more, last) := ReadAll(rest);
      ([m.value] + more, last)
    else ([], m)
  }

  /** A value whose frame the reader admits. */
  ghost predicate Fits(v: Value) { InRange(v) && |Encode(v)| <= MAX_FRAME_LEN }

  function Frame(v: Value): seq<byte> { BigEndian(|Encode(v)|, 4) + Encode(v) }

  function Frames(vs: seq<Value>): seq<byte>
  {
    if vs == [] then [] else Frame(vs[0]) + Frames(vs[1..])
  }

  lemma {:induction false} FrameHeader(v: Value, rest: seq<byte>)
    requires Fits(v)
    ensures (Frame(v) + rest)[..4] == BigEndian(|Encode(v)|, 4)
    ensures (Frame(v) + rest)[4..] == Encode(v) + rest
    ensures FromBigEndian(BigEndian(|Encode(v)|, 4)) == |Encode(v)|
  {
    hide Encode, BigEndian, FromBigEndian;
    assert CborTheorems.Pow256(4) == 0x1_0000_0000;
    CborTheorems.BigEndianRoundTrip(|Encode(v)|, 4);
  }

  lemma {:induction false} NextFrame(v: Value, rest: seq<byte>)
    requires Fits(v)
    ensures Next(Frame(v) + rest) == (Message(Norm(v)), rest)
  {
    FrameHeader(v, rest);
    CborTheorems.DecodeEncode(v);
    hide Encode, BigEndian, FromBigEndian, Cbor.Decode, Norm;
    var data := Frame(v) + rest;
    assert data[4..][..|Encode(v)|] == Encode(v);
    assert data[4 + |Encode(v)|..] == rest;
  }

  /** `data` starts with a frame around `payload`, whose length is at most 128 MiB. */
  ghost predicate Framed(data: seq<byte>, payload: seq<byte>, rest: seq<byte>)
  {
    |payload| <= 134217728 && data == BigEndian(|payload|, 4) + payload + rest
  }

  lemma {:induction false} FramedParts(data: seq<byte>, payload: seq<byte>, rest: seq<byte>)
    requires Framed(data, payload, rest)
    ensures |data| >= 4 && FromBigEndian(data[..4]) == |payload|
    ensures data[4..] == payload + rest && data[4..][..|payload|] == payload && data[4 + |payload|..] == rest
  {
    assert CborTheorems.Pow256(4) == 0x1_0000_0000;
    CborTheorems.BigEndianRoundTrip(|payload|, 4);
    hide BigEndian, FromBigEndian;
    assert data[..4] == BigEndian(|payload|, 4);
    assert data[4..] == payload + rest;
  }

  lemma {:induction false} HeaderBack(header: seq<byte>)
    requires |header| == 4
    ensures BigEndian(FromBigEndian(header), 4) == header
  {
    BytesBack(header);
  }

  lemma {:induction false} BytesBack(x: seq<byte>)
    ensures BigEndian(FromBigEndian(x), |x|) == x
  {
    if x != [] {
      BytesBack(x[..|x| - 1]);
      assert x == x[..|x| - 1] + [x[|x| - 1]];
    }
  }

  /** What comes off a stream: a message exactly when a frame of a decodable payload stands at
      its front, a clean end exactly when nothing does, and otherwise a failure. */
  lemma {:induction false} NextExactly(data: seq<byte>, v: Value, rest: seq<byte>)
    ensures Next(data) == (Message(v), rest) <==>
      exists payload :: Framed(data, payload, rest) && Cbor.Decode(payload) == Some(v)
    ensures Next(data).0 == Closed <==> data == []
  {
    hide BigEndian, FromBigEndian, Cbor.Decode;
    if Next(data) == (Message(v), rest) {
      var length := FromBigEndian(data[..4]);
      var payload := data[4..][..length];
      HeaderBack(data[..4]);
      assert data == data[..4] + payload + rest;
      assert Framed(data, payload, rest);
    }
    if exists payload :: Framed(data, payload, rest) && Cbor.Decode(payload) == Some(v) {
      var payload :| Framed(data, payload, rest) && Cbor.Decode(payload) == Some(v);
      FramedParts(data, payload, rest);
    }
  }

  lemma {:induction false} ReadStep(data: seq<byte>, v: Value, rest: seq<byte>)
    requires Next(data) == (Message(v), rest)
    ensures ReadAll(data) == ([v] + ReadAll(rest).0, ReadAll(rest).1)
  {
    hide Next;
  }

  /** Messages written back to back are read back in order, and then whatever the rest
      of the stream comes to. */
  lemma {:induction false} FramesReadBack(vs: seq<Value>, rest: seq<byte>)
    requires forall i :: 0 <= i < |vs| ==> Fits(vs[i])
    ensures ReadAll(Frames(vs) + rest) == (NormItems(vs) + ReadAll(rest).0, ReadAll(rest).1)
  {
    hide Next, Frame, Norm, ReadAll;
    if vs == [] {
      assert Frames(vs) + rest == rest;
      assert NormItems(vs) + ReadAll(rest).0 == ReadAll(rest).0;
    } else {
      var more := Frames(vs[1..]) + rest;
      assert Frames(vs) + rest == Frame(vs[0]) + more;
      NextFrame(vs[0], more);
      ReadStep(Frames(vs) + rest, Norm(vs[0]), more);
      FramesReadBack(vs[1..], rest);
      assert NormItems(vs) + ReadAll(rest).0 == [Norm(vs[0])] + (NormItems(vs[1..]) + ReadAll(rest).0);
    }
  }

  lemma {:induction false} CutFrame(v: Value, cut: nat)
    requires Fits(v) && 0 < cut < |Frame(v)|
    ensures Next(Frame(v)[..cut]).0 == Broken
  {
    FrameHeader(v, []);
    hide Encode, BigEndian, FromBigEndian, Cbor.Decode;
    var data := Frame(v)[..cut];
    assert Frame(v) + [] == Frame(v);
    if cut >= 4 { assert data[..4] == Frame(v)[..4]; }
  }

  /** A stream that ends between frames ends cleanly after exactly the messages sent. */
  lemma {:induction false} CleanEnd(vs: seq<Value>)
    requires forall i :: 0 <= i < |vs| ==> Fits(vs[i])
    ensures ReadAll(Frames(vs)) == (NormItems(vs), Closed)
  {
    FramesReadBack(vs, []);
    assert Frames(vs) + [] == Frames(vs);
    assert ReadAll([]) == ([], Closed);
    assert NormItems(vs) + [] == NormItems(vs);
  }

  /** A stream cut inside a frame yields the messages before it and then fails. */
  lemma {:induction false} CutStreamFails(vs: seq<Value>, v: Value, cut: nat)
    requires forall i :: 0 <= i < |vs| ==> Fits(vs[i])
    requires Fits(v) && 0 < cut < |Frame(v)|
    ensures ReadAll(Frames(vs) + Frame(v)[..cut]) == (NormItems(vs), Broken)
  {
    hide Next, Frame, Frames, Encode, NormItems;
    CutFrame(v, cut);
    FramesReadBack(vs, Frame(v)[..cut]);
    assert ReadAll(Frame(v)[..cut]) == ([], Broken);
    assert NormItems(vs) + [] == NormItems(vs);
  }

  /** A transport that delivers its bytes in pieces of any positive size. */
  class Stream {
    var data: seq<byte>
    var pieces: seq<nat>

    constructor (data: seq<byte>, pieces: seq<nat>)
      ensures this.data == data
    {
      this.data, this.pieces := data, pieces;
    }

    method Read(limit: nat) returns (chunk: seq<byte>)
      modifies this
      ensures chunk + data == old(data) && |chunk| <= limit
      ensures limit > 0 && old(data) != [] ==> chunk != []
    {
      var k := if |data| < limit then |data| else limit;
      if pieces != [] && 0 < pieces[0] < k { k := pieces[0]; }
      if pieces != [] { pieces := pieces[1..]; }
      chunk := data[..k];
      data := data[k..];
    }

    method Write(bytes: seq<byte>)
      modifies this
      ensures data == old(data) + bytes
    {
      data := data + bytes;
    }
  }

  /** `_read_exact`: the outcome depends on the bytes, not on how they were split. */
  method ReadExact(stream: Stream, length: nat) returns (r: Exact)
    modifies stream
    ensures r == TakeExact(old(stream.data), length)
    ensures stream.data == if r.Got? then old(stream.data)[length..] else []
  {
    var bytes: seq<byte> := [];
    var remaining := length;
    while remaining > 0
      invariant bytes + stream.data == old(stream.data)
      invariant |bytes| + remaining == length && remaining >= 0
    {
      var chunk := stream.Read(remaining);
      if chunk == [] {
        assert stream.data == [] && bytes == old(stream.data);
        return if remaining == length then End else Truncated;
      }
      bytes := bytes + chunk;
      remaining := remaining - |chunk|;
    }
    assert (bytes + stream.data)[..length] == bytes && (bytes + stream.data)[length..] == stream.data;
    r := Got(bytes);
  }

  /** `read_wire_message`. */
  method ReadMessage(stream: Stream) returns (r: Incoming)
    modifies stream
    ensures (r, stream.data) == Next(old(stream.data))
  {
    var header := ReadExact(stream, 4);
    if header.End? { return Closed; }
    if header.Truncated? { return Broken; }
    var length := FromBigEndian(header.bytes);
    if length > MAX_FRAME_LEN { return Broken; }
    var payload := ReadExact(stream, length);
    if !payload.Got? { return Broken; }
    assert old(stream.data)[4..][length..] == old(stream.data)[4 + length..];
    var v := DecodePayload(payload.bytes);
    r := if v.Some? then Message(v.value) else Broken;
  }

  /** `write_wire_message`: a value that cannot be encoded, or whose length does not fit
      the four-byte header, raises before anything is written. */
  method WriteMessage(v: Value, stream: Stream) returns (ok: bool)
    modifies stream
    ensures ok <==> InRange(v) && |Encode(v)| < 0x1_0000_0000
    ensures stream.data == if ok then old(stream.data) + Frame(v) else old(stream.data)
  {
    hide Encode, InRange, BigEndian;
    ok := InRange(v) && |Encode(v)| < 0x1_0000_0000;
    if ok {
      var payload := Encode(v);
      stream.Write(BigEndian(|payload|, 4));
      stream.Write(payload);
      WrittenTwice(old(stream.data), BigEndian(|payload|, 4), payload);
    }
  }

  lemma {:induction false} WrittenTwice(a: seq<byte>, b: seq<byte>, c: seq<byte>)
    ensures a + b + c == a + (b + c)
  {
  }
}
