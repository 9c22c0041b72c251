/** Strict UTF-8, as `str.encode` and `bytes.decode` apply it to the wire's text. */
module Utf8 {
  import opened Wrappers
  import opened Ordering

  function EncodeChar(c: char): (r: seq<byte>)
    ensures 1 <= |r| <= 4
  {
    var n := c as int;
    if n < 0x80 then [n]
    else if n < 0x800 then [0xC0 + n / 64, 0x80 + n % 64]
    else if n < 0x1_0000 then [0xE0 + n / 64 / 64, 0x80 + n / 64 % 64, 0x80 + n % 64]
    else [0xF0 + n / 64 / 64 / 64, 0x80 + n / 64 / 64 % 64, 0x80 + n / 64 % 64, 0x80 + n % 64]
  }

  function Encode(s: string): seq<byte>
  {
    if s == "" then [] else EncodeChar(s[0]) + Encode(s[1..])
  }

  /** Length announced by a lead byte; 0 for a byte that cannot lead. */
  function Span(lead: byte): nat
  {
    if lead < 0x80 then 1
    else if 0xC0 <= lead < 0xE0 then 2
    else if 0xE0 <= lead < 0xF0 then 3
    else if 0xF0 <= lead < 0xF8 then 4
    else 0
  }

  function Code(b: seq<byte>): int
    requires b != [] && 0 < Span(b[0]) <= |b|
  {
    var lead: int := b[0];
    match Span(b[0])
    case 1 => lead
    case 2 => Shift(lead - 0xC0, b[1])
    case 3 => Shift(Shift(lead - 0xE0, b[1]), b[2])
    case _ => Shift(Shift(Shift(lead - 0xF0, b[1]), b[2]), b[3])
  }

  function Shift(high: int, continuation: byte): int { high * 64 + (continuation as int - 0x80) }

  predicate IsScalar(n: int) { 0 <= n < 0xD800 || 0xE000 <= n < 0x11_0000 }

  /** The first character; overlong forms, surrogates and stray bytes are refused. */
  function DecodeChar(b: seq<byte>): (r: Option<char>)
    requires b != []
    ensures r.Some? ==> |EncodeChar(r.value)| <= |b| && b[..|EncodeChar(r.value)|] == EncodeChar(r.value)
  {
    if Span(b[0]) == 0 || Span(b[0]) > |b| || !IsScalar(Code(b)) then None
    else
      var c := Code(b) as char;
      var e := EncodeChar(c);
      if |e| <= |b| && b[..|e|] == e then Some(c) else None
  }

  function Decode(b: seq<byte>): (r: Option<string>)
    ensures r.Some? ==> Encode(r.value) == b
  {
    if b == [] then Some("")
    else
      var c := DecodeChar(b);
      if c.None? then None
      else
        var e := EncodeChar(c.value);
        var t := Decode(b[|e|..]);
        if t.None? then None
        else
          assert ([c.value] + t.value)[1..] == t.value;
          Some([c.value] + t.value)
  }

  lemma {:induction false} CodeOfChar(c: char, b: seq<byte>)
    requires |b| >= |EncodeChar(c)| && b[..|EncodeChar(c)|] == EncodeChar(c)
    ensures Span(b[0]) == |EncodeChar(c)| && Code(b) == c as int
  {
    var e := EncodeChar(c);
    assert forall i :: 0 <= i < |e| ==> b[i] == e[i];
  }

  lemma {:induction false} DecodeEncode(s: string)
    ensures Decode(Encode(s)) == Some(s)
  {
    if s != "" {
      var e := EncodeChar(s[0]);
      var b := Encode(s);
      assert b[..|e|] == e && b[|e|..] == Encode(s[1..]);
      CodeOfChar(s[0], b);
      DecodeEncode(s[1..]);
      assert [s[0]] + s[1..] == s;
    }
  }

  predicate Continues(b: seq<byte>) { forall i :: 1 <= i < |b| ==> 0x80 <= b[i] < 0xC0 }

  function Over(x: byte, mark: int): int { x as int - mark }

  /** The bytes of a code point, after the table in section 3 of RFC 3629. */
  predicate Spells(b: seq<byte>, n: int)
  {
    && Continues(b)
    && match |b|
       case 1 => n < 0x80 && b[0] == n
       case 2 => 0x80 <= n < 0x800 && n == Over(b[0], 0xC0) * 64 + Over(b[1], 0x80)
       case 3 => 0x800 <= n < 0x1_0000 && n == (Over(b[0], 0xE0) * 64 + Over(b[1], 0x80)) * 64 + Over(b[2], 0x80)
       case 4 =>
         && 0x1_0000 <= n
         && n == ((Over(b[0], 0xF0) * 64 + Over(b[1], 0x80)) * 64 + Over(b[2], 0x80)) * 64 + Over(b[3], 0x80)
       case _ => false
  }

  lemma {:induction false} Digits64(n: nat, q: int, r: int)
    requires 0 <= r < 64
    ensures n == q * 64 + r <==> q == n / 64 && r == n % 64
  {
  }

  lemma {:induction false} TwoBytes(n: nat, b: seq<byte>)
    requires |b| == 2 && Continues(b) && 0x80 <= n < 0x800
    ensures b == [0xC0 + n / 64, 0x80 + n % 64] <==> n == Over(b[0], 0xC0) * 64 + Over(b[1], 0x80)
  {
    Digits64(n, Over(b[0], 0xC0), Over(b[1], 0x80));
  }

  lemma {:induction false} ThreeBytes(n: nat, b: seq<byte>)
    requires |b| == 3 && Continues(b) && 0x800 <= n < 0x1_0000
    ensures
      b == [0xE0 + n / 64 / 64, 0x80 + n / 64 % 64, 0x80 + n % 64] <==>
      n == (Over(b[0], 0xE0) * 64 + Over(b[1], 0x80)) * 64 + Over(b[2], 0x80)
  {
    var q := n / 64;
    Digits64(n, Over(b[0], 0xE0) * 64 + Over(b[1], 0x80), Over(b[2], 0x80));
    Digits64(q, Over(b[0], 0xE0), Over(b[1], 0x80));
  }

  lemma {:induction false} FourBytes(n: nat, b: seq<byte>)
    requires |b| == 4 && Continues(b) && 0x1_0000 <= n < 0x11_0000
    ensures
      b == [0xF0 + n / 64 / 64 / 64, 0x80 + n / 64 / 64 % 64, 0x80 + n / 64 % 64, 0x80 + n % 64] <==>
      n == ((Over(b[0], 0xF0) * 64 + Over(b[1], 0x80)) * 64 + Over(b[2], 0x80)) * 64 + Over(b[3], 0x80)
  {
    var q := n / 64;
    var p := q / 64;
    Digits64(n, (Over(b[0], 0xF0) * 64 + Over(b[1], 0x80)) * 64 + Over(b[2], 0x80), Over(b[3], 0x80));
    Digits64(q, Over(b[0], 0xF0) * 64 + Over(b[1], 0x80), Over(b[2], 0x80));
    Digits64(p, Over(b[0], 0xF0), Over(b[1], 0x80));
  }

  lemma {:induction false} CharExactly(c: char, b: seq<byte>)
    ensures EncodeChar(c) == b <==> Spells(b, c as int)
  {
    var n := c as int;
    assert EncodeChar(c) == b ==> Continues(b);
    if b != [] && Continues(b) {
      if |b| == 1 { assert b == [b[0]]; }
      if |b| == 2 && 0x80 <= n < 0x800 { TwoBytes(n, b); }
      if |b| == 3 && 0x800 <= n < 0x1_0000 { ThreeBytes(n, b); }
      if |b| == 4 && 0x1_0000 <= n { FourBytes(n, b); }
    }
  }

  lemma {:induction false} EncodeInjective(s: string, t: string)
    requires Encode(s) == Encode(t)
    ensures s == t
  {
    DecodeEncode(s);
    DecodeEncode(t);
  }
}
