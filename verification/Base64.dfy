/** RFC 4648 base64, as Python's `b64encode` and `b64decode(validate=True)` apply it. */
module Base64 {
  import opened Wrappers
  import opened Ordering

  function Symbol(n: nat): (c: char)
    requires n < 64
  {
    if n < 26 then ('A' as int + n) as char
    else if n < 52 then ('a' as int + (n - 26)) as char
    else if n < 62 then ('0' as int + (n - 52)) as char
    else if n == 62 then '+' else '/'
  }

  function Sextet(c: char): (r: Option<nat>)
    ensures r.Some? ==> r.value < 64
  {
    var n := c as int;
    if 'A' <= c <= 'Z' then Some(n - 'A' as int)
    else if 'a' <= c <= 'z' then Some(n - 'a' as int + 26)
    else if '0' <= c <= '9' then Some(n - '0' as int + 52)
    else if c == '+' then Some(62) else if c == '/' then Some(63) else None
  }

  function Encode(b: seq<byte>): string
  {
    if b == [] then ""
    else if |b| == 1 then [Symbol(b[0] / 4), Symbol(b[0] % 4 * 16), '=', '=']
    else if |b| == 2 then [Symbol(b[0] / 4), Symbol(b[0] % 4 * 16 + b[1] / 16), Symbol(b[1] % 16 * 4), '=']
    else
      [Symbol(b[0] / 4), Symbol(b[0] % 4 * 16 + b[1] / 16), Symbol(b[1] % 16 * 4 + b[2] / 64), Symbol(b[2] % 64)]
      + Encode(b[3..])
  }

  function Decode(s: string): Option<seq<byte>>
  {
    if s == "" then Some([])
    else if |s| < 4 then None
    else
      var x, y, z, w := Sextet(s[0]), Sextet(s[1]), Sextet(s[2]), Sextet(s[3]);
      if x.None? || y.None? then None
      else
        var first := x.value * 4 + y.value / 16;
        if |s| == 4 && s[2] == '=' && s[3] == '=' then Some([first])
        else if z.None? then None
        else
          var second := y.value % 16 * 16 + z.value / 4;
          if |s| == 4 && s[3] == '=' then Some([first, second])
          else if w.None? then None
          else
            var rest := Decode(s[4..]);
            if rest.None? then None else Some([first, second, z.value % 4 * 64 + w.value] + rest.value)
  }

  lemma {:induction false} SymbolRoundTrip(n: nat)
    requires n < 64
    ensures Sextet(Symbol(n)) == Some(n) && Symbol(n) != '='
  {
  }

  lemma {:induction false} Groups(a: byte, b: byte, c: byte)
    ensures var x, y, z, w := a / 4, a % 4 * 16 + b / 16, b % 16 * 4 + c / 64, c % 64;
      && x < 64 && y < 64 && z < 64 && w < 64
      && x * 4 + y / 16 == a && y % 16 * 16 + z / 4 == b && z % 4 * 64 + w == c
  {
  }

  lemma {:induction false} DecodeEncode(b: seq<byte>)
    ensures Decode(Encode(b)) == Some(b)
  {
    hide Symbol, Sextet, Decode;
    if |b| >= 3 {
      DecodeEncode(b[3..]);
      GroupStep(Encode(b), b[0], b[1], b[2], b[3..]);
      assert b == [b[0], b[1], b[2]] + b[3..];
    } else if |b| == 2 {
      TwoRead(b[0], b[1]);
      assert b == [b[0], b[1]];
    } else if |b| == 1 {
      OneRead(b[0]);
      assert b == [b[0]];
    } else {
      NoneRead();
    }
  }

  lemma {:induction false} NoneRead()
    ensures Decode("") == Some([])
  {
  }

  lemma {:induction false} OneRead(a: byte)
    ensures Decode([Symbol(a / 4), Symbol(a % 4 * 16), '=', '=']) == Some([a])
  {
    hide Symbol, Sextet;
    Groups(a, 0, 0);
    SymbolRoundTrip(a / 4);
    SymbolRoundTrip(a % 4 * 16);
  }

  lemma {:induction false} TwoRead(a: byte, b: byte)
    ensures Decode([Symbol(a / 4), Symbol(a % 4 * 16 + b / 16), Symbol(b % 16 * 4), '=']) == Some([a, b])
  {
    hide Symbol, Sextet;
    Groups(a, b, 0);
    SymbolRoundTrip(a / 4);
    SymbolRoundTrip(a % 4 * 16 + b / 16);
    SymbolRoundTrip(b % 16 * 4);
  }

  lemma {:induction false} GroupStep(s: string, a: byte, b: byte, c: byte, rest: seq<byte>)
    requires s ==
      [Symbol(a / 4), Symbol(a % 4 * 16 + b / 16), Symbol(b % 16 * 4 + c / 64), Symbol(c % 64)] + Encode(rest)
    requires Decode(Encode(rest)) == Some(rest)
    ensures Decode(s) == Some([a, b, c] + rest)
  {
    hide Symbol, Sextet, Encode, Decode;
    Groups(a, b, c);
    SymbolRoundTrip(a / 4);
    SymbolRoundTrip(a % 4 * 16 + b / 16);
    SymbolRoundTrip(b % 16 * 4 + c / 64);
    SymbolRoundTrip(c % 64);
    assert s[4..] == Encode(rest);
    GroupRead(s, a / 4, a % 4 * 16 + b / 16, b % 16 * 4 + c / 64, c % 64, a, b, c, rest);
  }

  lemma {:induction false} GroupRead(s: string, x: nat, y: nat, z: nat, w: nat, a: byte, b: byte, c: byte,
                                     rest: seq<byte>)
    requires |s| >= 4 && Sextet(s[0]) == Some(x) && Sextet(s[1]) == Some(y) && Sextet(s[2]) == Some(z)
    requires Sextet(s[3]) == Some(w)
    requires s[2] != '=' && s[3] != '='
    requires x * 4 + y / 16 == a && y % 16 * 16 + z / 4 == b && z % 4 * 64 + w == c
    requires Decode(s[4..]) == Some(rest)
    ensures Decode(s) == Some([a, b, c] + rest)
  {
    hide Sextet;
  }

  /** `s` spells `b`, whatever the bits of its last symbol that no byte needs. */
  predicate Spells(s: string, b: seq<byte>)
  {
    if b == [] then s == ""
    else
      && |s| >= 4 && Sextet(s[0]) == Some(b[0] / 4)
      && Sextet(s[1]).Some? && Sextet(s[1]).value / 16 == b[0] % 4
      && if |b| == 1 then s[2..] == "=="
         else
           && Sextet(s[1]).value % 16 == b[1] / 16
           && Sextet(s[2]).Some? && Sextet(s[2]).value / 4 == b[1] % 16
           && if |b| == 2 then s[3..] == "="
              else
                && Sextet(s[2]).value % 4 == b[2] / 64 && Sextet(s[3]) == Some(b[2] % 64)
                && Spells(s[4..], b[3..])
  }

  lemma {:induction false} Bits(x: nat, y: nat, z: nat, w: nat, a: byte, b: byte, c: byte)
    requires x < 64 && y < 64 && z < 64 && w < 64
    ensures x * 4 + y / 16 == a <==> x == a / 4 && y / 16 == a % 4
    ensures y % 16 * 16 + z / 4 == b <==> y % 16 == b / 16 && z / 4 == b % 16
    ensures z % 4 * 64 + w == c <==> z % 4 == c / 64 && w == c % 64
  {
  }

  const CAPITALS := "ABCDEFGHIJKLMNOPQRSTUVWXYZ"
  const SMALL := "abcdefghijklmnopqrstuvwxyz"
  const ALPHABET := CAPITALS + SMALL + "0123456789" + "+/"

  /** The symbols are the alphabet of section 4 of RFC 4648. */
  lemma {:induction false} SymbolExactly(c: char, n: nat)
    ensures |ALPHABET| == 64
    ensures Sextet(c) == Some(n) <==> n < 64 && c == ALPHABET[n]
    ensures n < 64 ==> Symbol(n) == ALPHABET[n]
  {
    if n < 64 {
      SymbolRoundTrip(n);
      SymbolAt(n);
    }
    if Sextet(c) == Some(n) { assert Symbol(n) as int == c as int; }
  }

  lemma {:induction false} Capital(n: nat)
    requires n < 26
    ensures CAPITALS[n] as int == 65 + n
  {
  }

  lemma {:induction false} Small(n: nat)
    requires n < 26
    ensures SMALL[n] as int == 97 + n
  {
  }

  lemma {:induction false} Figure(n: nat)
    requires n < 10
    ensures "0123456789"[n] as int == 48 + n
  {
  }

  lemma {:induction false} SymbolAt(n: nat)
    requires n < 64
    ensures Symbol(n) == ALPHABET[n]
  {
    if n < 26 {
      Capital(n);
    } else if n < 52 {
      Small(n - 26);
    } else if n < 62 {
      Figure(n - 52);
    }
  }

  /** The decoder accepts exactly the spellings. */
  lemma {:induction false} DecodeExactly(s: string, b: seq<byte>)
    ensures Decode(s) == Some(b) <==> Spells(s, b)
    decreases |s|, 1
  {
    hide Sextet;
    NoPadding();
    if |s| >= 4 && Sextet(s[0]).Some? && Sextet(s[1]).Some? && b != [] {
      var x, y := Sextet(s[0]).value, Sextet(s[1]).value;
      Endings(s);
      if |s| == 4 && s[2] == '=' && s[3] == '=' {
        Bits(x, y, 0, 0, b[0], 0, 0);
        if |b| == 1 { assert b == [b[0]]; }
      } else if Sextet(s[2]).Some? {
        var z := Sextet(s[2]).value;
        if |s| == 4 && s[3] == '=' {
          if |b| >= 2 { Bits(x, y, z, 0, b[0], b[1], 0); }
          if |b| == 2 { assert b == [b[0], b[1]]; }
        } else {
          TwoMore(s, b);
        }
      }
    }
  }

  /** A group without padding. */
  lemma {:induction false} TwoMore(s: string, b: seq<byte>)
    requires |s| >= 4 && Sextet(s[0]).Some? && Sextet(s[1]).Some? && Sextet(s[2]).Some? && b != []
    requires !(|s| == 4 && s[3] == '=') && s[2] != '='
    ensures Decode(s) == Some(b) <==> Spells(s, b)
    decreases |s|, 0
  {
    hide Sextet;
    NoPadding();
    var x, y, z := Sextet(s[0]).value, Sextet(s[1]).value, Sextet(s[2]).value;
    Endings(s);
    if Sextet(s[3]).Some? {
      var w, rest := Sextet(s[3]).value, Decode(s[4..]);
      if |b| >= 3 {
        Bits(x, y, z, w, b[0], b[1], b[2]);
        DecodeExactly(s[4..], b[3..]);
        assert b == [b[0], b[1], b[2]] + b[3..];
        if rest.Some? {
          var r: seq<byte> := [x * 4 + y / 16, y % 16 * 16 + z / 4, z % 4 * 64 + w] + rest.value;
          assert r[0] == x * 4 + y / 16 && r[1] == y % 16 * 16 + z / 4 && r[2] == z % 4 * 64 + w;
          assert r[3..] == rest.value;
        }
      }
    }
  }

  lemma {:induction false} Endings(s: string)
    requires |s| >= 4
    ensures s[2..] == "==" <==> |s| == 4 && s[2] == '=' && s[3] == '='
    ensures s[3..] == "=" <==> |s| == 4 && s[3] == '='
  {
    assert s[2..][0] == s[2] && s[2..][1] == s[3] && s[3..][0] == s[3];
  }

  lemma {:induction false} NoPadding()
    ensures Sextet('=').None?
  {
  }
}
