/** What the bytes of a float stand for: four-byte floats on the wire, and finite ones in plain data. */
module Floats {
  import opened Ordering
  import opened Cbor
  import opened CborTheorems
  import PlainData

  function Pow2(k: int): real
    decreases if k < 0 then -k else k
  {
    if k == 0 then 1.0 else if k > 0 then 2.0 * Pow2(k - 1) else Pow2(k + 1) / 2.0
  }

  lemma {:induction false} Pow2Next(k: int)
    ensures Pow2(k + 1) == 2.0 * Pow2(k)
  {
  }

  /** Twenty-nine more fraction bits are a factor of 2 to the 29. */
  lemma {:induction false} Pow2Shift(k: int, n: nat)
    ensures Pow2(k + n) == TwoTo(n) as real * Pow2(k)
  {
    if n > 0 {
      Pow2Shift(k, n - 1);
      Pow2Next(k + n - 1);
      var t := TwoTo(n - 1);
      assert TwoTo(n) == 2 * t;
      hide Pow2, TwoTo;
      assert (2 * t) as real == 2.0 * t as real;
      Doubled(t as real, Pow2(k));
    }
  }

  lemma {:induction false} Doubled(a: real, p: real)
    ensures 2.0 * (a * p) == (2.0 * a) * p
  {
  }

  function TwoTo(n: nat): nat { if n == 0 then 1 else 2 * TwoTo(n - 1) }

  // ----------------------------------------------------------------- binary formats

  /** Sign, exponent and fraction of the formats of IEEE 754 with 32 and 64 bits. */
  function Sign32(x: nat): nat { x / 0x8000_0000 }
  function Exponent32(x: nat): nat { x / 0x80_0000 % 256 }
  function Fraction32(x: nat): nat { x % 0x80_0000 }
  function Sign64(x: nat): nat { x / 0x8000_0000_0000_0000 }
  function Exponent64(x: nat): nat { x / 0x10_0000_0000_0000 % 2048 }
  function Fraction64(x: nat): nat { x % 0x10_0000_0000_0000 }

  /** The magnitude of a finite float: a significand times a power of two. */
  function Magnitude32(x: nat): real
  {
    if Exponent32(x) == 0 then Fraction32(x) as real * Pow2(-149)
    else (0x80_0000 + Fraction32(x)) as real * Pow2(Exponent32(x) - 150)
  }

  function Magnitude64(x: nat): real
  {
    if Exponent64(x) == 0 then Fraction64(x) as real * Pow2(-1074)
    else (0x10_0000_0000_0000 + Fraction64(x)) as real * Pow2(Exponent64(x) - 1075)
  }

  lemma {:induction false} Parts64(sign: nat, e: nat, m: nat)
    requires sign < 2 && e < 2048 && m < 0x10_0000_0000_0000
    ensures var x := sign * 0x8000_0000_0000_0000 + (e * 0x10_0000_0000_0000 + m);
      x < TWO64 && Sign64(x) == sign && Exponent64(x) == e && Fraction64(x) == m
  {
  }

  lemma {:induction false} Read64(x: nat)
    requires x < TWO64
    ensures FromBigEndian(BigEndian(x, 8)) == x
  {
    HeadFits(x);
    BigEndianRoundTrip(x, 8);
  }

  lemma {:induction false} Read32(four: seq<byte>)
    requires |four| == 4
    ensures FromBigEndian(four) < 0x1_0000_0000
  {
    Below(four);
    assert Pow256(4) == 0x1_0000_0000;
  }

  lemma {:induction false} Below(x: seq<byte>)
    ensures FromBigEndian(x) < Pow256(|x|)
  {
    if x != [] { Below(x[..|x| - 1]); }
  }

  /** Exponent and fraction `w` of a normal float stand for a number times a power of two. */
  ghost predicate Stands(w: int, n: nat, k: int)
  {
    && w >= 0 && 1 <= w / 0x10_0000_0000_0000 < 2047
    && (0x10_0000_0000_0000 + w % 0x10_0000_0000_0000) as real * Pow2(w / 0x10_0000_0000_0000 - 1075)
       == n as real * Pow2(k)
  }

  /** A fraction without its leading bit is shifted up until the bit is there, and the exponent down with it. */
  lemma {:induction false} SubnormalStands(m: nat, exponent: int, j: nat)
    requires 0 < m < 0x100_0000 && m * TwoTo(j) >= 0x80_0000 && exponent - j >= 1 && exponent < 2047
    ensures Stands(Subnormal(m, exponent), m * 0x2000_0000, exponent - 1075)
    decreases j
  {
    hide Pow2, TwoTo, Stands;
    if m >= 0x80_0000 {
      Normalised(m, exponent);
    } else {
      TwoToNext(m, j);
      SubnormalStands(2 * m, exponent - 1, j - 1);
      StandsHalved(Subnormal(m, exponent), m * 0x2000_0000, exponent - 1 - 1075);
    }
  }

  lemma {:induction false} Normalised(m: nat, exponent: nat)
    requires 0x80_0000 <= m < 0x100_0000 && 1 <= exponent < 2047
    ensures Stands(Subnormal(m, exponent), m * 0x2000_0000, exponent - 1075)
  {
    var w := Subnormal(m, exponent);
    hide Pow2;
    assert w / 0x10_0000_0000_0000 == exponent;
    assert 0x10_0000_0000_0000 + w % 0x10_0000_0000_0000 == m * 0x2000_0000;
  }

  lemma {:induction false} TwoToNext(m: nat, j: nat)
    requires m < 0x80_0000 && m * TwoTo(j) >= 0x80_0000
    ensures j > 0 && (2 * m) * TwoTo(j - 1) == m * TwoTo(j)
  {
    assert j > 0 ==> m * TwoTo(j) == m * (2 * TwoTo(j - 1));
  }

  lemma {:induction false} StandsHalved(w: int, n: nat, k: int)
    requires Stands(w, 2 * n, k)
    ensures Stands(w, n, k + 1)
  {
    Pow2Next(k);
    hide Pow2;
    assert (2 * n) as real == 2.0 * n as real;
    Halved(n as real, Pow2(k));
  }

  lemma {:induction false} Halved(a: real, p: real)
    ensures (2.0 * a) * p == a * (2.0 * p)
  {
  }

  /** A four-byte float is read as the eight-byte float of the same sign and value. */
  lemma {:induction false} WidenKeepsValue(four: seq<byte>)
    requires |four| == 4 && Exponent32(FromBigEndian(four)) != 255
    ensures
      var x, y := FromBigEndian(four), FromBigEndian(Widen(four));
      Sign64(y) == Sign32(x) && Exponent64(y) != 2047 && Magnitude64(y) == Magnitude32(x)
  {
    hide FromBigEndian, Widen, Pow2, Subnormal;
    var x := FromBigEndian(four);
    var e, m := Exponent32(x), Fraction32(x);
    if e == 0 && m == 0 {
      Widened(four, 0, 0);
      Nothing();
    } else if e > 0 {
      Widened(four, e + 896, m * 0x2000_0000);
      NormalKept(e, m);
    } else {
      SubnormalWidened(four, m);
    }
  }

  lemma {:induction false} SubnormalWidened(four: seq<byte>, m: nat)
    requires |four| == 4 && Exponent32(FromBigEndian(four)) == 0 && m == Fraction32(FromBigEndian(four)) && m > 0
    ensures
      var x, y := FromBigEndian(four), FromBigEndian(Widen(four));
      Sign64(y) == Sign32(x) && Exponent64(y) != 2047 && Magnitude64(y) == Magnitude32(x)
  {
    hide FromBigEndian, Widen, Pow2, Subnormal;
    SubnormalKept(m);
    var w := Subnormal(m, 897);
    Widened(four, w / 0x10_0000_0000_0000, w % 0x10_0000_0000_0000);
  }

  lemma {:induction false} NormalKept(e: nat, m: nat)
    ensures (0x10_0000_0000_0000 + m * 0x2000_0000) as real * Pow2(e + 896 - 1075) ==
      (0x80_0000 + m) as real * Pow2(e - 150)
  {
    hide Pow2;
    Shifted(0x80_0000 + m, e - 179);
    assert (0x80_0000 + m) * 0x2000_0000 == 0x10_0000_0000_0000 + m * 0x2000_0000;
  }

  lemma {:induction false} SubnormalKept(m: nat)
    requires 0 < m < 0x80_0000
    ensures
      var w := Subnormal(m, 897);
      && w >= 0 && 1 <= w / 0x10_0000_0000_0000 < 2047
      && (0x10_0000_0000_0000 + w % 0x10_0000_0000_0000) as real * Pow2(w / 0x10_0000_0000_0000 - 1075)
         == m as real * Pow2(-149)
  {
    hide Pow2, TwoTo, Subnormal;
    Grown(m);
    SubnormalStands(m, 897, 23);
    Shifted(m, -178);
  }

  lemma {:induction false} Nothing()
    ensures 0 as real * Pow2(-1074) == 0 as real * Pow2(-149)
  {
  }

  lemma {:induction false} TwoTo23()
    ensures TwoTo(23) == 0x80_0000 && TwoTo(29) == 0x2000_0000
  {
    assert TwoTo(8) == 256;
    assert TwoTo(16) == 0x1_0000;
    assert TwoTo(23) == 0x80_0000;
  }

  lemma {:induction false} Grown(m: nat)
    requires m > 0
    ensures m * TwoTo(23) >= 0x80_0000
  {
    TwoTo23();
  }

  lemma {:induction false} Shifted(m: nat, k: int)
    ensures (m * 0x2000_0000) as real * Pow2(k) == m as real * Pow2(k + 29)
  {
    TwoTo23();
    Pow2Shift(k, 29);
    hide Pow2, TwoTo;
    assert (m * 0x2000_0000) as real == m as real * 0x2000_0000 as real;
    Assoc(m as real, 0x2000_0000 as real, Pow2(k));
  }

  lemma {:induction false} Assoc(a: real, b: real, c: real)
    ensures a * b * c == a * (b * c)
  {
  }

  /** The widened float has the sign of the four bytes and the exponent and fraction computed for it. */
  lemma {:induction false} Widened(four: seq<byte>, e: nat, f: nat)
    requires |four| == 4 && e < 2048 && f < 0x10_0000_0000_0000
    requires
      var x := FromBigEndian(four);
      e * 0x10_0000_0000_0000 + f ==
        if Exponent32(x) == 255 then 2047 * 0x10_0000_0000_0000 + Fraction32(x) * 0x2000_0000
        else if Exponent32(x) > 0 then (Exponent32(x) + 896) * 0x10_0000_0000_0000 + Fraction32(x) * 0x2000_0000
        else if Fraction32(x) == 0 then 0
        else Subnormal(Fraction32(x), 897)
    ensures
      var y := FromBigEndian(Widen(four));
      Sign64(y) == Sign32(FromBigEndian(four)) && Exponent64(y) == e && Fraction64(y) == f
  {
    hide FromBigEndian, BigEndian, Subnormal;
    Read32(four);
    var x := FromBigEndian(four);
    var y := Sign32(x) * 0x8000_0000_0000_0000 + (e * 0x10_0000_0000_0000 + f);
    Parts64(Sign32(x), e, f);
    Read64(y);
    assert y % TWO64 == y;
  }

  /** Infinities stay infinities and the rest stay numbers that are none. */
  lemma {:induction false} WidenKeepsSpecial(four: seq<byte>)
    requires |four| == 4 && Exponent32(FromBigEndian(four)) == 255
    ensures
      var x, y := FromBigEndian(four), FromBigEndian(Widen(four));
      && Sign64(y) == Sign32(x) && Exponent64(y) == 2047
      && (Fraction64(y) == 0 <==> Fraction32(x) == 0)
  {
    hide FromBigEndian, BigEndian, Widen;
    Widened(four, 2047, Fraction32(FromBigEndian(four)) * 0x2000_0000);
  }

  /** The finite floats of plain data are those whose exponent is not all ones. */
  lemma {:induction false} FiniteExactly(bits: seq<byte>)
    requires |bits| == 8
    ensures PlainData.Finite(bits) <==> Exponent64(FromBigEndian(bits)) != 2047
  {
    var low := bits[2..];
    Below(low);
    assert Pow256(6) == 0x1_0000_0000_0000;
    TopBytes(bits);
    var x := FromBigEndian(bits);
    var high, next: int := bits[0], bits[1];
    assert x / 0x10_0000_0000_0000 == high * 16 + next / 16;
  }

  lemma {:induction false} TopBytes(bits: seq<byte>)
    requires |bits| == 8
    ensures FromBigEndian(bits) == (bits[0] as int * 256 + bits[1]) * 0x1_0000_0000_0000 + FromBigEndian(bits[2..])
  {
    FromSplit(bits[..2], bits[2..]);
    assert bits == bits[..2] + bits[2..];
    assert Pow256(6) == 0x1_0000_0000_0000;
    var two := bits[..2];
    assert two[..1] == [bits[0]] && [bits[0]][..0] == [];
    assert FromBigEndian([]) == 0;
    assert FromBigEndian([bits[0]]) == bits[0];
  }

  lemma {:induction false} FromSplit(a: seq<byte>, b: seq<byte>)
    ensures FromBigEndian(a + b) == FromBigEndian(a) * Pow256(|b|) + FromBigEndian(b)
  {
    if b == [] {
      assert a + b == a;
    } else {
      var init := b[..|b| - 1];
      FromSplit(a, init);
      FromLast(b);
      FromLast(a + b);
      assert (a + b)[..|a + b| - 1] == a + init;
      Carried(FromBigEndian(a), Pow256(|b| - 1));
      PowNext(|b| - 1);
      hide FromBigEndian, Pow256;
      Distributed(FromBigEndian(a), Pow256(|b| - 1), FromBigEndian(init), b[|b| - 1]);
    }
  }

  lemma {:induction false} FromLast(x: seq<byte>)
    requires x != []
    ensures FromBigEndian(x) == FromBigEndian(x[..|x| - 1]) * 256 + x[|x| - 1]
  {
  }

  lemma {:induction false} PowNext(n: nat)
    ensures Pow256(n + 1) == 256 * Pow256(n)
  {
  }

  lemma {:induction false} Distributed(a: nat, p: nat, b: nat, last: nat)
    ensures (a * p + b) * 256 + last == a * p * 256 + (b * 256 + last)
  {
  }

  lemma {:induction false} Carried(n: nat, p: nat)
    ensures n * p * 256 == n * (256 * p)
  {
  }
}
