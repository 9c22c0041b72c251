/** Arbitrary-size integers as decimal text, converted 256 digits at a time
    (`_decimal_text_to_int` and `_int_to_decimal_text` of backends/python_shim.py). */
module Decimal {
  import opened Wrappers

  const CHUNK_DIGITS: nat := 256

  function Pow10(n: nat): (r: nat)
    ensures r > 0
  {
    if n == 0 then 1 else 10 * Pow10(n - 1)
  }

  predicate IsDigit(c: char) { '0' <= c <= '9' }

  predicate AllDigits(s: string) { forall i :: 0 <= i < |s| ==> IsDigit(s[i]) }

  function Digit(d: nat): (c: char)
    requires d < 10
    ensures IsDigit(c) && c as int - '0' as int == d
  {
    (d + '0' as int) as char
  }

  /** The number a run of digits denotes; Python's `int(chunk)`. */
  function Value(s: string): nat
    requires AllDigits(s)
  {
    if s == "" then 0 else Value(s[..|s| - 1]) * 10 + (s[|s| - 1] as int - '0' as int)
  }

  /** The shortest digits of a number; Python's `str(n)`. */
  function Text(n: nat): (s: string)
    ensures s != "" && AllDigits(s)
  {
    if n < 10 then [Digit(n)] else Text(n / 10) + [Digit(n % 10)]
  }

  /** Zero-padded digits; Python's `f"{n:0{width}d}"` for a number that fits. */
  function Padded(n: nat, width: nat): (s: string)
    ensures |s| == width && AllDigits(s)
  {
    if width == 0 then "" else Padded(n / 10, width - 1) + [Digit(n % 10)]
  }

  /** Decimal text with an optional minus sign, or nothing when it is malformed. */
  function Parse(text: string): Option<int>
  {
    var negative := text != "" && text[0] == '-';
    var digits := if negative then text[1..] else text;
    if digits == "" || !AllDigits(digits) then None
    else
      var value: int := Value(digits);
      Some(if negative then -value else value)
  }

  function Format(n: int): string
  {
    if n < 0 then "-" + Text(-n) else Text(n)
  }

  /** No leading zero and no negative zero. */
  predicate Canonical(text: string)
  {
    var digits := if text != "" && text[0] == '-' then text[1..] else text;
    digits != "" && (digits[0] == '0' ==> text == "0")
  }

  lemma {:induction false} MulTen(a: nat, p: nat)
    ensures (a * p) * 10 == a * (10 * p)
  {
  }

  lemma {:induction false} ValueSnoc(s: string, c: char)
    requires AllDigits(s) && IsDigit(c)
    ensures AllDigits(s + [c]) && Value(s + [c]) == Value(s) * 10 + (c as int - '0' as int)
  {
    assert (s + [c])[..|s|] == s;
  }

  lemma {:induction false} ValueAppend(s: string, t: string)
    requires AllDigits(s) && AllDigits(t)
    ensures AllDigits(s + t) && Value(s + t) == Value(s) * Pow10(|t|) + Value(t)
  {
    if t == "" {
      assert s + t == s;
    } else {
      var u, c := t[..|t| - 1], t[|t| - 1];
      assert AllDigits(u) && IsDigit(c);
      hide Value, Pow10, AllDigits, IsDigit;
      ValueAppend(s, u);
      assert t == u + [c] && s + t == (s + u) + [c];
      ValueSnoc(s + u, c);
      ValueSnoc(u, c);
      PowNext(|u|);
      OneMoreDigit(Value(s), Pow10(|u|), Value(u), c as int - '0' as int);
    }
  }

  lemma {:induction false} PowNext(n: nat)
    ensures Pow10(n + 1) == 10 * Pow10(n)
  {
  }

  lemma {:induction false} OneMoreDigit(x: nat, p: nat, y: nat, d: int)
    ensures (x * p + y) * 10 + d == x * (10 * p) + (y * 10 + d)
  {
    MulTen(x, p);
  }

  lemma {:induction false} ValueOfText(n: nat)
    ensures Value(Text(n)) == n
  {
    if n >= 10 {
      ValueOfText(n / 10);
      assert Text(n)[..|Text(n)| - 1] == Text(n / 10);
    } else {
      assert Text(n)[..0] == "";
    }
  }

  lemma {:induction false} TextHead(n: nat)
    ensures Text(n)[0] == '0' <==> n == 0
  {
    if n >= 10 { TextHead(n / 10); }
  }

  lemma {:induction false} PowStep(q: nat, width: nat)
    requires q > 0 && width > 0
    ensures q * Pow10(width) == 10 * (q * Pow10(width - 1))
    ensures q * Pow10(width - 1) >= 1
  {
    var p := Pow10(width - 1);
    assert q * (10 * p) == 10 * (q * p);
    assert q * p >= 1 * p;
  }

  lemma {:induction false} TextStep(p: nat, r: nat)
    requires p >= 1
    ensures Text(10 * p + r) == Text(p + r / 10) + [Digit(r % 10)]
  {
    assert (10 * p + r) / 10 == p + r / 10 && (10 * p + r) % 10 == r % 10;
  }

  /** Splitting off the low digits of a number splits its text. */
  lemma {:induction false} TextSplit(q: nat, r: nat, width: nat)
    requires q > 0 && r < Pow10(width)
    ensures Text(q * Pow10(width) + r) == Text(q) + Padded(r, width)
  {
    hide Text;
    if width == 0 {
      assert q * Pow10(width) + r == q && Text(q) + Padded(r, width) == Text(q);
    } else {
      PowStep(q, width);
      TextStep(q * Pow10(width - 1), r);
      TextSplit(q, r / 10, width - 1);
      var a, b, c := Text(q), Padded(r / 10, width - 1), [Digit(r % 10)];
      assert a + b + c == a + (b + c);
    }
  }

  lemma {:induction false} TextOfValue(s: string)
    requires AllDigits(s) && s != "" && (s[0] == '0' ==> |s| == 1)
    ensures Text(Value(s)) == s
  {
    var u := s[..|s| - 1];
    var d := s[|s| - 1] as int - '0' as int;
    assert Digit(d) == s[|s| - 1];
    if |s| == 1 {
      assert Value(s) == d;
    } else {
      TextOfValue(u);
      TextHead(Value(u));
      assert Value(s) / 10 == Value(u) && Value(s) % 10 == d;
      assert s == u + [s[|s| - 1]];
    }
  }

  /** Text written for any integer reads back as that integer. */
  lemma {:induction false} ParseFormat(n: int)
    ensures Parse(Format(n)) == Some(n)
    ensures Canonical(Format(n))
  {
    var m := if n < 0 then -n else n;
    ValueOfText(m);
    TextHead(m);
    if n < 0 { assert Format(n)[1..] == Text(m); }
  }

  lemma {:induction false} FormatOfCanonical(digits: string, negative: bool)
    requires digits != "" && AllDigits(digits)
    requires digits[0] == '0' ==> |digits| == 1 && !negative
    ensures Format(if negative then -(Value(digits) as int) else Value(digits))
         == (if negative then "-" + digits else digits)
  {
    TextOfValue(digits);
    TextHead(Value(digits));
  }

  /** Text that reads as an integer is what is written for it exactly when canonical. */
  lemma {:induction false} FormatParse(text: string)
    requires Parse(text).Some?
    ensures Format(Parse(text).value) == text <==> Canonical(text)
  {
    ParseFormat(Parse(text).value);
    if Canonical(text) {
      var negative := text[0] == '-';
      var digits := if negative then text[1..] else text;
      FormatOfCanonical(digits, negative);
    }
  }

  lemma {:induction false} FormatInjective(m: int, n: int)
    requires Format(m) == Format(n)
    ensures m == n
  {
    ParseFormat(m);
    ParseFormat(n);
  }

  /** The loop of `_decimal_text_to_int`, for any positive chunk size. */
  method ParseChunked(text: string, chunkDigits: nat) returns (r: Option<int>)
    requires chunkDigits > 0
    ensures r == Parse(text)
  {
    hide Value, Pow10, AllDigits;
    var negative := text != "" && text[0] == '-';
    var digits := if negative then text[1..] else text;
    if digits == "" || !AllDigits(digits) { return None; }
    var value, offset := 0, 0;
    NoDigits(digits);
    while offset < |digits|
      invariant 0 <= offset <= |digits| && AllDigits(digits[..offset])
      invariant value == Value(digits[..offset])
    {
      var end := if offset + chunkDigits < |digits| then offset + chunkDigits else |digits|;
      var chunk := digits[offset..end];
      DigitsSplit(digits, offset, end);
      ValueAppend(digits[..offset], chunk);
      value := value * Pow10(|chunk|) + Value(chunk);
      offset := end;
    }
    assert digits[..offset] == digits;
    r := Some(if negative then -value else value);
  }

  lemma {:induction false} NoDigits(s: string)
    ensures AllDigits(s[..0]) && Value(s[..0]) == 0
  {
  }

  lemma {:induction false} DigitsSplit(s: string, i: nat, j: nat)
    requires AllDigits(s) && i <= j <= |s|
    ensures AllDigits(s[..i]) && AllDigits(s[i..j]) && AllDigits(s[..j]) && s[..j] == s[..i] + s[i..j]
  {
  }

  /** The chunks of `_int_to_decimal_text`, lowest first, joined highest first and padded. */
  function Join(chunks: seq<nat>, width: nat): string
  {
    if chunks == [] then "" else Join(chunks[1..], width) + Padded(chunks[0], width)
  }

  lemma {:induction false} JoinAppend(chunks: seq<nat>, c: nat, width: nat)
    ensures Join(chunks + [c], width) == Padded(c, width) + Join(chunks, width)
  {
    hide Padded;
    if chunks == [] {
      assert chunks + [c] == [c] && [c][1..] == [];
      assert Join([c], width) == Join([], width) + Padded(c, width);
    } else {
      JoinAppend(chunks[1..], c, width);
      assert (chunks + [c])[0] == chunks[0] && (chunks + [c])[1..] == chunks[1..] + [c];
      var a, b, d := Padded(c, width), Join(chunks[1..], width), Padded(chunks[0], width);
      assert a + b + d == a + (b + d);
    }
  }

  lemma {:induction false} ChunkStep(value: nat, rest: nat, remainder: nat, chunks: seq<nat>, width: nat)
    requires rest > 0 && remainder < Pow10(width) && value == rest * Pow10(width) + remainder
    ensures Text(value) + Join(chunks, width)
         == Text(rest) + Join(chunks + [remainder], width)
  {
    TextSplit(rest, remainder, width);
    JoinAppend(chunks, remainder, width);
  }

  /** Python's `divmod` on a positive number. */
  method DivMod(value: nat, base: nat) returns (q: nat, r: nat)
    requires value > 0 && base > 1
    ensures value == q * base + r && r < base && q < value
    ensures q == 0 ==> r == value
  {
    q, r := value / base, value % base;
    assert q * base >= q * 2;
  }

  /** The two loops of `_int_to_decimal_text`, for any positive chunk size. */
  method FormatChunked(n: int, chunkDigits: nat) returns (text: string)
    requires chunkDigits > 0
    ensures text == Format(n)
  {
    if n == 0 { return "0"; }
    var value: nat := if n < 0 then -n else n;
    ghost var whole := value;
    var chunks: seq<nat> := [];
    var base := Pow10(chunkDigits);
    assert Text(whole) + Join([], chunkDigits) == Text(whole);
    while value > 0
      invariant value == 0 ==> chunks != []
      invariant value > 0 ==> Text(whole) == Text(value) + Join(chunks, chunkDigits)
      invariant value == 0 ==>
        Text(whole) == Text(chunks[|chunks| - 1]) + Join(chunks[..|chunks| - 1], chunkDigits)
    {
      var rest, remainder := DivMod(value, base);
      if rest > 0 {
        ChunkStep(value, rest, remainder, chunks, chunkDigits);
      }
      assert (chunks + [remainder])[..|chunks|] == chunks;
      value := rest;
      chunks := chunks + [remainder];
    }
    var top := chunks[|chunks| - 1];
    chunks := chunks[..|chunks| - 1];
    text := Text(top) + Join(chunks, chunkDigits);
    if n < 0 { text := "-" + text; }
  }

  /** `_decimal_text_to_int` and `_int_to_decimal_text` with their 256-digit chunks. */
  method DecimalTextToInt(text: string) returns (r: Option<int>)
    ensures r == Parse(text)
  {
    r := ParseChunked(text, CHUNK_DIGITS);
  }

  method IntToDecimalText(n: int) returns (text: string)
    ensures text == Format(n)
    ensures Parse(text) == Some(n) && Canonical(text)
  {
    text := FormatChunked(n, CHUNK_DIGITS);
    ParseFormat(n);
  }
}
