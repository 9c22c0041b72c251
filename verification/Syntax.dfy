/** Typed-parenthesis source text: what `o_lang/parser.py` reads, as a function of the text
    still to be read, and the parser state that computes it. */
module Syntax {
  import opened Wrappers
  import Decimal

  // ------------------------------------------------------------- character classes

  /** How Python classes the characters beyond ASCII. */
  datatype Unicode = Unicode(space: char -> bool, alnum: char -> bool, digit: char -> Option<nat>)

  predicate IdentStart(c: char) { 'A' <= c <= 'Z' || 'a' <= c <= 'z' || c == '_' }

  predicate IdentChar(c: char) { IdentStart(c) || '0' <= c <= '9' }

  predicate Space(u: Unicode, c: char)
  {
    if c as int < 128 then c == ' ' || '\t' <= c <= '\r' || 28 <= c as int <= 31 else u.space(c)
  }

  predicate Word(u: Unicode, c: char)
  {
    if c as int < 128 then IdentChar(c) else !u.space(c) && u.alnum(c)
  }

  function Digit(u: Unicode, c: char): Option<nat>
  {
    if '0' <= c <= '9' then Some(c as int - '0' as int) else if c as int < 128 then None else u.digit(c)
  }

  predicate Digits(u: Unicode, s: string) { forall i :: 0 <= i < |s| ==> Digit(u, s[i]).Some? }

  predicate Spaces(u: Unicode, s: string) { forall i :: 0 <= i < |s| ==> Space(u, s[i]) }

  predicate Ident(s: string) { s != "" && IdentStart(s[0]) && forall i :: 0 <= i < |s| ==> IdentChar(s[i]) }

  function IdentRun(s: string): (n: nat)
    ensures n <= |s| && (forall i :: 0 <= i < n ==> IdentChar(s[i])) && (n < |s| ==> !IdentChar(s[n]))
  {
    if s == "" || !IdentChar(s[0]) then 0 else 1 + IdentRun(s[1..])
  }

  function SpaceRun(u: Unicode, s: string): (n: nat)
    ensures n <= |s| && (forall i :: 0 <= i < n ==> Space(u, s[i])) && (n < |s| ==> !Space(u, s[n]))
  {
    if s == "" || !Space(u, s[0]) then 0 else 1 + SpaceRun(u, s[1..])
  }

  function DigitRun(u: Unicode, s: string): (n: nat)
    ensures n <= |s| && (forall i :: 0 <= i < n ==> Digit(u, s[i]).Some?) && (n < |s| ==> Digit(u, s[n]).None?)
  {
    if s == "" || Digit(u, s[0]).None? then 0 else 1 + DigitRun(u, s[1..])
  }

  // ------------------------------------------------------------------ environments

  const EPHEMERAL_ENV_ID: nat := 0xFFFF_FFFF
  const LINKER_ISOLATED_ENV_ID: nat := 0xFFFF_FFFE
  const MAX_PERSISTENT_ENV_ID: nat := 0xFFFF_FFFD

  const REGISTERED_LANGUAGES: set<string> :=
    {"python", "py", "markdown", "md", "html", "latex", "tex", "text", "plain", "O", "o", "quote", "nix", "nix_store",
     "nixos_test"}

  predicate Registered(language: string) { language in REGISTERED_LANGUAGES }

  datatype Env = Env(id: nat, explicit: bool)

  /** The number a run of digits denotes. */
  function Number(u: Unicode, digits: string): nat
    requires Digits(u, digits)
  {
    if digits == "" then 0 else Number(u, digits[..|digits| - 1]) * 10 + Digit(u, digits[|digits| - 1]).value
  }

  predicate MarkerOk(u: Unicode, marker: Option<string>)
  {
    marker.Some? ==> marker.value == "*" || (marker.value != "" && Digits(u, marker.value))
  }

  /** The environment a marker names; nothing when its number is reserved or out of range. */
  function DecodeEnv(u: Unicode, marker: Option<string>): Option<Env>
    requires MarkerOk(u, marker)
  {
    if marker.None? then Some(Env(EPHEMERAL_ENV_ID, false))
    else if marker.value == "*" then Some(Env(LINKER_ISOLATED_ENV_ID, true))
    else
      var id := Number(u, marker.value);
      if id > MAX_PERSISTENT_ENV_ID then None else Some(Env(id, true))
  }

  function Marker(env: Env): string
  {
    if !env.explicit then "" else if env.id == LINKER_ISOLATED_ENV_ID then "[*]" else "[" + Decimal.Text(env.id) + "]"
  }

  function OpeningTag(language: string, env: Env): string { language + Marker(env) + "^(" }

  function ClosingTag(language: string, env: Env): string { ")_" + language + Marker(env) }

  // --------------------------------------------------------------------------- tree

  datatype Part =
    | Text(text: string)
    | Var(name: string)
    | Let(name: string, expr: Part)
    | Expr(language: string, env: Env, body: seq<Part>)

  function Reconstruct(p: Part): string
    decreases p, 0
  {
    match p
    case Text(text) => text
    case Var(name) => "$" + name
    case Let(name, expr) => "let " + name + " = " + Reconstruct(expr)
    case Expr(language, env, body) => OpeningTag(language, env) + ReconstructAll(body) + ClosingTag(language, env)
  }

  function ReconstructAll(ps: seq<Part>): string
    decreases ps, 1
  {
    if ps == [] then "" else Reconstruct(ps[0]) + ReconstructAll(ps[1..])
  }

  // ----------------------------------------------------------------------- matching

  /** An opener found at the start of the text, and the text after it. */
  datatype Opener = Opener(language: string, marker: Option<string>, rest: string)

  function MarkerText(marker: Option<string>): string { if marker.None? then "" else "[" + marker.value + "]" }

  function OpenText(language: string, marker: Option<string>): string { language + MarkerText(marker) + "^(" }

  /** An optional environment marker and the parenthesis, and the text after them. */
  datatype Mark = Mark(marker: Option<string>, rest: string)

  function MarkAt(u: Unicode, t: string): (r: Option<Mark>)
    ensures r.Some? ==> |r.value.rest| < |t| && MarkerOk(u, r.value.marker)
  {
    if "^(" <= t then Some(Mark(None, t[2..]))
    else if t == "" || t[0] != '[' then None
    else
      var k := if 1 < |t| && t[1] == '*' then 1 else DigitRun(u, t[1..]);
      if k > 0 && "]^(" <= t[1 + k..] then Some(Mark(Some(t[1..1 + k]), t[1 + k..][3..])) else None
  }

  /** OPEN_RE at the start of `s`. */
  function OpenAt(u: Unicode, s: string): (r: Option<Opener>)
    ensures r.Some? ==> |r.value.rest| < |s| && MarkerOk(u, r.value.marker)
  {
    var n := IdentRun(s);
    if n == 0 || !IdentStart(s[0]) then None
    else
      var m := MarkAt(u, s[n..]);
      if m.Some? then Some(Opener(s[..n], m.value.marker, m.value.rest)) else None
  }

  /** An equals sign, the gaps around it, and the text after them. */
  datatype Equals = Equals(mid: string, after: string, rest: string)

  function EqualsAt(u: Unicode, t: string): (r: Option<Equals>)
    ensures r.Some? ==> |r.value.rest| < |t|
  {
    var b := SpaceRun(u, t);
    var v := t[b..];
    if v == "" || v[0] != '=' then None
    else
      var c := SpaceRun(u, v[1..]);
      Some(Equals(t[..b], v[1..][..c], v[1..][c..]))
  }

  /** A let header found at the start of the text, its three gaps, and the text after it. */
  datatype Header = Header(name: string, before: string, mid: string, after: string, rest: string)

  function HeaderText(h: Header): string { "let" + h.before + h.name + h.mid + "=" + h.after }

  /** LET_RE at the start of `s`. */
  function LetAt(u: Unicode, s: string): (r: Option<Header>)
    ensures r.Some? ==> |r.value.rest| < |s|
  {
    if !("let" <= s) then None
    else
      var a := SpaceRun(u, s[3..]);
      var t := s[3..][a..];
      var n := IdentRun(t);
      if a == 0 || n == 0 || !IdentStart(t[0]) then None
      else
        var e := EqualsAt(u, t[n..]);
        if e.None? then None else Some(Header(t[..n], s[3..][..a], e.value.mid, e.value.after, e.value.rest))
  }

  /** What may follow a closing tag. */
  predicate Boundary(tag: string, after: string)
  {
    if after == "" then true
    else if tag != "" && tag[|tag| - 1] == ']' then after[0] != '{'
    else !IdentChar(after[0]) && after[0] != '[' && after[0] != '{'
  }

  predicate EndAt(s: string, tag: string) { tag <= s && Boundary(tag, s[|tag|..]) }

  // ------------------------------------------------------------------------ parsing

  /** What the parser makes of the text at hand. */
  datatype Token =
    | Close
    | Plain
    | Escape(text: string, rest: string)
    | VarUse(name: string, rest: string)
    | Open(header: Option<Header>, opener: Opener)

  function Block(u: Unicode, s: string): (r: Option<Opener>)
    ensures r.Some? ==> r == OpenAt(u, s) && Registered(r.value.language)
  {
    var o := OpenAt(u, s);
    if o.Some? && Registered(o.value.language) then o else None
  }

  /** A let header that an opener follows. */
  function LetBlock(u: Unicode, s: string): (r: Option<Token>)
    ensures r.Some? ==> r.value.Open? && |r.value.opener.rest| < |s| && MarkerOk(u, r.value.opener.marker)
    ensures r.Some? ==> r.value.header.Some? && |r.value.header.value.rest| < |s|
  {
    if !("let " <= s) then None
    else
      var h := LetAt(u, s);
      if h.None? then None
      else
        var o := Block(u, h.value.rest);
        if o.None? then None else Some(Open(h, o.value))
  }

  /** A backslash, with `w` after it, escapes the closing tag or a registered opener. */
  function Backslash(u: Unicode, w: string, end: Option<string>): (t: Token)
    ensures t.Plain? || (t.Escape? && |t.rest| <= |w|)
  {
    if end.Some? && EndAt(w, end.value) then Escape(end.value, w[|end.value|..])
    else
      var o := Block(u, w);
      if o.Some? then Escape(w[..|w| - |o.value.rest|], o.value.rest) else Plain
  }

  /** A reference or an opener where no word precedes; otherwise plain text. */
  function Inline(u: Unicode, prev: bool, s: string): (t: Token)
    requires s != ""
    ensures t.VarUse? ==> |t.rest| < |s|
    ensures t.Open? ==> t.header.None? && |t.opener.rest| < |s| && MarkerOk(u, t.opener.marker)
    ensures !t.Close? && !t.Escape?
  {
    var w := s[1..];
    if s[0] == '$' && IdentRun(w) > 0 && IdentStart(w[0]) then VarUse(w[..IdentRun(w)], w[IdentRun(w)..])
    else
      var o := if prev then None else Block(u, s);
      if o.Some? then Open(None, o.value) else Plain
  }

  /** The parser's decision at the start of `s`; `prev` says that a word character precedes. */
  function Look(u: Unicode, prev: bool, s: string, end: Option<string>, top: bool): (t: Token)
    requires s != ""
    ensures t.Close? ==> end.Some? && |end.value| <= |s|
    ensures t.Escape? ==> |t.rest| < |s|
    ensures t.VarUse? ==> |t.rest| < |s|
    ensures t.Open? ==> |t.opener.rest| < |s| && MarkerOk(u, t.opener.marker)
  {
    if end.Some? && EndAt(s, end.value) then Close
    else if s[0] == '\\' then Backslash(u, s[1..], end)
    else
      var l := if top then LetBlock(u, s) else None;
      if l.Some? then l.value else Inline(u, prev, s)
  }

  datatype Failure = Unterminated(tag: string) | EnvOutOfRange(left: nat)

  datatype Parsed = Parsed(parts: seq<Part>, rest: string)

  function Flush(buf: string): seq<Part> { if buf == "" then [] else [Text(buf)] }

  function Prepend(parts: seq<Part>, r: Result<Parsed, Failure>): Result<Parsed, Failure>
  {
    match r
    case Ok(p) => Ok(Parsed(parts + p.parts, p.rest))
    case Err(e) => Err(e)
  }

  /** Whether a text ends in a word character. */
  predicate EndsWord(u: Unicode, s: string) { s != "" && Word(u, s[|s| - 1]) }

  function Node(header: Option<Header>, expr: Part): Part
  {
    if header.Some? then Let(header.value.name, expr) else expr
  }

  /** Parses `s` up to `end`, or to the end of the text; `buf` is text not yet flushed. */
  function Body(u: Unicode, prev: bool, s: string, end: Option<string>, top: bool, buf: string): (r: Result<Parsed,
                Failure>)
    ensures r.Ok? ==> |r.value.rest| <= |s| && (end.None? ==> r.value.rest == "")
    decreases |s|, 0
  {
    if s == "" then
      if end.Some? then Err(Unterminated(end.value)) else Ok(Parsed(Flush(buf), ""))
    else
      match Look(u, prev, s, end, top)
      case Close => Ok(Parsed(Flush(buf), s[|end.value|..]))
      case Plain => Body(u, Word(u, s[0]), s[1..], end, top, buf + [s[0]])
      case Escape(text, rest) => Body(u, EndsWord(u, text), rest, end, top, buf + text)
      case VarUse(name, rest) => Prepend(Flush(buf) + [Var(name)], Body(u, EndsWord(u, name), rest, end, top, ""))
      case Open(header, o) => Nested(u, header, o, if header.Some? then |header.value.rest| else |s|, end, top, buf)
  }

  /** Parses the expression that `o` opens, and then what follows it. */
  function Nested(u: Unicode, header: Option<Header>, o: Opener, left: nat, end: Option<string>, top: bool,
                  buf: string):
      (r: Result<Parsed, Failure>)
    requires MarkerOk(u, o.marker)
    ensures r.Ok? ==> |r.value.rest| <= |o.rest| && (end.None? ==> r.value.rest == "")
    decreases |o.rest|, 1
  {
    var env := DecodeEnv(u, o.marker);
    if env.None? then Err(EnvOutOfRange(left))
    else
      var tag := ClosingTag(o.language, env.value);
      match Body(u, false, o.rest, Some(tag), false, "")
      case Err(e) => Err(e)
      case Ok(inner) =>
        var node := Node(header, Expr(o.language, env.value, inner.parts));
        Prepend(Flush(buf) + [node], Body(u, EndsWord(u, tag), inner.rest, end, top, ""))
  }

  /** The tree of a document. */
  function ParseDocument(u: Unicode, src: string): Result<seq<Part>, Failure>
  {
    match Body(u, false, src, None, true, "")
    case Ok(p) => Ok(p.parts)
    case Err(e) => Err(e)
  }
}
