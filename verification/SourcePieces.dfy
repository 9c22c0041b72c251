/** What reconstructing a parsed source gives back, piece by piece. */
module SourcePieces {
  import opened Wrappers
  import opened Syntax
  import Decimal

  /** A stretch of source, by how reconstruction writes it. */
  datatype Piece =
    | Same(text: string)
    | Dropped(text: string)
    | LetHead(header: Header)
    | Numeral(digits: string, value: nat)

  function Source(p: Piece): string
  {
    match p
    case Same(text) => text
    case Dropped(text) => "\\" + text
    case LetHead(h) => HeaderText(h)
    case Numeral(digits, _) => digits
  }

  function Output(p: Piece): string
  {
    match p
    case Same(text) => text
    case Dropped(text) => text
    case LetHead(h) => "let " + h.name + " = "
    case Numeral(_, value) => Decimal.Text(value)
  }

  ghost predicate IsOpener(u: Unicode, text: string)
  {
    exists language, marker ::
      Registered(language) && Ident(language) && MarkerOk(u, marker) && text == OpenText(language, marker)
  }

  ghost predicate IsCloser(text: string)
  {
    exists language, env :: Registered(language) && text == ClosingTag(language, env)
  }

  ghost predicate HeaderOk(u: Unicode, h: Header)
  {
    Ident(h.name) && h.before != "" && Spaces(u, h.before) && Spaces(u, h.mid) && Spaces(u, h.after)
  }

  /** The only changes: a backslash before a tag, the gaps of a let header, a number's spelling. */
  ghost predicate PieceOk(u: Unicode, p: Piece)
  {
    match p
    case Same(_) => true
    case Dropped(text) => IsOpener(u, text) || IsCloser(text)
    case LetHead(h) => HeaderOk(u, h)
    case Numeral(digits, value) => digits != "" && Digits(u, digits) && Number(u, digits) == value
  }

  function Sources(ps: seq<Piece>): string { if ps == [] then "" else Source(ps[0]) + Sources(ps[1..]) }

  function Outputs(ps: seq<Piece>): string { if ps == [] then "" else Output(ps[0]) + Outputs(ps[1..]) }

  function TagPieces(u: Unicode, o: Opener): seq<Piece>
    requires MarkerOk(u, o.marker)
  {
    if o.marker.None? || o.marker.value == "*" then [Same(OpenText(o.language, o.marker))]
    else [Same(o.language + "["), Numeral(o.marker.value, Number(u, o.marker.value)), Same("]^(")]
  }

  function HeadPieces(header: Option<Header>): seq<Piece> { if header.Some? then [LetHead(header.value)] else [] }

  /** The pieces of the text that `Body` consumes. */
  function Pieces(u: Unicode, prev: bool, s: string, end: Option<string>, top: bool): seq<Piece>
    decreases |s|, 0
  {
    if s == "" then []
    else
      match Look(u, prev, s, end, top)
      case Close => [Same(end.value)]
      case Plain => [Same(s[..1])] + Pieces(u, Word(u, s[0]), s[1..], end, top)
      case Escape(text, rest) => [Dropped(text)] + Pieces(u, EndsWord(u, text), rest, end, top)
      case VarUse(name, rest) => [Same("$" + name)] + Pieces(u, EndsWord(u, name), rest, end, top)
      case Open(header, o) => HeadPieces(header) + TagPieces(u, o) + NestedPieces(u, o, end, top)
  }

  function NestedPieces(u: Unicode, o: Opener, end: Option<string>, top: bool): seq<Piece>
    requires MarkerOk(u, o.marker)
    decreases |o.rest|, 1
  {
    var env := DecodeEnv(u, o.marker);
    if env.None? then []
    else
      var tag := ClosingTag(o.language, env.value);
      match Body(u, false, o.rest, Some(tag), false, "")
      case Err(_) => []
      case Ok(inner) =>
        Pieces(u, false, o.rest, Some(tag), false) + Pieces(u, EndsWord(u, tag), inner.rest, end, top)
  }

  function DocumentPieces(u: Unicode, src: string): seq<Piece> { Pieces(u, false, src, None, true) }

  // --------------------------------------------------------------------- matchers

  lemma {:induction false} MarkSound(u: Unicode, t: string)
    requires MarkAt(u, t).Some?
    ensures var m := MarkAt(u, t).value; t == MarkerText(m.marker) + "^(" + m.rest
  {
    hide DigitRun, Digit, MarkerOk;
    var m := MarkAt(u, t).value;
    if "^(" <= t {
      assert t == "^(" + m.rest;
    } else {
      var k := if 1 < |t| && t[1] == '*' then 1 else DigitRun(u, t[1..]);
      MarkSplit(t, k, m);
    }
  }

  lemma {:induction false} MarkSplit(t: string, k: nat, m: Mark)
    requires t != "" && t[0] == '[' && 0 < k < |t| && "]^(" <= t[1 + k..]
    requires m.marker == Some(t[1..1 + k]) && m.rest == t[1 + k..][3..]
    ensures t == MarkerText(m.marker) + "^(" + m.rest
  {
    var v := t[1 + k..];
    assert v == "]^(" + m.rest;
    assert t == "[" + t[1..1 + k] + v;
    Assoc("[" + t[1..1 + k], "]^(", m.rest);
    assert "[" + t[1..1 + k] + "]^(" == MarkerText(m.marker) + "^(";
  }

  lemma {:induction false} OpenSound(u: Unicode, s: string)
    requires OpenAt(u, s).Some?
    ensures var o := OpenAt(u, s).value; Ident(o.language) && s == OpenText(o.language, o.marker) + o.rest
  {
    hide MarkAt;
    var n, o := IdentRun(s), OpenAt(u, s).value;
    MarkSound(u, s[n..]);
    assert s == s[..n] + s[n..];
    hide OpenAt;
    assert o.language + (MarkerText(o.marker) + "^(" + o.rest) == OpenText(o.language, o.marker) + o.rest;
  }

  lemma {:induction false} Assoc(a: string, b: string, c: string)
    ensures a + (b + c) == a + b + c
  {
  }

  lemma {:induction false} Split(s: string, n: nat)
    requires n <= |s|
    ensures s == s[..n] + s[n..]
  {
  }

  lemma {:induction false} EqualsParts(u: Unicode, t: string)
    requires EqualsAt(u, t).Some?
    ensures var e := EqualsAt(u, t).value; t == e.mid + ("=" + (e.after + e.rest))
  {
    var b := SpaceRun(u, t);
    var w := t[b..][1..];
    assert t[b..] == "=" + w;
    Split(t, b);
    Split(w, SpaceRun(u, w));
  }

  lemma {:induction false} EqualsSound(u: Unicode, t: string)
    requires EqualsAt(u, t).Some?
    ensures var e := EqualsAt(u, t).value; Spaces(u, e.mid) && Spaces(u, e.after) && t == e.mid + "=" + e.after + e.rest
  {
    EqualsParts(u, t);
    var e := EqualsAt(u, t).value;
    assert Spaces(u, e.mid) && Spaces(u, e.after);
    hide *;
    Assoc(e.mid, "=", e.after + e.rest);
    Assoc(e.mid + "=", e.after, e.rest);
  }

  /** What follows the name of a let header, and how the header is spelled up to it. */
  lemma {:induction false} LetParts(u: Unicode, s: string) returns (r: string)
    requires LetAt(u, s).Some?
    ensures var h := LetAt(u, s).value;
      && s == "let" + (h.before + (h.name + r)) && EqualsAt(u, r) == Some(Equals(h.mid, h.after, h.rest))
  {
    hide *;
    LetFields(u, s);
    var a := SpaceRun(u, s[3..]);
    var n := IdentRun(s[3..][a..]);
    LetSplit(s, a, n);
    r := s[3..][a..][n..];
  }

  lemma {:induction false} LetNames(u: Unicode, s: string)
    requires LetAt(u, s).Some?
    ensures var h := LetAt(u, s).value; Ident(h.name) && h.before != "" && Spaces(u, h.before)
  {
    hide LetAt, EqualsAt, SpaceRun, IdentRun, Space, IdentChar, IdentStart;
    LetFields(u, s);
  }

  lemma {:induction false} LetFields(u: Unicode, s: string)
    requires LetAt(u, s).Some?
    ensures "let" <= s
    ensures
      var h, a := LetAt(u, s).value, SpaceRun(u, s[3..]);
      var t := s[3..][a..];
      var n := IdentRun(t);
      && a > 0 && n > 0 && IdentStart(t[0]) && h.before == s[3..][..a] && h.name == t[..n]
      && EqualsAt(u, t[n..]) == Some(Equals(h.mid, h.after, h.rest))
  {
    hide EqualsAt, SpaceRun, IdentRun, IdentStart;
  }

  lemma {:induction false} LetSplit(s: string, a: nat, n: nat)
    requires "let" <= s && a <= |s| - 3 && n <= |s| - 3 - a
    ensures var t := s[3..][a..]; s == "let" + (s[3..][..a] + (t[..n] + t[n..]))
  {
    Split(s, 3);
    Split(s[3..], a);
    Split(s[3..][a..], n);
  }

  lemma {:induction false} LetSound(u: Unicode, s: string)
    requires LetAt(u, s).Some?
    ensures var h := LetAt(u, s).value; HeaderOk(u, h) && s == HeaderText(h) + h.rest
  {
    hide LetAt, EqualsAt, Ident, Spaces;
    var t := LetParts(u, s);
    LetNames(u, s);
    var h := LetAt(u, s).value;
    EqualsSound(u, t);
    Assoc("let", h.before, h.name + t);
    Assoc("let" + h.before, h.name, t);
    Assoc("let" + h.before + h.name, h.mid + "=" + h.after, h.rest);
    Assoc("let" + h.before + h.name, h.mid + "=", h.after);
    Assoc("let" + h.before + h.name, h.mid, "=");
  }

  // ----------------------------------------------------------------------- tokens

  lemma {:induction false} TagSource(u: Unicode, o: Opener)
    requires MarkerOk(u, o.marker)
    ensures Sources(TagPieces(u, o)) == OpenText(o.language, o.marker)
  {
    hide Sources, Outputs, Number;
    if o.marker.None? || o.marker.value == "*" {
      SourcesOne(Same(OpenText(o.language, o.marker)));
    } else {
      SourcesThree(Same(o.language + "["), Numeral(o.marker.value, Number(u, o.marker.value)), Same("]^("));
      TagSpelled(o.language, o.marker.value);
    }
  }

  lemma {:induction false} TagSpelled(language: string, t: string)
    ensures language + "[" + (t + "]^(") == language + ("[" + t + "]") + "^("
  {
  }

  lemma {:induction false} SourcesThree(a: Piece, b: Piece, c: Piece)
    ensures Sources([a, b, c]) == Source(a) + (Source(b) + Source(c))
    ensures Outputs([a, b, c]) == Output(a) + (Output(b) + Output(c))
  {
    hide Source, Output;
    assert [a, b, c][1..] == [b, c] && [b, c][1..] == [c];
    SourcesOne(c);
  }

  lemma {:induction false} SourcesOne(p: Piece)
    ensures Sources([p]) == Source(p) && Outputs([p]) == Output(p)
  {
    assert [p][1..] == [];
    assert Sources([]) == "" && Outputs([]) == "";
  }

  /** A tag is written back with its environment's own spelling. */
  lemma {:induction false} TagOutput(u: Unicode, o: Opener)
    requires MarkerOk(u, o.marker) && DecodeEnv(u, o.marker).Some?
    ensures Outputs(TagPieces(u, o)) == OpeningTag(o.language, DecodeEnv(u, o.marker).value)
  {
    hide Sources, Outputs, Number, Decimal.Text;
    if o.marker.None? || o.marker.value == "*" {
      SourcesOne(Same(OpenText(o.language, o.marker)));
    } else {
      var id := Number(u, o.marker.value);
      SourcesThree(Same(o.language + "["), Numeral(o.marker.value, id), Same("]^("));
      TagSpelled(o.language, Decimal.Text(id));
    }
  }

  lemma {:induction false} SourcesAppend(a: seq<Piece>, b: seq<Piece>)
    ensures Sources(a + b) == Sources(a) + Sources(b)
    ensures Outputs(a + b) == Outputs(a) + Outputs(b)
  {
    hide Source, Output;
    if a == [] {
      assert a + b == b;
    } else {
      assert (a + b)[0] == a[0] && (a + b)[1..] == a[1..] + b;
      SourcesAppend(a[1..], b);
      Assoc(Source(a[0]), Sources(a[1..]), Sources(b));
      Assoc(Output(a[0]), Outputs(a[1..]), Outputs(b));
    }
  }

  lemma {:induction false} SourcesCons(p: Piece, b: seq<Piece>)
    ensures Sources([p] + b) == Source(p) + Sources(b)
    ensures Outputs([p] + b) == Output(p) + Outputs(b)
  {
    assert ([p] + b)[1..] == b;
  }

  /** The source of a let header and a tag. */
  lemma {:induction false} LetBlockText(u: Unicode, s: string)
    requires LetBlock(u, s).Some?
    ensures var t := LetBlock(u, s).value;
      && t.Open? && t.header.Some? && MarkerOk(u, t.opener.marker) && Registered(t.opener.language)
      && HeaderOk(u, t.header.value) && Ident(t.opener.language)
      && s == HeaderText(t.header.value) + (OpenText(t.opener.language, t.opener.marker) + t.opener.rest)
  {
    hide LetAt, OpenAt;
    LetSound(u, s);
    OpenSound(u, LetAt(u, s).value.rest);
    hide HeaderText, OpenText, HeaderOk, Registered;
  }

  lemma {:induction false} BackslashText(u: Unicode, w: string, end: Option<string>)
    requires Backslash(u, w, end).Escape?
    ensures var t := Backslash(u, w, end);
      w == t.text + t.rest && ((end.Some? && t.text == end.value) || IsOpener(u, t.text))
  {
    hide Boundary, Registered;
    if end.Some? && EndAt(w, end.value) {
      Split(w, |end.value|);
    } else {
      hide EndAt;
      var o := Block(u, w).value;
      OpenSound(u, w);
      hide OpenAt;
      var z := OpenText(o.language, o.marker);
      hide OpenText;
      assert w[..|w| - |o.rest|] == z;
    }
  }

  lemma {:induction false} LookBackslash(u: Unicode, prev: bool, s: string, end: Option<string>, top: bool)
    requires s != "" && Look(u, prev, s, end, top).Escape?
    ensures s[0] == '\\' && Look(u, prev, s, end, top) == Backslash(u, s[1..], end)
  {
    hide Backslash, Inline, LetBlock, EndAt;
  }

  lemma {:induction false} EscapeText(u: Unicode, prev: bool, s: string, end: Option<string>, top: bool)
    requires s != "" && Look(u, prev, s, end, top).Escape?
    ensures var t := Look(u, prev, s, end, top); s == ("\\" + t.text) + t.rest
    ensures var t := Look(u, prev, s, end, top); (end.Some? && t.text == end.value) || IsOpener(u, t.text)
  {
    LookBackslash(u, prev, s, end, top);
    hide Look;
    BackslashText(u, s[1..], end);
    var t := Backslash(u, s[1..], end);
    hide Backslash;
    assert s == "\\" + s[1..];
    Assoc("\\", t.text, t.rest);
  }

  lemma {:induction false} OpenTokenText(u: Unicode, prev: bool, s: string, end: Option<string>, top: bool)
    requires s != "" && Look(u, prev, s, end, top).Open?
    ensures var t := Look(u, prev, s, end, top);
      && MarkerOk(u, t.opener.marker) && Registered(t.opener.language) && Ident(t.opener.language)
      && (t.header.Some? ==> HeaderOk(u, t.header.value))
      && s == Sources(HeadPieces(t.header)) + (Sources(TagPieces(u, t.opener)) + t.opener.rest)
  {
    hide Block, LetBlock, EndAt, Backslash, HeaderOk, HeaderText, OpenText, Registered, IdentRun, TagPieces;
    var t := Look(u, prev, s, end, top);
    TagSource(u, t.opener);
    if t.header.Some? {
      LetBlockText(u, s);
      SourcesOne(LetHead(t.header.value));
    } else {
      BlockText(u, s);
      SourcesNone();
      assert "" + (OpenText(t.opener.language, t.opener.marker) + t.opener.rest) == s;
    }
  }

  lemma {:induction false} BlockText(u: Unicode, s: string)
    requires Block(u, s).Some?
    ensures var o := Block(u, s).value;
      Registered(o.language) && Ident(o.language) && s == OpenText(o.language, o.marker) + o.rest
  {
    hide OpenAt, Registered, OpenText;
    OpenSound(u, s);
  }

  lemma {:induction false} ShortTokenText(u: Unicode, prev: bool, s: string, end: Option<string>, top: bool)
    requires s != ""
    ensures var t := Look(u, prev, s, end, top); t.Close? ==> end.value <= s && Boundary(end.value, s[|end.value|..])
    ensures var t := Look(u, prev, s, end, top); t.VarUse? ==> s == ("$" + t.name) + t.rest && Ident(t.name)
    ensures var t := Look(u, prev, s, end, top); t.VarUse? && t.rest != "" ==> !IdentChar(t.rest[0])
  {
    hide Look, EndAt, IdentRun, Boundary;
    var t := Look(u, prev, s, end, top);
    if t.Close? {
      LookCloses(u, prev, s, end, top);
      EndAtIs(s, end.value);
    } else if t.VarUse? {
      LookNames(u, prev, s, end, top);
      var w := s[1..];
      var n := IdentRun(w);
      Split(w, n);
      assert s == "$" + w;
      Assoc("$", w[..n], w[n..]);
    }
  }

  lemma {:induction false} LookCloses(u: Unicode, prev: bool, s: string, end: Option<string>, top: bool)
    requires s != "" && Look(u, prev, s, end, top).Close?
    ensures end.Some? && EndAt(s, end.value)
  {
    hide LetBlock, Inline, EndAt, Backslash;
  }

  lemma {:induction false} LookNames(u: Unicode, prev: bool, s: string, end: Option<string>, top: bool)
    requires s != "" && Look(u, prev, s, end, top).VarUse?
    ensures var w := s[1..];
      && s[0] == '$' && IdentRun(w) > 0 && IdentStart(w[0])
      && Look(u, prev, s, end, top) == VarUse(w[..IdentRun(w)], w[IdentRun(w)..])
  {
    hide LetBlock, Block, EndAt, Backslash, IdentRun, IdentStart;
  }

  lemma {:induction false} EndAtIs(s: string, tag: string)
    ensures EndAt(s, tag) <==> tag <= s && Boundary(tag, s[|tag|..])
  {
    hide Boundary;
  }

  // One step of the parser, and the piece it consumes.

  lemma {:induction false} BodyEscape(u: Unicode, prev: bool, s: string, end: Option<string>, top: bool, buf: string,
                                      text: string, rest: string)
    requires s != "" && Look(u, prev, s, end, top) == Escape(text, rest)
    ensures Body(u, prev, s, end, top, buf) == Body(u, EndsWord(u, text), rest, end, top, buf + text)
    ensures Pieces(u, prev, s, end, top) == [Dropped(text)] + Pieces(u, EndsWord(u, text), rest, end, top)
  {
    hide Look;
  }

  lemma {:induction false} BodyClose(u: Unicode, prev: bool, s: string, end: Option<string>, top: bool, buf: string)
    requires s != "" && end.Some? && EndAt(s, end.value)
    ensures Body(u, prev, s, end, top, buf) == Ok(Parsed(Flush(buf), s[|end.value|..]))
  {
    hide EndAt, Backslash, LetBlock, Inline;
  }

  lemma {:induction false} BodyVar(u: Unicode, prev: bool, s: string, end: Option<string>, top: bool, buf: string,
                                   name: string, rest: string)
    requires s != "" && Look(u, prev, s, end, top) == VarUse(name, rest)
    ensures Body(u, prev, s, end, top, buf) ==
      Prepend(Flush(buf) + [Var(name)], Body(u, EndsWord(u, name), rest, end, top, ""))
    ensures Pieces(u, prev, s, end, top) == [Same("$" + name)] + Pieces(u, EndsWord(u, name), rest, end, top)
  {
    hide Look;
  }

  lemma {:induction false} PiecesPlain(u: Unicode, prev: bool, s: string, end: Option<string>, top: bool, buf: string)
    requires s != "" && Look(u, prev, s, end, top).Plain?
    ensures Body(u, prev, s, end, top, buf) == Body(u, Word(u, s[0]), s[1..], end, top, buf + [s[0]])
    ensures Pieces(u, prev, s, end, top) == [Same(s[..1])] + Pieces(u, Word(u, s[0]), s[1..], end, top)
  {
    hide Look;
  }

  lemma {:induction false} BodyOpen(u: Unicode, prev: bool, s: string, end: Option<string>, top: bool, buf: string,
                                    header: Option<Header>, o: Opener)
    requires s != "" && Look(u, prev, s, end, top) == Open(header, o)
    ensures MarkerOk(u, o.marker)
    ensures Body(u, prev, s, end, top, buf) ==
      Nested(u, header, o, if header.Some? then |header.value.rest| else |s|, end, top, buf)
    ensures Pieces(u, prev, s, end, top) == HeadPieces(header) + TagPieces(u, o) + NestedPieces(u, o, end, top)
  {
    hide Look, Nested, NestedPieces, HeadPieces, TagPieces;
  }

  lemma {:induction false} StepClose(u: Unicode, prev: bool, s: string, end: Option<string>, top: bool, buf: string)
    requires s != "" && Look(u, prev, s, end, top).Close?
    ensures Body(u, prev, s, end, top, buf) == Ok(Parsed(Flush(buf), s[|end.value|..]))
    ensures Pieces(u, prev, s, end, top) == [Same(end.value)]
  {
    hide Look;
  }

  lemma {:induction false} StepEnd(u: Unicode, prev: bool, end: Option<string>, top: bool, buf: string)
    ensures Body(u, prev, "", end, top, buf)
         == if end.Some? then Err(Unterminated(end.value)) else Ok(Parsed(Flush(buf), ""))
    ensures Pieces(u, prev, "", end, top) == []
  {
  }

  lemma {:induction false} SpelledCons(s: string, p: Piece, more: seq<Piece>, t: string, rest: string)
    requires s == Source(p) + t && t == Sources(more) + rest
    ensures s == Sources([p] + more) + rest
  {
    hide Source, Sources;
    SourcesCons(p, more);
    Assoc(Source(p), Sources(more), rest);
  }

  lemma {:induction false} SpelledOpen(s: string, a: seq<Piece>, b: seq<Piece>, c: seq<Piece>, t: string, rest: string)
    requires s == Sources(a) + (Sources(b) + t) && t == Sources(c) + rest
    ensures s == Sources(a + b + c) + rest
  {
    hide Sources;
    SourcesAppend(a, b);
    SourcesAppend(a + b, c);
    Assoc(Sources(b), Sources(c), rest);
    Assoc(Sources(a), Sources(b) + Sources(c), rest);
    Assoc(Sources(a), Sources(b), Sources(c));
  }

  // ------------------------------------------------------------------ whole source

  /** The pieces spell the consumed text. */
  lemma {:induction false} SourceSpelled(u: Unicode, prev: bool, s: string, end: Option<string>, top: bool, buf: string)
    requires Body(u, prev, s, end, top, buf).Ok?
    ensures s == Sources(Pieces(u, prev, s, end, top)) + Body(u, prev, s, end, top, buf).value.rest
    decreases |s|, 0
  {
    hide Look, Body, Pieces, TagPieces, HeadPieces, Nested, NestedPieces, EndsWord, Word, Flush, Output, Sources;
    if s == "" {
      StepEnd(u, prev, end, top, buf);
      SourcesNone();
    } else {
      var t := Look(u, prev, s, end, top);
      match t {
        case Close => {
          StepClose(u, prev, s, end, top, buf);
          ShortTokenText(u, prev, s, end, top);
          SourcesOne(Same(end.value));
        }
        case Plain => {
          PiecesPlain(u, prev, s, end, top, buf);
          SourceSpelled(u, Word(u, s[0]), s[1..], end, top, buf + [s[0]]);
          SpelledCons(s, Same(s[..1]), Pieces(u, Word(u, s[0]), s[1..], end, top), s[1..],
            Body(u, prev, s, end, top, buf).value.rest);
        }
        case Escape(text, rest) => {
          BodyEscape(u, prev, s, end, top, buf, text, rest);
          EscapeText(u, prev, s, end, top);
          SourceSpelled(u, EndsWord(u, text), rest, end, top, buf + text);
          SpelledCons(s, Dropped(text), Pieces(u, EndsWord(u, text), rest, end, top), rest,
            Body(u, prev, s, end, top, buf).value.rest);
        }
        case VarUse(name, rest) => {
          BodyVar(u, prev, s, end, top, buf, name, rest);
          ShortTokenText(u, prev, s, end, top);
          SourceSpelled(u, EndsWord(u, name), rest, end, top, "");
          SpelledCons(s, Same("$" + name), Pieces(u, EndsWord(u, name), rest, end, top), rest,
            Body(u, prev, s, end, top, buf).value.rest);
        }
        case Open(header, o) => {
          var left := if header.Some? then |header.value.rest| else |s|;
          BodyOpen(u, prev, s, end, top, buf, header, o);
          OpenTokenText(u, prev, s, end, top);
          NestedSpelled(u, header, o, left, end, top, buf);
          SpelledOpen(s, HeadPieces(header), TagPieces(u, o), NestedPieces(u, o, end, top), o.rest,
                      Nested(u, header, o, left, end, top, buf).value.rest);
        }
      }
    }
  }

  lemma {:induction false} SourcesNone()
    ensures Sources([]) == "" && Outputs([]) == ""
  {
  }

  lemma {:induction false} NestedSpelled(u: Unicode, header: Option<Header>, o: Opener, left: nat, end: Option<string>,
                                         top: bool, buf: string)
    requires MarkerOk(u, o.marker) && Nested(u, header, o, left, end, top, buf).Ok?
    ensures o.rest == Sources(NestedPieces(u, o, end, top)) + Nested(u, header, o, left, end, top, buf).value.rest
    decreases |o.rest|, 1
  {
    var tag := ClosingTag(o.language, DecodeEnv(u, o.marker).value);
    var inner := Body(u, false, o.rest, Some(tag), false, "").value;
    SourceSpelled(u, false, o.rest, Some(tag), false, "");
    SourceSpelled(u, EndsWord(u, tag), inner.rest, end, top, "");
    hide Body, Pieces;
    var a, b := Pieces(u, false, o.rest, Some(tag), false), Pieces(u, EndsWord(u, tag), inner.rest, end, top);
    SourcesAppend(a, b);
    Assoc(Sources(a), Sources(b), Nested(u, header, o, left, end, top, buf).value.rest);
  }

  lemma {:induction false} ReconstructAppend(a: seq<Part>, b: seq<Part>)
    ensures ReconstructAll(a + b) == ReconstructAll(a) + ReconstructAll(b)
  {
    if a == [] {
      assert a + b == b;
    } else {
      assert (a + b)[1..] == a[1..] + b;
      ReconstructAppend(a[1..], b);
      Assoc(Reconstruct(a[0]), ReconstructAll(a[1..]), ReconstructAll(b));
    }
  }

  lemma {:induction false} ReconstructOne(p: Part)
    ensures ReconstructAll([p]) == Reconstruct(p)
  {
    assert [p][1..] == [];
    assert ReconstructAll([]) == "";
  }

  /** Flushed text, one part, and what follows. */
  lemma {:induction false} ReconstructFlush(buf: string, p: Part, more: seq<Part>)
    ensures ReconstructAll(Flush(buf)) == buf
    ensures ReconstructAll(Flush(buf) + [p] + more) == buf + (Reconstruct(p) + ReconstructAll(more))
  {
    if buf != "" { ReconstructOne(Text(buf)); }
    ReconstructOne(p);
    ReconstructAppend(Flush(buf), [p]);
    ReconstructAppend(Flush(buf) + [p], more);
    Assoc(buf, Reconstruct(p), ReconstructAll(more));
  }

  function EndText(end: Option<string>): string { if end.Some? then end.value else "" }

  /** What the pieces are written as is what the parsed parts reconstruct to. */
  lemma {:induction false} OutputSpelled(u: Unicode, prev: bool, s: string, end: Option<string>, top: bool, buf: string)
    requires Body(u, prev, s, end, top, buf).Ok?
    ensures buf + Outputs(Pieces(u, prev, s, end, top)) ==
      ReconstructAll(Body(u, prev, s, end, top, buf).value.parts) + EndText(end)
    decreases |s|, 0
  {
    hide Look, Body, Pieces, TagPieces, HeadPieces, Nested, NestedPieces, EndsWord, Word, Flush, Source, Outputs,
         ReconstructAll;
    if s == "" {
      StepEnd(u, prev, end, top, buf);
      SourcesNone();
      ReconstructFlush(buf, Text(""), []);
    } else {
      var t := Look(u, prev, s, end, top);
      match t {
        case Close => {
          StepClose(u, prev, s, end, top, buf);
          SourcesOne(Same(end.value));
          ReconstructFlush(buf, Text(""), []);
        }
        case Plain => {
          var more := Pieces(u, Word(u, s[0]), s[1..], end, top);
          PiecesPlain(u, prev, s, end, top, buf);
          OutputSpelled(u, Word(u, s[0]), s[1..], end, top, buf + [s[0]]);
          SourcesCons(Same(s[..1]), more);
          assert s[..1] == [s[0]];
          Assoc(buf, s[..1], Outputs(more));
        }
        case Escape(text, rest) => {
          var more := Pieces(u, EndsWord(u, text), rest, end, top);
          BodyEscape(u, prev, s, end, top, buf, text, rest);
          OutputSpelled(u, EndsWord(u, text), rest, end, top, buf + text);
          SourcesCons(Dropped(text), more);
          Assoc(buf, text, Outputs(more));
        }
        case VarUse(name, rest) => {
          var more := Pieces(u, EndsWord(u, name), rest, end, top);
          BodyVar(u, prev, s, end, top, buf, name, rest);
          OutputSpelled(u, EndsWord(u, name), rest, end, top, "");
          var qs := Body(u, EndsWord(u, name), rest, end, top, "").value.parts;
          SourcesCons(Same("$" + name), more);
          OutputPart(buf, Var(name), qs, "$" + name, Outputs(more), EndText(end));
        }
        case Open(header, o) => {
          var left := if header.Some? then |header.value.rest| else |s|;
          BodyOpen(u, prev, s, end, top, buf, header, o);
          NestedOutput(u, header, o, left, end, top, buf);
          SourcesAppend(HeadPieces(header) + TagPieces(u, o), NestedPieces(u, o, end, top));
          SourcesAppend(HeadPieces(header), TagPieces(u, o));
        }
      }
    }
  }

  lemma {:induction false} OutputPart(buf: string, p: Part, more: seq<Part>, written: string, out: string, end: string)
    requires Reconstruct(p) == written && "" + out == ReconstructAll(more) + end
    ensures buf + (written + out) == ReconstructAll(Flush(buf) + [p] + more) + end
  {
    ReconstructFlush(buf, p, more);
    hide ReconstructAll, Flush, Reconstruct;
    assert "" + out == out;
    Assoc(written, ReconstructAll(more), end);
    Assoc(buf, written + ReconstructAll(more), end);
  }

  lemma {:induction false} HeadOutput(header: Option<Header>, language: string, env: Env, body: seq<Part>)
    ensures Reconstruct(Node(header, Expr(language, env, body))) ==
      Outputs(HeadPieces(header)) + (OpeningTag(language, env) + (ReconstructAll(body) + ClosingTag(language, env)))
  {
    Assoc(OpeningTag(language, env), ReconstructAll(body), ClosingTag(language, env));
    if header.Some? { SourcesOne(LetHead(header.value)); }
  }

  lemma {:induction false} NestedOutput(u: Unicode, header: Option<Header>, o: Opener, left: nat, end: Option<string>,
                                        top: bool, buf: string)
    requires MarkerOk(u, o.marker) && Nested(u, header, o, left, end, top, buf).Ok?
    ensures buf + ((Outputs(HeadPieces(header)) + Outputs(TagPieces(u, o))) + Outputs(NestedPieces(u, o, end, top))) ==
      ReconstructAll(Nested(u, header, o, left, end, top, buf).value.parts) + EndText(end)
    decreases |o.rest|, 1
  {
    var env := DecodeEnv(u, o.marker).value;
    var tag := ClosingTag(o.language, env);
    var inner := Body(u, false, o.rest, Some(tag), false, "").value;
    OutputSpelled(u, false, o.rest, Some(tag), false, "");
    OutputSpelled(u, EndsWord(u, tag), inner.rest, end, top, "");
    TagOutput(u, o);
    hide Body, Pieces, TagPieces, HeadPieces, DecodeEnv, OpeningTag, ClosingTag, ReconstructAll, Reconstruct;
    var a, b := Pieces(u, false, o.rest, Some(tag), false), Pieces(u, EndsWord(u, tag), inner.rest, end, top);
    SourcesAppend(a, b);
    var expr := Expr(o.language, env, inner.parts);
    var more := Body(u, EndsWord(u, tag), inner.rest, end, top, "").value.parts;
    HeadOutput(header, o.language, env, inner.parts);
    assert "" + Outputs(a) == Outputs(a);
    OutputPart(buf, Node(header, expr), more, Reconstruct(Node(header, expr)), Outputs(b), EndText(end));
    hide Nested, NestedPieces, Node, Outputs;
    var h, g := Outputs(HeadPieces(header)), OpeningTag(o.language, env);
    Assoc(h, g, Outputs(a));
    Assoc(h + g, Outputs(a), Outputs(b));
  }

  ghost predicate AllOk(u: Unicode, ps: seq<Piece>) { forall p :: p in ps ==> PieceOk(u, p) }

  lemma {:induction false} TagOk(u: Unicode, header: Option<Header>, o: Opener)
    requires MarkerOk(u, o.marker) && (header.Some? ==> HeaderOk(u, header.value))
    ensures AllOk(u, HeadPieces(header) + TagPieces(u, o))
  {
    hide HeaderOk, Number, Digits;
  }

  lemma {:induction false} AllOkCons(u: Unicode, p: Piece, ps: seq<Piece>)
    requires PieceOk(u, p) && AllOk(u, ps)
    ensures AllOk(u, [p] + ps)
  {
  }

  lemma {:induction false} AllOkAppend(u: Unicode, ps: seq<Piece>, qs: seq<Piece>)
    requires AllOk(u, ps) && AllOk(u, qs)
    ensures AllOk(u, ps + qs)
  {
  }

  lemma {:induction false} PiecesOk(u: Unicode, prev: bool, s: string, end: Option<string>, top: bool)
    requires end.Some? ==> IsCloser(end.value)
    ensures AllOk(u, Pieces(u, prev, s, end, top))
    decreases |s|, 0
  {
    if s != "" {
      var t := Look(u, prev, s, end, top);
      hide Look, AllOk, IsCloser;
      match t {
        case Close => {
          AllOkCons(u, Same(end.value), []) by { assert AllOk(u, []) by { NoneOk(u); } }
          assert [Same(end.value)] + [] == [Same(end.value)];
        }
        case Plain => {
          PiecesOk(u, Word(u, s[0]), s[1..], end, top);
          AllOkCons(u, Same(s[..1]), Pieces(u, Word(u, s[0]), s[1..], end, top));
        }
        case Escape(text, rest) => {
          EscapeText(u, prev, s, end, top);
          PiecesOk(u, EndsWord(u, text), rest, end, top);
          AllOkCons(u, Dropped(text), Pieces(u, EndsWord(u, text), rest, end, top));
        }
        case VarUse(name, rest) => {
          PiecesOk(u, EndsWord(u, name), rest, end, top);
          AllOkCons(u, Same("$" + name), Pieces(u, EndsWord(u, name), rest, end, top));
        }
        case Open(header, o) => {
          OpenTokenText(u, prev, s, end, top);
          TagOk(u, header, o);
          NestedOk(u, o, end, top);
          AllOkAppend(u, HeadPieces(header) + TagPieces(u, o), NestedPieces(u, o, end, top));
        }
      }
    } else {
      NoneOk(u);
    }
  }

  lemma {:induction false} NoneOk(u: Unicode)
    ensures AllOk(u, [])
  {
  }

  lemma {:induction false} NestedOk(u: Unicode, o: Opener, end: Option<string>, top: bool)
    requires MarkerOk(u, o.marker) && Registered(o.language) && (end.Some? ==> IsCloser(end.value))
    ensures AllOk(u, NestedPieces(u, o, end, top))
    decreases |o.rest|, 1
  {
    var env := DecodeEnv(u, o.marker);
    NoneOk(u);
    if env.Some? {
      var tag := ClosingTag(o.language, env.value);
      var inner := Body(u, false, o.rest, Some(tag), false, "");
      assert IsCloser(tag);
      hide AllOk, Pieces, Body, IsCloser;
      PiecesOk(u, false, o.rest, Some(tag), false);
      if inner.Ok? {
        PiecesOk(u, EndsWord(u, tag), inner.value.rest, end, top);
        AllOkAppend(u, Pieces(u, false, o.rest, Some(tag), false),
          Pieces(u, EndsWord(u, tag), inner.value.rest, end, top));
      }
    }
  }

  /** A document that parses is a sequence of pieces; its reconstruction is the same pieces
      with escaping backslashes dropped, let headers respaced and numbers in shortest form. */
  lemma {:induction false} ReconstructionExact(u: Unicode, src: string)
    requires ParseDocument(u, src).Ok?
    ensures Sources(DocumentPieces(u, src)) == src
    ensures Outputs(DocumentPieces(u, src)) == ReconstructAll(ParseDocument(u, src).value)
    ensures AllOk(u, DocumentPieces(u, src))
  {
    SourceSpelled(u, false, src, None, true, "");
    OutputSpelled(u, false, src, None, true, "");
    PiecesOk(u, false, src, None, true);
    hide Body, Pieces, Sources, Outputs, AllOk;
    var ps := Pieces(u, false, src, None, true);
    assert Sources(ps) + "" == Sources(ps) && "" + Outputs(ps) == Outputs(ps);
    var parts := Body(u, false, src, None, true, "").value.parts;
    assert ReconstructAll(parts) + "" == ReconstructAll(parts);
  }

  lemma {:induction false} SameText(ps: seq<Piece>)
    requires forall p :: p in ps ==> Source(p) == Output(p)
    ensures Sources(ps) == Outputs(ps)
  {
    if ps != [] { SameText(ps[1..]); }
  }

  /** With nothing to drop, respace or shorten, reconstruction gives the source back. */
  lemma {:induction false} ReconstructionIdentity(u: Unicode, src: string)
    requires ParseDocument(u, src).Ok?
    requires forall p :: p in DocumentPieces(u, src) ==> Source(p) == Output(p)
    ensures ReconstructAll(ParseDocument(u, src).value) == src
  {
    hide ParseDocument, DocumentPieces;
    ReconstructionExact(u, src);
    SameText(DocumentPieces(u, src));
  }
}
