/** The parser itself: one position moving over one source. */
module Parser {
  import opened Wrappers
  import opened Syntax
  import opened SourcePieces

  /** An error and the position it is raised at. */
  datatype ParseError = Expected(pos: nat, tag: string) | ReservedEnvironment(pos: nat) | TrailingContent(pos: nat)

  function Located(e: Failure, size: nat): ParseError
  {
    match e
    case Unterminated(tag) => Expected(size, tag)
    case EnvOutOfRange(left) => ReservedEnvironment(if left <= size then size - left else 0)
  }

  /** Where a suffix of the source stands. */
  lemma {:induction false} Suffix(src: string, pos: nat, a: string, rest: string)
    requires pos <= |src| && src[pos..] == a + rest
    ensures pos + |a| == |src| - |rest| && src[|src| - |rest|..] == rest
    ensures a != "" ==> src[|src| - |rest| - 1] == a[|a| - 1]
  {
    assert src[pos..][|a|..] == rest;
    assert a != "" ==> src[pos..][|a| - 1] == a[|a| - 1];
  }

  predicate PrevWord(u: Unicode, src: string, pos: nat)
    requires pos <= |src|
  {
    pos > 0 && Word(u, src[pos - 1])
  }

  lemma {:induction false} Prepended(a: seq<Part>, r: Result<Parsed, Failure>)
    ensures Prepend(a, r) == if r.Ok? then Ok(Parsed(a + r.value.parts, r.value.rest)) else r
  {
  }

  lemma {:induction false} PrependTwice(a: seq<Part>, b: seq<Part>, r: Result<Parsed, Failure>)
    ensures Prepend(a, Prepend(b, r)) == Prepend(a + b, r)
  {
    if r.Ok? { assert a + (b + r.value.parts) == a + b + r.value.parts; }
  }

  predicate Stands(u: Unicode, src: string, pos: nat, rest: string, word: bool)
    requires pos <= |src|
  {
    pos < |src| - |rest| && src[|src| - |rest|..] == rest && PrevWord(u, src, |src| - |rest|) == word
  }

  lemma {:induction false} StandsAfter(u: Unicode, src: string, pos: nat, a: string, rest: string)
    requires pos <= |src| && src[pos..] == a + rest && a != ""
    ensures Stands(u, src, pos, rest, EndsWord(u, a))
  {
    Suffix(src, pos, a, rest);
    hide Word;
  }

  lemma {:induction false} EndsWordTail(u: Unicode, a: string, b: string)
    requires b != ""
    ensures EndsWord(u, a + b) == EndsWord(u, b)
  {
    hide Word;
  }

  /** Where the parser stands after an escape, a reference or an opener. */
  lemma {:induction false} AfterEscape(u: Unicode, prev: bool, src: string, pos: nat, end: Option<string>, top: bool)
    requires pos < |src| && (end.Some? ==> end.value != "") && Look(u, prev, src[pos..], end, top).Escape?
    ensures var t := Look(u, prev, src[pos..], end, top); Stands(u, src, pos, t.rest, EndsWord(u, t.text))
  {
    var t := Look(u, prev, src[pos..], end, top);
    EscapeText(u, prev, src[pos..], end, top);
    hide Look, Word;
    assert t.text != "" by { if IsOpener(u, t.text) { OpenerLong(u, t.text); } }
    StandsAfter(u, src, pos, "\\" + t.text, t.rest);
    EndsWordTail(u, "\\", t.text);
  }

  lemma {:induction false} AfterVar(u: Unicode, prev: bool, src: string, pos: nat, end: Option<string>, top: bool)
    requires pos < |src| && Look(u, prev, src[pos..], end, top).VarUse?
    ensures var t := Look(u, prev, src[pos..], end, top); Stands(u, src, pos, t.rest, EndsWord(u, t.name))
  {
    var t := Look(u, prev, src[pos..], end, top);
    ShortTokenText(u, prev, src[pos..], end, top);
    hide Look, Word;
    StandsAfter(u, src, pos, "$" + t.name, t.rest);
    EndsWordTail(u, "$", t.name);
  }

  lemma {:induction false} AfterOpen(u: Unicode, prev: bool, src: string, pos: nat, end: Option<string>, top: bool)
    requires pos < |src| && Look(u, prev, src[pos..], end, top).Open?
    ensures var t := Look(u, prev, src[pos..], end, top); Stands(u, src, pos, t.opener.rest, false)
  {
    var t := Look(u, prev, src[pos..], end, top);
    OpenTokenText(u, prev, src[pos..], end, top);
    TagSource(u, t.opener);
    hide Look, TagPieces, HeadPieces, Sources, Word;
    var h, z := Sources(HeadPieces(t.header)), OpenText(t.opener.language, t.opener.marker);
    assert z[|z| - 1] == '(';
    Assoc(h, z, t.opener.rest);
    StandsAfter(u, src, pos, h + z, t.opener.rest);
    EndsWordTail(u, h, z);
    NotWord(u);
  }

  lemma {:induction false} NotWord(u: Unicode)
    ensures !Word(u, '(')
  {
  }

  lemma {:induction false} OpenerLong(u: Unicode, text: string)
    requires IsOpener(u, text)
    ensures text != ""
  {
  }

  /** What the parser still has to read at a position. */
  function Ahead(u: Unicode, src: string, pos: nat, end: Option<string>, top: bool,
                 text: string): Result<Parsed, Failure>
    requires pos <= |src|
  {
    Body(u, PrevWord(u, src, pos), src[pos..], end, top, text)
  }

  lemma {:induction false} AheadIs(u: Unicode, src: string, pos: nat, end: Option<string>, top: bool, text: string)
    requires pos <= |src|
    ensures Ahead(u, src, pos, end, top, text) == Body(u, PrevWord(u, src, pos), src[pos..], end, top, text)
  {
  }

  lemma {:induction false} AheadEnd(u: Unicode, src: string, end: Option<string>, top: bool, text: string)
    ensures Ahead(u, src, |src|, end, top, text) ==
      if end.Some? then Err(Unterminated(end.value)) else Ok(Parsed(Flush(text), ""))
  {
  }

  lemma {:induction false} AheadClose(u: Unicode, src: string, pos: nat, end: Option<string>, top: bool, text: string)
    requires pos < |src| && Look(u, PrevWord(u, src, pos), src[pos..], end, top).Close?
    ensures end.Some? && pos + |end.value| <= |src| && Behind(src, pos + |end.value|, end.value)
    ensures Ahead(u, src, pos, end, top, text) == Ok(Parsed(Flush(text), src[pos + |end.value|..]))
  {
    ShortTokenText(u, PrevWord(u, src, pos), src[pos..], end, top);
    hide Look, Word;
    assert src[pos..][|end.value|..] == src[pos + |end.value|..];
    assert src[pos..][..|end.value|] == src[pos..pos + |end.value|];
  }

  lemma {:induction false} AheadPlain(u: Unicode, src: string, pos: nat, end: Option<string>, top: bool, text: string)
    requires pos < |src| && Look(u, PrevWord(u, src, pos), src[pos..], end, top).Plain?
    ensures Ahead(u, src, pos, end, top, text) == Ahead(u, src, pos + 1, end, top, text + [src[pos]])
  {
    hide Look, Word;
    assert src[pos..][1..] == src[pos + 1..];
  }

  lemma {:induction false} AheadEscape(u: Unicode, src: string, pos: nat, end: Option<string>, top: bool, text: string)
    requires pos < |src| && (end.Some? ==> end.value != "")
    requires Look(u, PrevWord(u, src, pos), src[pos..], end, top).Escape?
    ensures var t := Look(u, PrevWord(u, src, pos), src[pos..], end, top);
      pos < |src| - |t.rest| && Ahead(u, src, pos, end, top, text) ==
        Ahead(u, src, |src| - |t.rest|, end, top, text + t.text)
  {
    hide Look, PrevWord, Body, Pieces, EndsWord, Ahead;
    var t := Look(u, PrevWord(u, src, pos), src[pos..], end, top);
    AfterEscape(u, PrevWord(u, src, pos), src, pos, end, top);
    AheadIs(u, src, pos, end, top, text);
    AheadIs(u, src, |src| - |t.rest|, end, top, text + t.text);
    BodyEscape(u, PrevWord(u, src, pos), src[pos..], end, top, text, t.text, t.rest);
  }

  lemma {:induction false} AheadVar(u: Unicode, src: string, pos: nat, end: Option<string>, top: bool, text: string)
    requires pos < |src| && Look(u, PrevWord(u, src, pos), src[pos..], end, top).VarUse?
    ensures var t := Look(u, PrevWord(u, src, pos), src[pos..], end, top);
      && pos < |src| - |t.rest|
      && Ahead(u, src, pos, end, top, text) ==
          Prepend(Flush(text) + [Var(t.name)], Ahead(u, src, |src| - |t.rest|, end, top, ""))
  {
    hide Look, PrevWord, Body, Pieces, EndsWord, Ahead, Prepend, Flush;
    var t := Look(u, PrevWord(u, src, pos), src[pos..], end, top);
    AfterVar(u, PrevWord(u, src, pos), src, pos, end, top);
    AheadIs(u, src, pos, end, top, text);
    AheadIs(u, src, |src| - |t.rest|, end, top, "");
    BodyVar(u, PrevWord(u, src, pos), src[pos..], end, top, text, t.name, t.rest);
  }

  lemma {:induction false} AheadOpen(u: Unicode, src: string, pos: nat, end: Option<string>, top: bool, text: string)
    requires pos < |src| && Look(u, PrevWord(u, src, pos), src[pos..], end, top).Open?
    ensures var t := Look(u, PrevWord(u, src, pos), src[pos..], end, top);
      && Stands(u, src, pos, t.opener.rest, false)
      && Ahead(u, src, pos, end, top, text) ==
        Nested(u, t.header, t.opener, if t.header.Some? then |t.header.value.rest| else |src| - pos, end, top, text)
  {
    hide *;
    AfterOpen(u, PrevWord(u, src, pos), src, pos, end, top);
    AheadIs(u, src, pos, end, top, text);
    BodyIsNested(u, PrevWord(u, src, pos), src[pos..], end, top, text);
  }

  lemma {:induction false} BodyIsNested(u: Unicode, prev: bool, s: string, end: Option<string>, top: bool, text: string)
    requires s != "" && Look(u, prev, s, end, top).Open?
    ensures var t := Look(u, prev, s, end, top);
      Body(u, prev, s, end, top, text) ==
        Nested(u, t.header, t.opener, if t.header.Some? then |t.header.value.rest| else |s|, end, top, text)
  {
    hide Look, Nested;
  }

  lemma {:induction false} BackslashIs(u: Unicode, w: string, end: Option<string>)
    ensures end.Some? && EndAt(w, end.value) ==>
      |end.value| <= |w| && Backslash(u, w, end) == Escape(end.value, w[|end.value|..])
    ensures !(end.Some? && EndAt(w, end.value)) ==>
      var o := Block(u, w);
      o.Some? ==> |o.value.rest| <= |w| && Backslash(u, w, end) == Escape(w[..|w| - |o.value.rest|], o.value.rest)
    ensures !(end.Some? && EndAt(w, end.value)) && Block(u, w).None? ==> Backslash(u, w, end) == Plain
  {
    hide OpenAt, Boundary;
  }

  class ParserState {
    const u: Unicode
    const src: string
    var pos: nat

    constructor (u: Unicode, src: string)
      ensures this.u == u && this.src == src && pos == 0
    {
      this.u, this.src, pos := u, src, 0;
    }

    /** `_matches_end_tag`. */
    predicate MatchesEndTag(tag: string, at: nat) { at <= |src| && EndAt(src[at..], tag) }

    /** An escape at the position of a backslash. */
    method FindEscape(end: Option<string>) returns (t: Token)
      requires pos < |src|
      ensures t == Backslash(u, src[pos + 1..], end)
    {
      hide Block, EndAt, Backslash;
      var next := src[pos + 1..];
      BackslashIs(u, next, end);
      if end.Some? && MatchesEndTag(end.value, pos + 1) { return Escape(end.value, next[|end.value|..]); }
      var m := Block(u, next);
      t := if m.Some? then Escape(next[..|next| - |m.value.rest|], m.value.rest) else Plain;
    }

    /** A let header at the position, when a tag follows it. */
    method FindLet() returns (t: Option<Token>)
      requires pos < |src|
      ensures t == LetBlock(u, src[pos..])
    {
      hide *;
      var rest := src[pos..];
      LetBlockIs(u, rest);
      var h := LetAt(u, rest);
      if !("let " <= rest) || h.None? { return None; }
      AfterHeader(u, src, pos);
      var at := |src| - |h.value.rest|;
      var m := if Word(u, src[at - 1]) then None else Block(u, src[at..]);
      assert m == Block(u, h.value.rest);
      t := if m.Some? then Some(Open(h, m.value)) else None;
    }

    /** A reference or an opener at the position. */
    method FindInline() returns (t: Token)
      requires pos < |src|
      ensures t == Inline(u, PrevWord(u, src, pos), src[pos..])
    {
      hide Block, Word, IdentRun, IdentStart;
      var rest, next := src[pos..], src[pos + 1..];
      assert rest[1..] == next;
      if src[pos] == '$' {
        var n := IdentRun(next);
        if n > 0 && IdentStart(next[0]) { return VarUse(next[..n], next[n..]); }
      }
      var m := if pos > 0 && Word(u, src[pos - 1]) then None else Block(u, rest);
      t := if m.Some? then Open(None, m.value) else Plain;
    }

    /** The checks of the parsing loop, in order. */
    method Classify(end: Option<string>, top: bool) returns (t: Token)
      requires pos < |src|
      ensures t == Look(u, PrevWord(u, src, pos), src[pos..], end, top)
    {
      hide Backslash, LetBlock, Inline, EndAt;
      assert src[pos..][1..] == src[pos + 1..];
      if end.Some? && MatchesEndTag(end.value, pos) { return Close; }
      if src[pos] == '\\' {
        t := FindEscape(end);
        return;
      }
      if top {
        var l := FindLet();
        if l.Some? { return l.value; }
      }
      t := FindInline();
    }

    /** `parse_body`: text and expressions up to `end`, from the position on. */
    method ParseBody(end: Option<string>, top: bool) returns (r: Result<seq<Part>, ParseError>)
      requires pos <= |src| && (end.Some? ==> end.value != "")
      modifies this
      ensures old(pos) <= pos <= |src| && Done(Ahead(u, src, old(pos), end, top, ""), src, pos, end, r)
      ensures r.Ok? && end.Some? ==> pos >= old(pos) + |end.value|
      decreases |src| - pos, 1
    {
      hide Look, PrevWord, Located, Body, Ahead, Stands, DecodeEnv, ClosingTag, Node, EndsWord, MarkerOk, Flush, Done,
           Nested, NestedDone, Behind, Prepend;
      ghost var expected := Ahead(u, src, pos, end, top, "");
      var out: seq<Part>, text := [], "";
      PrependNothing(expected);
      while pos < |src|
        invariant old(pos) <= pos <= |src|
        invariant expected == Prepend(out, Ahead(u, src, pos, end, top, text))
        decreases |src| - pos
      {
        var t := Classify(end, top);
        match t {
          case Close => {
            AheadClose(u, src, pos, end, top, text);
            Prepended(out, Ahead(u, src, pos, end, top, text));
            pos := pos + |end.value|;
            r := Ok(out + Flush(text));
            DoneOk(expected, src, pos, end, out + Flush(text));
            return;
          }
          case Plain => {
            AheadPlain(u, src, pos, end, top, text);
            text := text + [src[pos]];
            pos := pos + 1;
          }
          case Escape(literal, rest) => {
            AheadEscape(u, src, pos, end, top, text);
            text := text + literal;
            pos := |src| - |rest|;
          }
          case VarUse(name, rest) => {
            AheadVar(u, src, pos, end, top, text);
            PrependTwice(out, Flush(text) + [Var(name)], Ahead(u, src, |src| - |rest|, end, top, ""));
            out, text := out + (Flush(text) + [Var(name)]), "";
            pos := |src| - |rest|;
          }
          case Open(header, o) => {
            AheadOpen(u, src, pos, end, top, text);
            var left := if header.Some? then |header.value.rest| else |src| - pos;
            var node := ParseNested(header, o, left);
            AheadNested(u, header, o, left, src, pos, node, end, top, text);
            if node.Err? {
              Prepended(out, Nested(u, header, o, left, end, top, text));
              DoneErr(expected, src, pos, end);
              return Err(node.error);
            }
            PrependTwice(out, Flush(text) + [node.value], Ahead(u, src, pos, end, top, ""));
            out, text := out + (Flush(text) + [node.value]), "";
          }
        }
      }
      AheadEnd(u, src, end, top, text);
      Prepended(out, Ahead(u, src, pos, end, top, text));
      if end.Some? {
        DoneErr(expected, src, pos, end);
        return Err(Located(Unterminated(end.value), |src|));
      }
      assert src[pos..] == "";
      DoneOk(expected, src, pos, end, out + Flush(text));
      r := Ok(out + Flush(text));
    }

    /** The expression that `o` opens, `left` characters before the end. */
    method ParseNested(header: Option<Header>, o: Opener, left: nat) returns (r: Result<Part, ParseError>)
      requires pos < |src| && Stands(u, src, pos, o.rest, false) && MarkerOk(u, o.marker)
      modifies this
      ensures old(pos) < pos <= |src|
      ensures NestedDone(u, header, o, left, src, pos, r)
      decreases |src| - pos, 0
    {
      hide Located, Word, Body;
      pos := |src| - |o.rest|;
      var env := DecodeEnv(u, o.marker);
      if env.None? { return Err(Located(EnvOutOfRange(left), |src|)); }
      var tag := ClosingTag(o.language, env.value);
      var body := ParseBody(Some(tag), false);
      if body.Err? { return Err(body.error); }
      assert src[pos - 1] == src[pos - |tag|..pos][|tag| - 1];
      r := Ok(Node(header, Expr(o.language, env.value, body.value)));
    }

    /** `parse`: the whole source, or the first error; never a complaint about trailing content. */
    method Parse() returns (r: Result<seq<Part>, ParseError>)
      requires pos == 0
      modifies this
      ensures r == match ParseDocument(u, src) case Ok(parts) => Ok(parts) case Err(e) => Err(Located(e, |src|))
      ensures r.Ok? ==> pos == |src|
      ensures r.Err? ==> !r.error.TrailingContent?
    {
      assert src[0..] == src;
      r := ParseBody(None, true);
      if r.Ok? && pos < |src| { r := Err(TrailingContent(pos)); }
    }
  }

  /** The result is the one expected, and the position is where it leaves off. */
  predicate Done(expected: Result<Parsed, Failure>, src: string, pos: nat, end: Option<string>, r: Result<seq<Part>,
                 ParseError>)
    requires pos <= |src|
  {
    match expected
    case Err(e) => r == Err(Located(e, |src|))
    case Ok(p) => r == Ok(p.parts) && src[pos..] == p.rest && (end.Some? ==> Behind(src, pos, end.value))
  }

  /** The result is the expression that `o` opens, and the position is right after it. */
  predicate NestedDone(u: Unicode, header: Option<Header>, o: Opener, left: nat, src: string, pos: nat, r: Result<Part,
                       ParseError>)
    requires pos <= |src| && MarkerOk(u, o.marker)
  {
    var env := DecodeEnv(u, o.marker);
    if env.None? then r == Err(Located(EnvOutOfRange(left), |src|))
    else
      var tag := ClosingTag(o.language, env.value);
      match Body(u, false, o.rest, Some(tag), false, "")
      case Err(e) => r == Err(Located(e, |src|))
      case Ok(p) =>
        && r == Ok(Node(header, Expr(o.language, env.value, p.parts)))
        && src[pos..] == p.rest && PrevWord(u, src, pos) == EndsWord(u, tag)
  }

  lemma {:induction false} AheadNested(u: Unicode, header: Option<Header>, o: Opener, left: nat, src: string, pos: nat,
                                       r: Result<Part, ParseError>, end: Option<string>, top: bool, text: string)
    requires pos <= |src| && MarkerOk(u, o.marker) && NestedDone(u, header, o, left, src, pos, r)
    ensures var all := Nested(u, header, o, left, end, top, text);
      if r.Ok? then all == Prepend(Flush(text) + [r.value], Ahead(u, src, pos, end, top, ""))
      else all.Err? && r.error == Located(all.error, |src|)
  {
    hide Body, Located, DecodeEnv, ClosingTag, Node, PrevWord, EndsWord;
  }

  /** `tag` stands right before the position. */
  predicate Behind(src: string, pos: nat, tag: string)
    requires pos <= |src|
  {
    |tag| <= pos && src[pos - |tag|..pos] == tag
  }

  lemma {:induction false} DoneOk(expected: Result<Parsed, Failure>, src: string, pos: nat, end: Option<string>,
                                  parts: seq<Part>)
    requires pos <= |src| && expected == Ok(Parsed(parts, src[pos..])) && (end.Some? ==> Behind(src, pos, end.value))
    ensures Done(expected, src, pos, end, Ok(parts))
  {
  }

  lemma {:induction false} DoneErr(expected: Result<Parsed, Failure>, src: string, pos: nat, end: Option<string>)
    requires pos <= |src| && expected.Err?
    ensures Done(expected, src, pos, end, Err(Located(expected.error, |src|)))
  {
  }

  lemma {:induction false} PrependNothing(r: Result<Parsed, Failure>)
    ensures Prepend([], r) == r
  {
    if r.Ok? { assert [] + r.value.parts == r.value.parts; }
  }

  lemma {:induction false} LetBlockIs(u: Unicode, s: string)
    ensures !("let " <= s) || LetAt(u, s).None? ==> LetBlock(u, s).None?
    ensures "let " <= s && LetAt(u, s).Some? ==>
      var o := Block(u, LetAt(u, s).value.rest);
      LetBlock(u, s) == if o.Some? then Some(Open(LetAt(u, s), o.value)) else None
  {
    hide Block, LetAt;
  }

  /** The character before what a let header binds is never part of a word. */
  lemma {:induction false} AfterHeader(u: Unicode, src: string, pos: nat)
    requires pos <= |src| && LetAt(u, src[pos..]).Some?
    ensures var rest := LetAt(u, src[pos..]).value.rest;
      |rest| < |src| && src[|src| - |rest|..] == rest && !Word(u, src[|src| - |rest| - 1])
  {
    hide LetAt, HeaderText, HeaderOk, Word;
    var h := LetAt(u, src[pos..]).value;
    LetSound(u, src[pos..]);
    HeaderEnd(u, h);
    Suffix(src, pos, HeaderText(h), h.rest);
  }

  lemma {:induction false} HeaderEnd(u: Unicode, h: Header)
    requires HeaderOk(u, h)
    ensures HeaderText(h) != "" && !Word(u, HeaderText(h)[|HeaderText(h)| - 1])
  {
    var z := HeaderText(h);
    if h.after != "" { assert z[|z| - 1] == h.after[|h.after| - 1]; } else { assert z[|z| - 1] == '='; }
  }
}
