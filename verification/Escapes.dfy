/** What a consumed escape does to the reconstruction: the backslash is not written back, so
    an escaped closing tag closes there. */
module Escapes {
  import opened Wrappers
  import opened Syntax
  import opened SourcePieces
  import opened Reparse

  // -------------------------------------------------------- which escape comes first

  /** A consumed escape that guards the closing tag the parser is waiting for. */
  predicate GuardsCloser(p: Piece) { p.Dropped? && p.text != "" && p.text[0] == ')' }

  /** What follows an escaped closing tag does not, once written, keep it from closing: only an
      escaped opener does, by running into the language's name. */
  predicate ClosesBefore(p: Piece, more: seq<Piece>)
    requires p.Dropped?
  {
    more == [] || !more[0].Dropped? || GuardsCloser(more[0]) || (p.text != "" && p.text[|p.text| - 1] == ']')
  }

  /** The first consumed escape guards a closing tag, and the tag closes once written. */
  predicate FirstCloses(ps: seq<Piece>)
  {
    ps != [] && if ps[0].Dropped? then GuardsCloser(ps[0]) && ClosesBefore(ps[0], ps[1..]) else FirstCloses(ps[1..])
  }

  lemma {:induction false} FirstIn(a: seq<Piece>, b: seq<Piece>)
    requires FirstCloses(a + b)
    ensures if Unescaped(a) then FirstCloses(b) else FirstCloses(a)
  {
    if a == [] {
      assert a + b == b;
    } else {
      assert (a + b)[0] == a[0] && (a + b)[1..] == a[1..] + b;
      if a[0].Dropped? {
        assert a[0] in a;
        assert a[1..] != [] ==> (a[1..] + b)[0] == a[1..][0];
      } else {
        FirstIn(a[1..], b);
        assert Unescaped(a[1..]) ==> Unescaped(a) by { assert a == [a[0]] + a[1..]; }
      }
    }
  }

  lemma {:induction false} NotFirst(p: Piece, ps: seq<Piece>)
    requires FirstCloses([p] + ps) && !p.Dropped?
    ensures FirstCloses(ps)
  {
    assert ([p] + ps)[1..] == ps;
  }

  lemma {:induction false} TagUnescaped(u: Unicode, header: Option<Header>, o: Opener)
    requires MarkerOk(u, o.marker)
    ensures Unescaped(HeadPieces(header) + TagPieces(u, o))
  {
  }

  // --------------------------------------------------------------- the text at the escape

  /** `s` and `s'` agree for `n` characters; then `s` has a backslash, and `s'` the awaited
      closing tag. */
  ghost predicate AtEscape(s: string, s': string, end: Option<string>, n: nat)
  {
    && n < |s| && n < |s'| && s[..n] == s'[..n] && s[n] == '\\'
    && end.Some? && EndAt(s'[n..], end.value)
  }

  lemma {:induction false} EscapeChar(s: string, s': string, end: Option<string>, top: bool, n: nat)
    requires AtEscape(s, s', end, n) && EndOk(end, top)
    ensures s'[n] == ')'
    ensures forall k :: 0 <= k < n ==> s[k] == s'[k]
  {
    EndFirst(end, top);
    EndHead(s'[n..], end.value);
    hide EndAt, EndOk;
    forall k | 0 <= k < n ensures s[k] == s'[k] { assert s[..n][k] == s'[..n][k]; }
  }

  /** A text that starts in the common part and avoids what stands at the escape ends there. */
  lemma {:induction false} InCommon(s: string, s': string, end: Option<string>, top: bool, n: nat, z: string)
    requires AtEscape(s, s', end, n) && EndOk(end, top) && z <= s'
    requires n < |z| ==> z[n] != ')'
    ensures |z| <= n && z <= s
  {
    EscapeChar(s, s', end, top, n);
    hide EndAt, EndOk;
    assert forall k :: 0 <= k < |z| ==> z[k] == s'[k];
  }

  lemma {:induction false} NoCloserAcross(s: string, s': string, end: Option<string>, n: nat)
    requires AtEscape(s, s', end, n) && 0 < n && EndOk(end, false) && EndAt(s', end.value)
    ensures EndAt(s, end.value)
  {
    var language, env :| Ident(language) && end.value == ClosingTag(language, env);
    var e := end.value;
    if n < |e| { CloserChars(language, env, n); }
    InCommon(s, s', end, false, n, e);
    EscapeChar(s, s', end, false, n);
    hide AtEscape, EndOk, ClosingTag;
    assert |e| < n ==> s[|e|..][0] == s'[|e|..][0];
    assert |e| == n ==> s[|e|..][0] == '\\' by { assert n < |s| && s[n] == '\\' by { EscapeThere(s, s', end, n); } }
  }

  lemma {:induction false} EscapeThere(s: string, s': string, end: Option<string>, n: nat)
    requires AtEscape(s, s', end, n)
    ensures end.Some? && n < |s| && n < |s'| && s[n] == '\\'
  {
  }

  lemma {:induction false} NoOpenerAcross(u: Unicode, s: string, s': string, end: Option<string>, n: nat)
    requires AtEscape(s, s', end, n) && EndOk(end, false) && Block(u, s').Some?
    ensures Block(u, s).Some?
  {
    hide *;
    var o := BlockTag(u, s');
    var z := OpenText(o.language, o.marker);
    assert z == s'[..|z|] by { Parts(z, o.rest); }
    if n < |z| {
      OpenChars(u, o.language, o.marker, n);
      NotTagChar(z[n]);
    }
    InCommon(s, s', end, false, n, z);
    BlockAgain(u, o.language, o.marker, s[|z|..]);
    assert s == z + s[|z|..];
  }

  lemma {:induction false} NotTagChar(c: char)
    ensures TagChar(c) ==> c != ')'
  {
  }

  lemma {:induction false} EscapeDrop(s: string, s': string, end: Option<string>, n: nat)
    requires AtEscape(s, s', end, n) && 0 < n
    ensures s != "" && s' != "" && s[0] == s'[0] && AtEscape(s[1..], s'[1..], end, n - 1)
  {
    hide EndAt;
    assert s[0] == s[..n][0] && s'[0] == s'[..n][0];
    assert s'[1..][n - 1..] == s'[n..] && s[1..][..n - 1] == s[..n][1..] && s'[1..][..n - 1] == s'[..n][1..];
  }

  /** A plain character before the escape stays plain, but for a backslash right before it. */
  lemma {:induction false} PlainBeforeEscape(u: Unicode, prev: bool, s: string, s': string, end: Option<string>, n: nat)
    requires AtEscape(s, s', end, n) && 0 < n && EndOk(end, false) && s != "" && IsPlain(u, prev, s, end, false)
    ensures s' != "" && s'[0] == s[0]
    ensures (s[0] == '\\' && n == 1) || IsPlain(u, prev, s', end, false)
  {
    hide AtEscape, Block, LetBlock, EndAt, EndOk;
    EscapeDrop(s, s', end, n);
    EscapeChar(s, s', end, false, n);
    EscapeThere(s, s', end, n);
    if EndAt(s', end.value) { NoCloserAcross(s, s', end, n); }
    if s[0] == '\\' {
      if Block(u, s'[1..]).Some? { NoOpenerAcross(u, s[1..], s'[1..], end, n - 1); }
      if EndAt(s'[1..], end.value) && n > 1 { NoCloserAcross(s[1..], s'[1..], end, n - 1); }
    } else if Block(u, s').Some? {
      NoOpenerAcross(u, s, s', end, n);
    }
  }

  lemma {:induction false} EscapeCons(c: char, s: string, s': string, end: Option<string>, n: nat)
    requires AtEscape(s, s', end, n)
    ensures AtEscape([c] + s, [c] + s', end, n + 1)
  {
    hide EndAt;
    assert ([c] + s')[n + 1..] == s'[n..];
    assert ([c] + s)[..n + 1] == [c] + s[..n] && ([c] + s')[..n + 1] == [c] + s'[..n];
  }

  // ----------------------------------------------------------------- what must differ

  /** Text not yet flushed stays at the start of what is parsed. */
  lemma {:induction false} BufferKept(u: Unicode, prev: bool, s: string, end: Option<string>, top: bool, buf: string)
    requires Body(u, prev, s, end, top, buf).Ok? && buf != ""
    ensures var ps := Body(u, prev, s, end, top, buf).value.parts; ps != [] && ps[0].Text? && buf <= ps[0].text
    decreases |s|
  {
    hide Look, Word, EndsWord;
    if s != "" {
      var t := Look(u, prev, s, end, top);
      if t.Plain? {
        BufferKept(u, Word(u, s[0]), s[1..], end, top, buf + [s[0]]);
        LongerPrefix(buf, [s[0]], Body(u, prev, s, end, top, buf).value.parts[0].text);
      } else if t.Escape? {
        BufferKept(u, EndsWord(u, t.text), t.rest, end, top, buf + t.text);
        LongerPrefix(buf, t.text, Body(u, prev, s, end, top, buf).value.parts[0].text);
      }
    }
  }

  lemma {:induction false} LongerPrefix(a: string, b: string, c: string)
    requires a + b <= c
    ensures a <= c
  {
    assert a == (a + b)[..|a|] && (a + b)[..|a|] == c[..|a|];
  }

  /** Parsing the written text gives other parts, or fails. */
  ghost predicate Changes(u: Unicode, prev: bool, s: string, s': string, end: Option<string>, top: bool, buf: string)
    requires Body(u, prev, s, end, top, buf).Ok?
  {
    var r := Body(u, prev, s', end, top, buf);
    r.Err? || r.value.parts != Body(u, prev, s, end, top, buf).value.parts
  }

  /** The two texts agree up to a token both start, or up to the escape. */
  ghost predicate InStep(u: Unicode, prev: bool, s: string, s': string, end: Option<string>, top: bool, n: nat)
  {
    Mirror(u, prev, s, s', end, top, n) || (!top && AtEscape(s, s', end, n))
  }

  lemma {:induction false} StepFollows(u: Unicode, prev: bool, s: string, s': string, end: Option<string>, top: bool,
                                       n: nat)
    requires InStep(u, prev, s, s', end, top, n) && EndOk(end, top)
    ensures Follows(s, s')
    ensures s == "" || !IdentChar(s[0]) ==> s' == "" || !IdentChar(s'[0])
  {
    hide Mirror, EndOk;
    if Mirror(u, prev, s, s', end, top, n) {
      MirrorHead(u, prev, s, s', end, top, n);
    } else {
      EscapeChar(s, s', end, top, n);
    }
  }

  // ----------------------------------------------------------------- one token

  lemma {:induction false} OpenerLetter(u: Unicode, text: string)
    requires IsOpener(u, text)
    ensures text != "" && Letter(text[0])
  {
    var language, marker :|
      Registered(language) && Ident(language) && MarkerOk(u, marker) && text == OpenText(language, marker);
    RegisteredLetter(language);
    FirstOfTag(language, marker, "");
    assert OpenText(language, marker) + "" == OpenText(language, marker);
    hide Registered, OpenText;
  }

  /** How the text written of a body starts. */
  lemma {:induction false} WrittenStart(u: Unicode, prev: bool, s: string, end: Option<string>, buf: string,
                                        rest': string)
    requires EndOk(end, false) && end.Some? && Body(u, prev, s, end, false, buf).Ok?
    ensures
      var ps, w := Pieces(u, prev, s, end, false), Written(u, prev, s, end, false) + rest';
      && s != "" && w != ""
      && (w[0] == s[0] || w[0] == ')' || (ps != [] && ps[0].Dropped? && !GuardsCloser(ps[0]) && Letter(w[0])))
  {
    EndFirst(end, false);
    assert s != "";
    hide Look, Boundary, EndOk, IsOpener, EndsWord, Word, HeadPieces, TagPieces, NestedPieces, Nested, Flush;
    match Look(u, prev, s, end, false) {
      case Close => SourcesOne(Same(end.value));
      case Plain => SourcesCons(Same(s[..1]), Pieces(u, Word(u, s[0]), s[1..], end, false));
      case Escape(text, rest) =>
        EscapeText(u, prev, s, end, false);
        SourcesCons(Dropped(text), Pieces(u, EndsWord(u, text), rest, end, false));
        assert Pieces(u, prev, s, end, false)[0] == Dropped(text);
        if text != end.value { OpenerLetter(u, text); }
      case VarUse(name, rest) =>
        ShortTokenText(u, prev, s, end, false);
        SourcesCons(Same("$" + name), Pieces(u, EndsWord(u, name), rest, end, false));
      case Open(header, o) => OpenWritten(u, prev, s, end, buf, rest', header, o);
    }
  }

  /** A closing tag before the text written of a body still closes. */
  lemma {:induction false} WrittenFollows(u: Unicode, prev: bool, s: string, end: Option<string>, buf: string,
                                          rest': string, e: string)
    requires EndOk(end, false) && end == Some(e) && Body(u, prev, s, end, false, buf).Ok? && Boundary(e, s)
    requires ClosesBefore(Dropped(e), Pieces(u, prev, s, end, false))
    ensures Boundary(e, Written(u, prev, s, end, false) + rest')
  {
    hide Body, Pieces, EndOk, Written;
    WrittenStart(u, prev, s, end, buf, rest');
  }

  lemma {:induction false} OpenWritten(u: Unicode, prev: bool, s: string, end: Option<string>, buf: string,
                                       rest': string, header: Option<Header>, o: Opener)
    requires s != "" && EndOk(end, false) && Look(u, prev, s, end, false) == Open(header, o)
    requires Body(u, prev, s, end, false, buf).Ok?
    ensures SameHead(s, Written(u, prev, s, end, false) + rest')
  {
    var header' := WrittenOpen(u, prev, s, end, false, buf, header, o, rest');
    hide Look, Body, Pieces, EndOk, Mirror;
    var s' := Written(u, prev, s, end, false) + rest';
    MirrorHead(u, prev, s, s', end, false, 0);
  }

  /** What is written of an expression opens the same expression. */
  lemma {:induction false} WrittenOpen(u: Unicode, prev: bool, s: string, end: Option<string>, top: bool, buf: string,
                                       header: Option<Header>, o: Opener,
                                       rest': string) returns (header': Option<Header>)
    requires s != "" && EndOk(end, top) && Look(u, prev, s, end, top) == Open(header, o)
    requires Body(u, prev, s, end, top, buf).Ok?
    ensures MarkerOk(u, o.marker) && DecodeEnv(u, o.marker).Some?
    ensures MarkerOk(u, MarkerOf(DecodeEnv(u, o.marker).value)) && Node(header, Text("")) == Node(header', Text(""))
    ensures
      var s' := Written(u, prev, s, end, top) + rest';
      var t := Outputs(NestedPieces(u, o, end, top)) + rest';
      && s' != "" && Look(u, prev, s', end, top) ==
          Open(header', Opener(o.language, MarkerOf(DecodeEnv(u, o.marker).value), t))
      && Mirror(u, prev, s, s', end, top, 0)
  {
    BodyOpen(u, prev, s, end, top, buf, header, o);
    OpenTokenText(u, prev, s, end, top);
    var env := DecodeEnv(u, o.marker);
    assert env.Some?;
    hide Body, Pieces, Look, Mirror, Nested, NestedPieces, HeadPieces, TagPieces, DecodeEnv, MarkerOf, Registered,
         HeaderOk, EndOk;
    var a, b, c := HeadPieces(header), TagPieces(u, o), NestedPieces(u, o, end, top);
    SourcesAppend(a + b, c);
    SourcesAppend(a, b);
    TagOutput(u, o);
    var t := Outputs(c) + rest';
    header' := OpenRespelled(u, prev, s, end, top, header, o, env.value, t);
    hide Outputs, OpeningTag;
    assert Written(u, prev, s, end, top) + rest' == Outputs(a) + (Outputs(b) + t) by {
      Assoc(Outputs(b), Outputs(c), rest');
      Assoc(Outputs(a), Outputs(b) + Outputs(c), rest');
      Assoc(Outputs(a), Outputs(b), Outputs(c));
    }
  }

  /** At the escape itself: the written text closes, with less text than the source had. */
  lemma {:induction false} EscapeChanges(u: Unicode, prev: bool, s: string, end: Option<string>, top: bool, buf: string,
                                         rest': string, text: string, rest: string)
    requires s != "" && EndOk(end, top) && Look(u, prev, s, end, top) == Escape(text, rest)
    requires Body(u, prev, s, end, top, buf).Ok? && FirstCloses(Pieces(u, prev, s, end, top))
    ensures var s' := Written(u, prev, s, end, top) + rest';
      Changes(u, prev, s, s', end, top, buf) && InStep(u, prev, s, s', end, top, 0)
  {
    BodyEscape(u, prev, s, end, top, buf, text, rest);
    EscapeText(u, prev, s, end, top);
    var more := Pieces(u, EndsWord(u, text), rest, end, top);
    assert ([Dropped(text)] + more)[1..] == more;
    assert GuardsCloser(Dropped(text)) && ClosesBefore(Dropped(text), more);
    if !(end.Some? && text == end.value) { OpenerLetter(u, text); }
    assert end == Some(text) && !top;
    GuardBoundary(u, prev, s, end, top, text, rest);
    hide Look, Pieces, Body, IsOpener, EndsWord, EndOk, Boundary;
    WrittenFollows(u, EndsWord(u, text), rest, end, buf + text, rest', text);
    SourcesCons(Dropped(text), more);
    var w := Outputs(more) + rest';
    Assoc(text, Outputs(more), rest');
    var s' := text + w;
    assert Written(u, prev, s, end, top) + rest' == s';
    Parts(text, w);
    assert EndAt(s', text);
    assert s'[0..] == s' && s[0] == '\\';
    BodyClose(u, prev, s', end, top, buf);
    BufferKept(u, EndsWord(u, text), rest, end, top, buf + text);
  }

  lemma {:induction false} GuardBoundary(u: Unicode, prev: bool, s: string, end: Option<string>, top: bool,
                                         text: string, rest: string)
    requires s != "" && Look(u, prev, s, end, top) == Escape(text, rest) && end == Some(text) && text != ""
    requires text[0] == ')'
    ensures Boundary(text, rest)
  {
    LookBackslash(u, prev, s, end, top);
    hide Look, Boundary;
    var w := s[1..];
    if !EndAt(w, text) {
      hide EndAt;
      BackslashOpens(u, w, end);
    }
  }

  lemma {:induction false} BackslashOpens(u: Unicode, w: string, end: Option<string>)
    requires Backslash(u, w, end).Escape? && (end.Some? ==> !EndAt(w, end.value))
    ensures var t := Backslash(u, w, end).text; t != "" && Letter(t[0])
  {
    hide EndAt;
    BlockHead(u, w);
    OpenSound(u, w);
    hide OpenAt, Registered;
  }

  /** A plain backslash right before the escape: the written text has one backslash less. */
  lemma {:induction false} BackslashChanges(u: Unicode, prev: bool, s: string, s': string, end: Option<string>,
                                            buf: string)
    requires EndOk(end, false) && s != "" && s' != "" && s[0] == '\\' && s'[0] == '\\'
    requires AtEscape(s, s', end, 1) && Look(u, prev, s, end, false).Plain? && Body(u, prev, s, end, false, buf).Ok?
    ensures Changes(u, prev, s, s', end, false, buf)
  {
    EndFirst(end, false);
    var e := end.value;
    assert EndAt(s'[1..], e) && !EndAt(s', e);
    PiecesPlain(u, prev, s, end, false, buf);
    BufferKept(u, Word(u, s[0]), s[1..], end, false, buf + [s[0]]);
    assert Look(u, prev, s', end, false) == Escape(e, s'[1..][|e|..]) by { hide EndAt, Block, LetBlock, Inline; }
    hide Look, EndAt, EndOk, AtEscape, Body, Word;
    BodyEscape(u, prev, s', end, false, buf, e, s'[1..][|e|..]);
    if Body(u, prev, s', end, false, buf).Ok? {
      BufferKept(u, EndsWord(u, e), s'[1..][|e|..], end, false, buf + e);
      var a := Body(u, prev, s, end, false, buf).value.parts[0].text;
      var b := Body(u, prev, s', end, false, buf).value.parts[0].text;
      assert (buf + [s[0]])[|buf|] == '\\' && (buf + e)[|buf|] == ')';
      assert a[|buf|] == '\\' && b[|buf|] == ')';
    }
  }

  lemma {:induction false} PlainChanges(u: Unicode, prev: bool, s: string, end: Option<string>, top: bool, buf: string,
                                        rest': string, n: nat)
    requires s != "" && EndOk(end, top) && Look(u, prev, s, end, top).Plain? && Body(u, prev, s, end, top, buf).Ok?
    requires Body(u, Word(u, s[0]), s[1..], end, top, buf + [s[0]]).Ok?
    requires var t' := Written(u, Word(u, s[0]), s[1..], end, top) + rest';
      Changes(u, Word(u, s[0]), s[1..], t', end, top, buf + [s[0]]) && InStep(u, Word(u, s[0]), s[1..], t', end, top, n)
    ensures var s' := Written(u, prev, s, end, top) + rest';
      Changes(u, prev, s, s', end, top, buf) && InStep(u, prev, s, s', end, top, n + 1)
  {
    var c, t := s[0], s[1..];
    PiecesPlain(u, prev, s, end, top, buf);
    hide Body, Pieces, Look, Mirror, EndOk, Word, AtEscape, Changes;
    var t' := Written(u, Word(u, c), t, end, top) + rest';
    SourcesCons(Same(s[..1]), Pieces(u, Word(u, c), t, end, top));
    hide Outputs;
    assert s[..1] == [c] && s == [c] + t;
    Assoc([c], Written(u, Word(u, c), t, end, top), rest');
    if Mirror(u, Word(u, c), t, t', end, top, n) {
      PlainStays(u, prev, c, t, t', end, top, n);
      PlainSame(u, prev, c, t, t', end, top, buf);
    } else {
      PlainAtEscape(u, prev, c, t, t', end, buf, n);
    }
  }

  lemma {:induction false} PlainSame(u: Unicode, prev: bool, c: char, t: string, t': string, end: Option<string>,
                                     top: bool, buf: string)
    requires Look(u, prev, [c] + t, end, top).Plain? && Look(u, prev, [c] + t', end, top).Plain?
    requires Body(u, Word(u, c), t, end, top, buf + [c]).Ok? && Changes(u, Word(u, c), t, t', end, top, buf + [c])
    ensures Body(u, prev, [c] + t, end, top, buf).Ok? && Changes(u, prev, [c] + t, [c] + t', end, top, buf)
  {
    hide Look, Body;
    Parts([c], t);
    Parts([c], t');
    PiecesPlain(u, prev, [c] + t, end, top, buf);
    PiecesPlain(u, prev, [c] + t', end, top, buf);
  }

  lemma {:induction false} PlainAtEscape(u: Unicode, prev: bool, c: char, t: string, t': string, end: Option<string>,
                                         buf: string, n: nat)
    requires AtEscape(t, t', end, n) && EndOk(end, false) && Look(u, prev, [c] + t, end, false).Plain?
    requires Body(u, prev, [c] + t, end, false, buf).Ok?
    requires Body(u, Word(u, c), t, end, false, buf + [c]).Ok? && Changes(u, Word(u, c), t, t', end, false, buf + [c])
    ensures Changes(u, prev, [c] + t, [c] + t', end, false, buf) && AtEscape([c] + t, [c] + t', end, n + 1)
  {
    hide Look, Body, EndOk, AtEscape, Changes, IsPlain, Word;
    var s, s' := [c] + t, [c] + t';
    EscapeCons(c, t, t', end, n);
    PlainExactly(u, prev, s, end, false);
    PlainBeforeEscape(u, prev, s, s', end, n + 1);
    PlainExactly(u, prev, s', end, false);
    if Look(u, prev, s', end, false).Plain? {
      PlainSame(u, prev, c, t, t', end, false, buf);
    } else {
      BackslashChanges(u, prev, s, s', end, buf);
    }
  }

  lemma {:induction false} VarChanges(u: Unicode, prev: bool, s: string, end: Option<string>, top: bool, buf: string,
                                      rest': string, n: nat, name: string, rest: string)
    requires s != "" && EndOk(end, top) && Look(u, prev, s, end, top) == VarUse(name, rest)
    requires Body(u, prev, s, end, top, buf).Ok?
    requires Body(u, EndsWord(u, name), rest, end, top, "").Ok?
    requires var t' := Written(u, EndsWord(u, name), rest, end, top) + rest';
      Changes(u, EndsWord(u, name), rest, t', end, top, "") && InStep(u, EndsWord(u, name), rest, t', end, top, n)
    ensures var s' := Written(u, prev, s, end, top) + rest';
      Changes(u, prev, s, s', end, top, buf) && InStep(u, prev, s, s', end, top, 0)
  {
    BodyVar(u, prev, s, end, top, buf, name, rest);
    ShortTokenText(u, prev, s, end, top);
    if end.Some? { EndFirst(end, top); }
    hide Body, Pieces, Look, EndOk, EndsWord;
    var w := Written(u, EndsWord(u, name), rest, end, top);
    var t' := w + rest';
    StepFollows(u, EndsWord(u, name), rest, t', end, top, n);
    var s' := "$" + (name + t');
    SourcesCons(Same("$" + name), Pieces(u, EndsWord(u, name), rest, end, top));
    Assoc("$" + name, w, rest');
    Assoc("$", name, t');
    assert Written(u, prev, s, end, top) + rest' == s';
    LookVar(u, prev, name, t', end, top);
    BodyVar(u, prev, s', end, top, buf, name, t');
    MirrorStart(u, prev, s, s', end, top);
    hide InStep, Mirror;
    Lengthened(Flush(buf) + [Var(name)], Body(u, EndsWord(u, name), rest, end, top, ""),
      Body(u, EndsWord(u, name), t', end, top, ""));
  }

  /** Parts put before two parses keep them apart. */
  lemma {:induction false} Lengthened(ps: seq<Part>, a: Result<Parsed, Failure>, b: Result<Parsed, Failure>)
    requires a.Ok? && (b.Err? || b.value.parts != a.value.parts)
    ensures Prepend(ps, b).Err? || Prepend(ps, b).value.parts != Prepend(ps, a).value.parts
  {
    assert (ps + a.value.parts)[|ps|..] == a.value.parts;
    if b.Ok? { assert (ps + b.value.parts)[|ps|..] == b.value.parts; }
  }

  lemma {:induction false} OtherNode(ps: seq<Part>, p: Part, q: Part, a: Result<Parsed, Failure>, b: Result<Parsed,
                                     Failure>)
    requires a.Ok? && p != q
    ensures Prepend(ps + [q], b).Err? || Prepend(ps + [q], b).value.parts != Prepend(ps + [p], a).value.parts
  {
    if b.Ok? {
      assert (ps + [q] + b.value.parts)[|ps|] == q && (ps + [p] + a.value.parts)[|ps|] == p;
    }
  }

  // ------------------------------------------------------------------ whole source

  lemma {:induction false} NestedChanges(u: Unicode, header: Option<Header>, o: Opener, left: nat, end: Option<string>,
                                         top: bool, buf: string, rest': string, header': Option<Header>, left': nat)
    requires MarkerOk(u, o.marker) && Ident(o.language) && Nested(u, header, o, left, end, top, buf).Ok?
    requires EndOk(end, top)
    requires FirstCloses(NestedPieces(u, o, end, top)) && Node(header, Text("")) == Node(header', Text(""))
    ensures DecodeEnv(u, o.marker).Some? && MarkerOk(u, MarkerOf(DecodeEnv(u, o.marker).value))
    ensures
      var o' := Opener(o.language, MarkerOf(DecodeEnv(u, o.marker).value),
          Outputs(NestedPieces(u, o, end, top)) + rest');
      var r := Nested(u, header', o', left', end, top, buf);
      r.Err? || r.value.parts != Nested(u, header, o, left, end, top, buf).value.parts
    decreases |o.rest|, 1
  {
    var env := DecodeEnv(u, o.marker).value;
    MarkerNames(u, o.marker, env);
    var tag := ClosingTag(o.language, env);
    var inner := Body(u, false, o.rest, Some(tag), false, "").value;
    assert EndOk(Some(tag), false);
    var a, b := Pieces(u, false, o.rest, Some(tag), false), Pieces(u, EndsWord(u, tag), inner.rest, end, top);
    hide Body, Pieces, Mirror, MarkerOf, DecodeEnv, ClosingTag, EndOk, FirstCloses, Unescaped, AtEscape, InStep, Flush,
         EndsWord;
    FirstIn(a, b);
    SourcesAppend(a, b);
    Assoc(Outputs(a), Outputs(b), rest');
    var r' := Outputs(b) + rest';
    var more := Body(u, EndsWord(u, tag), inner.rest, end, top, "");
    if Unescaped(a) {
      var n := EscapeFollowed(u, EndsWord(u, tag), inner.rest, end, top, "", rest');
      StepFollows(u, EndsWord(u, tag), inner.rest, r', end, top, n);
      var m := Reparses(u, false, o.rest, Some(tag), false, "", r');
      hide Node;
      assert Node(header', Expr(o.language, env, inner.parts)) == Node(header, Expr(o.language, env, inner.parts))
      by { SameNode(header, header', Expr(o.language, env, inner.parts)); }
      Lengthened(Flush(buf) + [Node(header, Expr(o.language, env, inner.parts))], more,
        Body(u, EndsWord(u, tag), r', end, top, ""));
    } else {
      var n := EscapeFollowed(u, false, o.rest, Some(tag), false, "", r');
      var again := Body(u, false, Outputs(a) + r', Some(tag), false, "");
      if again.Ok? {
        var p, q := Expr(o.language, env, inner.parts), Expr(o.language, env, again.value.parts);
        SameNode(header, header', q);
        OtherNode(Flush(buf), Node(header, p), Node(header', q), more,
          Body(u, EndsWord(u, tag), again.value.rest, end, top, ""));
      }
    }
  }

  lemma {:induction false} SameNode(header: Option<Header>, header': Option<Header>, p: Part)
    requires Node(header, Text("")) == Node(header', Text(""))
    ensures Node(header', p) == Node(header, p)
  {
  }

  lemma {:induction false} OpenChanges(u: Unicode, prev: bool, s: string, end: Option<string>, top: bool, buf: string,
                                       rest': string, header: Option<Header>, o: Opener)
    requires s != "" && EndOk(end, top) && Look(u, prev, s, end, top) == Open(header, o)
    requires Body(u, prev, s, end, top, buf).Ok?
    requires FirstCloses(Pieces(u, prev, s, end, top))
    ensures var s' := Written(u, prev, s, end, top) + rest';
      Changes(u, prev, s, s', end, top, buf) && InStep(u, prev, s, s', end, top, 0)
    decreases |o.rest|, 2
  {
    BodyOpen(u, prev, s, end, top, buf, header, o);
    OpenTokenText(u, prev, s, end, top);
    var header' := WrittenOpen(u, prev, s, end, top, buf, header, o, rest');
    hide Body, Pieces, Look, Mirror, Nested, NestedPieces, HeadPieces, TagPieces, DecodeEnv, MarkerOf, Registered,
         HeaderOk, EndOk, FirstCloses, Unescaped;
    var s' := Written(u, prev, s, end, top) + rest';
    TagUnescaped(u, header, o);
    FirstIn(HeadPieces(header) + TagPieces(u, o), NestedPieces(u, o, end, top));
    var o' := Opener(o.language, MarkerOf(DecodeEnv(u, o.marker).value), Outputs(NestedPieces(u, o, end, top)) + rest');
    BodyOpen(u, prev, s', end, top, buf, header', o');
    NestedChanges(u, header, o, if header.Some? then |header.value.rest| else |s|, end, top, buf, rest',
                  header', if header'.Some? then |header'.value.rest| else |s'|);
  }

  /** Parsing what is written of a source whose first consumed escape guarded a closing tag. */
  lemma {:induction false} EscapeFollowed(u: Unicode, prev: bool, s: string, end: Option<string>, top: bool,
                                          buf: string, rest': string)
      returns (n: nat)
    requires Body(u, prev, s, end, top, buf).Ok? && FirstCloses(Pieces(u, prev, s, end, top)) && EndOk(end, top)
    ensures var s' := Written(u, prev, s, end, top) + rest';
      Changes(u, prev, s, s', end, top, buf) && InStep(u, prev, s, s', end, top, n)
    decreases |s|, 0
  {
    hide Look, EndOk, Changes, InStep, EndsWord, Word, NestedPieces, Nested;
    var t := Look(u, prev, s, end, top);
    n := 0;
    match t {
      case Close =>
      case Plain =>
        PiecesPlain(u, prev, s, end, top, buf);
        NotFirst(Same(s[..1]), Pieces(u, Word(u, s[0]), s[1..], end, top));
        n := EscapeFollowed(u, Word(u, s[0]), s[1..], end, top, buf + [s[0]], rest');
        PlainChanges(u, prev, s, end, top, buf, rest', n);
        n := n + 1;
      case Escape(text, rest) =>
        EscapeChanges(u, prev, s, end, top, buf, rest', text, rest);
      case VarUse(name, rest) =>
        BodyVar(u, prev, s, end, top, buf, name, rest);
        NotFirst(Same("$" + name), Pieces(u, EndsWord(u, name), rest, end, top));
        n := EscapeFollowed(u, EndsWord(u, name), rest, end, top, "", rest');
        VarChanges(u, prev, s, end, top, buf, rest', n, name, rest);
        n := 0;
      case Open(header, o) =>
        OpenChanges(u, prev, s, end, top, buf, rest', header, o);
    }
  }

  /** When the first consumed escape guarded the closing tag the parser was waiting for, and no
      escaped opener follows it directly, the reconstruction parses to another tree or fails. */
  lemma {:induction false} EscapedCloserChanges(u: Unicode, src: string)
    requires ParseDocument(u, src).Ok? && FirstCloses(DocumentPieces(u, src))
    ensures ParseDocument(u, ReconstructAll(ParseDocument(u, src).value)) != ParseDocument(u, src)
  {
    ReconstructionExact(u, src);
    hide Pieces, Body, Outputs, Sources, FirstCloses;
    var n := EscapeFollowed(u, false, src, None, true, "", "");
    var w := Written(u, false, src, None, true);
    assert w + "" == w;
  }

  /** Every consumed escape guarded a closing tag. */
  predicate OnlyClosers(ps: seq<Piece>) { forall p :: p in ps && p.Dropped? ==> GuardsCloser(p) }

  lemma {:induction false} OnlyClosersFirst(ps: seq<Piece>)
    requires OnlyClosers(ps) && !Unescaped(ps)
    ensures FirstCloses(ps)
  {
    if ps[0].Dropped? {
      assert ps[0] in ps;
      assert ps[1..] != [] ==> ps[1..][0] in ps;
    } else {
      assert ps == [ps[0]] + ps[1..];
      OnlyClosersFirst(ps[1..]);
    }
  }

  /** Where only closing tags were escaped, the reconstruction parses to the same tree exactly
      when nothing was. */
  lemma {:induction false} ReparsesExactly(u: Unicode, src: string)
    requires ParseDocument(u, src).Ok? && OnlyClosers(DocumentPieces(u, src))
    ensures ParseDocument(u, ReconstructAll(ParseDocument(u, src).value)) == ParseDocument(u, src)
       <==> Unescaped(DocumentPieces(u, src))
  {
    hide ParseDocument, DocumentPieces, ReconstructAll, OnlyClosers, Unescaped, FirstCloses;
    if Unescaped(DocumentPieces(u, src)) {
      ReparsesToTheSameTree(u, src);
    } else {
      OnlyClosersFirst(DocumentPieces(u, src));
      EscapedCloserChanges(u, src);
    }
  }

  // -------------------------------------------------------------- escapes are not kept

  lemma {:induction false} OpensPy(u: Unicode, t: string)
    ensures var o := Opener("py", None, t);
      Body(u, false, OpenText("py", None) + t, None, true, "") ==
        Nested(u, None, o, |OpenText("py", None) + t|, None, true, "")
  {
    var s := OpenText("py", None) + t;
    assert "py"[0] == 'p' && "py"[1] == 'y';
    OpenComplete(u, "py", None, t);
    assert Registered("py");
    hide OpenAt, Nested, Look, OpenText, Registered;
    assert s != "";
    BlockNotLet(u, s);
    LookOpen(u, s, None, true, Opener("py", None, t));
    BodyOpen(u, false, s, None, true, "", None, Opener("py", None, t));
  }

  lemma {:induction false} ClosesPy(u: Unicode, prev: bool, buf: string, rest: string)
    requires rest == "" || rest == ")_py"
    ensures Body(u, prev, ")_py" + rest, Some(")_py"), false, buf) == Ok(Parsed(Flush(buf), rest))
  {
    Parts(")_py", rest);
    assert EndAt(")_py" + rest, ")_py");
    hide Backslash, LetBlock, Inline;
  }

  lemma {:induction false} LooksEscaped(u: Unicode, s: string)
    requires s == "\\" + (")_py" + ")_py")
    ensures Look(u, false, s, Some(")_py"), false) == Escape(")_py", ")_py")
  {
    var w := ")_py" + ")_py";
    Parts("\\", w);
    Parts(")_py", ")_py");
    assert EndAt(w, ")_py") && !EndAt(s, ")_py");
    hide EndAt, LetBlock, Inline, Block;
  }

  lemma {:induction false} EscapesPy(u: Unicode, s: string)
    requires s == "\\" + (")_py" + ")_py")
    ensures Body(u, false, s, Some(")_py"), false, "") == Ok(Parsed([Text(")_py")], ""))
  {
    LooksEscaped(u, s);
    ClosesPy(u, EndsWord(u, ")_py"), ")_py", "");
    assert "" + ")_py" == ")_py" && ")_py" + "" == ")_py";
    hide Look;
  }

  lemma {:induction false} PyTag(u: Unicode)
    ensures DecodeEnv(u, None) == Some(Env(EPHEMERAL_ENV_ID, false))
    ensures ClosingTag("py", Env(EPHEMERAL_ENV_ID, false)) == ")_py"
    ensures OpeningTag("py", Env(EPHEMERAL_ENV_ID, false)) == "py^("
    ensures OpenText("py", None) == "py^("
  {
    assert ")_" + "py" + "" == ")_py" && "py" + "" + "^(" == "py^(";
  }

  lemma {:induction false} ParsesPy(u: Unicode, t: string, inner: Parsed)
    requires Body(u, false, t, Some(")_py"), false, "") == Ok(inner)
    ensures Body(u, false, "py^(" + t, None, true, "") ==
      Prepend([Expr("py", Env(EPHEMERAL_ENV_ID, false), inner.parts)],
          Body(u, EndsWord(u, ")_py"), inner.rest, None, true, ""))
  {
    PyTag(u);
    OpensPy(u, t);
    var node := Expr("py", Env(EPHEMERAL_ENV_ID, false), inner.parts);
    assert Flush("") + [node] == [node];
    hide Body, DecodeEnv, ClosingTag, OpeningTag, OpenText, EndsWord, Flush;
  }

  lemma {:induction false} PyTree(u: Unicode, t: string, text: string)
    requires Body(u, false, t, Some(")_py"), false, "") == Ok(Parsed([Text(text)], ""))
    ensures ParseDocument(u, "py^(" + t) == Ok([Expr("py", Env(EPHEMERAL_ENV_ID, false), [Text(text)])])
  {
    hide Body, EndsWord;
    ParsesPy(u, t, Parsed([Text(text)], ""));
    NothingLeft(u, EndsWord(u, ")_py"));
    var parts := [Expr("py", Env(EPHEMERAL_ENV_ID, false), [Text(text)])];
    assert parts + [] == parts;
  }

  lemma {:induction false} PyWritten(text: string)
    ensures ReconstructAll([Expr("py", Env(EPHEMERAL_ENV_ID, false), [Text(text)])]) == "py^(" + (text + ")_py")
  {
    var env := Env(EPHEMERAL_ENV_ID, false);
    ReconstructOne(Expr("py", env, [Text(text)]));
    ReconstructOne(Text(text));
    assert ClosingTag("py", env) == ")_py" && OpeningTag("py", env) == "py^(";
    Assoc("py^(", text, ")_py");
  }

  lemma {:induction false} UnescapedTree(u: Unicode, t: string)
    requires t == ")_py" + ")_py"
    ensures var r := ParseDocument(u, "py^(" + t);
      r.Err? || (r.value != [] && r.value[0] == Expr("py", Env(EPHEMERAL_ENV_ID, false), []))
  {
    ClosesPy(u, false, "", ")_py");
    ParsesPy(u, t, Parsed([], ")_py"));
    hide Body, EndsWord;
  }

  /** A consumed escape is not written back: the reconstruction closes where the source did not. */
  lemma {:induction false} EscapesAreNotKept(u: Unicode)
    ensures var src := "py^(" + ("\\" + (")_py" + ")_py"));
      ParseDocument(u, src).Ok? && ParseDocument(u, ReconstructAll(ParseDocument(u, src).value)) !=
        ParseDocument(u, src)
  {
    hide ParseDocument, ReconstructAll, Body;
    EscapesPy(u, "\\" + (")_py" + ")_py"));
    PyTree(u, "\\" + (")_py" + ")_py"), ")_py");
    UnescapedTree(u, ")_py" + ")_py");
    PyWritten(")_py");
  }

  lemma {:induction false} NothingLeft(u: Unicode, prev: bool)
    ensures Body(u, prev, "", None, true, "") == Ok(Parsed([], ""))
  {
  }

  // ------------------------------------------------ escapes that make no difference

  lemma {:induction false} PlainStep(u: Unicode, prev: bool, c: char, t: string, end: Option<string>, top: bool,
                                     buf: string)
    requires c != '\\' && c != '$' && c != 'l' && (end.Some? ==> !EndAt([c] + t, end.value))
    requires prev || !IdentStart(c) || Block(u, [c] + t).None?
    ensures Body(u, prev, [c] + t, end, top, buf) == Body(u, Word(u, c), t, end, top, buf + [c])
    ensures Pieces(u, prev, [c] + t, end, top) == [Same([c])] + Pieces(u, Word(u, c), t, end, top)
  {
    var s := [c] + t;
    assert LetBlock(u, s).None?;
    assert prev || Block(u, s).None? by { if !prev && Block(u, s).Some? { BlockHead(u, s); } }
    hide Block, LetBlock, EndAt, Body, Pieces;
    PlainExactly(u, prev, s, end, top);
    Parts([c], t);
    assert s[..1] == [c];
    PiecesPlain(u, prev, s, end, top, buf);
  }

  /** `py^(` after a word is text. */
  lemma {:induction false} TagAfterWord(u: Unicode, rest: string, end: Option<string>, top: bool, buf: string)
    requires end.Some? ==> end.value != "" && end.value[0] == ')'
    ensures Body(u, true, "py^(" + rest, end, top, buf) == Body(u, false, rest, end, top, buf + "py^(")
  {
    hide Body, Block, Pieces;
    assert Word(u, 'p') && Word(u, 'y') && !Word(u, '^') && !Word(u, '(');
    var a, b, c := "y^(" + rest, "^(" + rest, "(" + rest;
    assert "py^(" + rest == ['p'] + a && a == ['y'] + b && b == ['^'] + c && c == ['('] + rest;
    PlainStep(u, true, 'p', a, end, top, buf);
    PlainStep(u, true, 'y', b, end, top, buf + ['p']);
    PlainStep(u, true, '^', c, end, top, buf + ['p'] + ['y']);
    PlainStep(u, false, '(', rest, end, top, buf + ['p'] + ['y'] + ['^']);
    assert buf + ['p'] + ['y'] + ['^'] + ['('] == buf + "py^(";
  }

  lemma {:induction false} EscapesTag(u: Unicode, prev: bool, rest: string, end: Option<string>, top: bool, buf: string)
    requires end.Some? ==> end.value != "" && end.value[0] == ')'
    ensures var s := "\\" + ("py^(" + rest);
      && Body(u, prev, s, end, top, buf) == Body(u, false, rest, end, top, buf + "py^(")
      && Pieces(u, prev, s, end, top) == [Dropped("py^(")] + Pieces(u, false, rest, end, top)
  {
    var w := "py^(" + rest;
    var s := "\\" + w;
    PyTag(u);
    assert "py"[0] == 'p' && "py"[1] == 'y';
    OpenComplete(u, "py", None, rest);
    assert Registered("py");
    Parts("\\", w);
    Parts("py^(", rest);
    assert end.Some? ==> !EndAt(s, end.value) && !EndAt(w, end.value);
    hide OpenAt, EndAt, LetBlock, Inline, Body, Pieces, OpenText, Registered;
    assert w[..|w| - |rest|] == "py^(";
    assert Look(u, prev, s, end, top) == Escape("py^(", rest);
    BodyEscape(u, prev, s, end, top, buf, "py^(", rest);
    assert !EndsWord(u, "py^(");
  }

  /** Unescaped sources are not the only ones that reparse alike: in `x\\py^(` an escape is
      consumed, and the opener written without it stands after a word and is text. */
  lemma {:induction false} EscapedOpenerAfterWord(u: Unicode)
    ensures var src := "x" + ("\\" + "py^(");
      && ParseDocument(u, src).Ok? && !Unescaped(DocumentPieces(u, src))
      && ParseDocument(u, ReconstructAll(ParseDocument(u, src).value)) == ParseDocument(u, src)
  {
    var t := "\\" + "py^(";
    var src := "x" + t;
    XPlain(u);
    EscapesTag(u, true, "", None, true, "x");
    assert "py^(" + "" == "py^(" && "x" == [] + ['x'];
    TagAfterWord(u, "", None, true, "x");
    assert "x" + "py^(" == "xpy^(";
    ReconstructOne(Text("xpy^("));
    TextLeft(u, "xpy^(");
    hide Body, Pieces;
    var ps := DocumentPieces(u, src);
    assert ps[1] == Dropped("py^(");
  }

  lemma {:induction false} TextLeft(u: Unicode, buf: string)
    requires buf != ""
    ensures Body(u, false, "", None, true, buf) == Ok(Parsed([Text(buf)], ""))
    ensures Pieces(u, false, "", None, true) == []
  {
  }

  lemma {:induction false} XPlain(u: Unicode)
    ensures var s := "x" + ("\\" + "py^(");
      && Body(u, false, s, None, true, "") == Body(u, true, "\\" + "py^(", None, true, "x")
      && Pieces(u, false, s, None, true) == [Same("x")] + Pieces(u, true, "\\" + "py^(", None, true)
    ensures Body(u, false, "xpy^(", None, true, "") == Body(u, true, "py^(", None, true, "x")
  {
    hide Body, Pieces;
    assert Word(u, 'x') && "" + ['x'] == "x" && "x" == ['x'];
    var t := "\\" + "py^(";
    NoTagHere(u, "x", t);
    assert "xpy"[0] == 'x' && "xpy"[1] == 'p' && "xpy"[2] == 'y';
    assert !Registered("xpy");
    OpenComplete(u, "xpy", None, "");
    assert OpenText("xpy", None) + "" == "xpy^(";
    hide OpenAt;
    assert "x" + t == ['x'] + t && ['x'] + "py^(" == "xpy^(";
    PlainStep(u, false, 'x', t, None, true, "");
    PlainStep(u, false, 'x', "py^(", None, true, "");
  }

  lemma {:induction false} EscapesCloser(u: Unicode, rest: string)
    requires rest == "" || rest[0] == '\\'
    ensures Body(u, false, "\\" + (")_py" + rest), Some(")_py"), false, "") ==
      Body(u, true, rest, Some(")_py"), false, ")_py")
  {
    var w := ")_py" + rest;
    var s := "\\" + w;
    Parts("\\", w);
    Parts(")_py", rest);
    assert EndAt(w, ")_py") && !EndAt(s, ")_py");
    hide EndAt, LetBlock, Inline, Block, Body;
    assert Look(u, false, s, Some(")_py"), false) == Escape(")_py", rest);
    BodyEscape(u, false, s, Some(")_py"), false, "", ")_py", rest);
    assert EndsWord(u, ")_py") && "" + ")_py" == ")_py";
  }

  lemma {:induction false} NoCloser(u: Unicode, t: string)
    requires t != "" && IdentChar(t[0]) && Block(u, "_py" + t).None?
    ensures Body(u, false, ")_py" + t, Some(")_py"), false, "") == Body(u, true, t, Some(")_py"), false, ")_py")
  {
    hide Body, Block, Pieces;
    var end := Some(")_py");
    var a, b, c := "_py" + t, "py" + t, "y" + t;
    assert ")_py" + t == [')'] + a && a == ['_'] + b && b == ['p'] + c && c == ['y'] + t;
    assert !EndAt([')'] + a, ")_py") by { Parts(")_py", t); }
    assert !Word(u, ')') && Word(u, '_') && Word(u, 'p') && Word(u, 'y');
    PlainStep(u, false, ')', a, end, false, "");
    PlainStep(u, false, '_', b, end, false, "" + [')']);
    PlainStep(u, true, 'p', c, end, false, "" + [')'] + ['_']);
    PlainStep(u, true, 'y', t, end, false, "" + [')'] + ['_'] + ['p']);
    assert "" + [')'] + ['_'] + ['p'] + ['y'] == ")_py";
  }

  const RUN_TOGETHER := ")_py" + "py^("

  lemma {:induction false} BothEscaped(u: Unicode)
    ensures Body(u, false, "\\" + (")_py" + ("\\" + ("py^(" + ")_py"))), Some(")_py"), false, "")
         == Ok(Parsed([Text(RUN_TOGETHER)], ""))
  {
    hide Body, Pieces;
    EscapesCloser(u, "\\" + ("py^(" + ")_py"));
    EscapesTag(u, true, ")_py", Some(")_py"), false, ")_py");
    ClosesPy(u, false, RUN_TOGETHER, "");
    assert ")_py" + "" == ")_py";
  }

  lemma {:induction false} NeitherEscaped(u: Unicode)
    ensures Body(u, false, ")_py" + ("py^(" + ")_py"), Some(")_py"), false, "") == Ok(Parsed([Text(RUN_TOGETHER)], ""))
  {
    hide Body, Pieces, Block;
    WordTag(u);
    NoCloser(u, "py^(" + ")_py");
    TagAfterWord(u, ")_py", Some(")_py"), false, ")_py");
    ClosesPy(u, false, RUN_TOGETHER, "");
    assert ")_py" + "" == ")_py";
  }

  /** An escaped opener right after an escaped closing tag keeps it from closing: the
      reconstruction of `py^(\\)_py\\py^()_py` parses to the same tree. */
  lemma {:induction false} EscapedCloserBeforeOpener(u: Unicode)
    ensures var src := "py^(" + ("\\" + (")_py" + ("\\" + ("py^(" + ")_py"))));
      && ParseDocument(u, src).Ok?
      && ParseDocument(u, ReconstructAll(ParseDocument(u, src).value)) == ParseDocument(u, src)
  {
    hide ParseDocument, ReconstructAll, Body;
    BothEscaped(u);
    PyTree(u, "\\" + (")_py" + ("\\" + ("py^(" + ")_py"))), RUN_TOGETHER);
    NeitherEscaped(u);
    PyTree(u, ")_py" + ("py^(" + ")_py"), RUN_TOGETHER);
    PyWritten(RUN_TOGETHER);
    Assoc(")_py", "py^(", ")_py");
  }

  lemma {:induction false} WordTag(u: Unicode)
    ensures Block(u, "_py" + ("py^(" + ")_py")).None?
  {
    var language := "_pypy";
    assert language[0] == '_' && language[1] == 'p' && language[2] == 'y' && language[3] == 'p' && language[4] == 'y';
    assert !Registered(language);
    OpenComplete(u, language, None, ")_py");
    hide OpenAt;
    assert OpenText(language, None) + ")_py" == "_py" + ("py^(" + ")_py") by {
      assert OpenText(language, None) == "_pypy^(";
    }
  }
}
