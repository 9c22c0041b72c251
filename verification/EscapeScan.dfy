/** Exactly which consumed escapes make a difference, told from the source: each one by the
    text gathered before it and the tag it guarded. */
module EscapeScan {
  import opened Wrappers
  import opened Syntax
  import opened SourcePieces
  import opened Reparse
  import opened Escapes
  import opened Rereading
  import Decimal

  // ------------------------------------------------------------------- the condition

  /** The text of a consumed escape is an opener, not the awaited closing tag. */
  predicate OpensTag(text: string) { text != "" && text[0] != ')' }

  predicate EscapesOpener(u: Unicode, prev: bool, s: string, end: Option<string>, top: bool)
  {
    s != "" && var t := Look(u, prev, s, end, top); t.Escape? && OpensTag(t.text)
  }

  /** An escaped opener makes no difference when a word stands right before it and, with the tag
      behind, nothing in the text gathered so far starts a token; an escaped closing tag, when
      such an opener stands right behind it. `before` is the word flag at the start of `buf`,
      the text gathered so far. */
  predicate Harmless(u: Unicode, before: bool, prev: bool, s: string, end: Option<string>, top: bool, buf: string)
    decreases |s|, 0
  {
    if s == "" then true
    else
      match Look(u, prev, s, end, top)
      case Close => true
      case Plain => Harmless(u, before, Word(u, s[0]), s[1..], end, top, buf + [s[0]])
      case Escape(text, rest) =>
        && (if OpensTag(text) then EndsWord(u, buf) && PlainRun(u, before, buf, text, end, top)
            else EscapesOpener(u, EndsWord(u, text), rest, end, top))
        && Harmless(u, before, EndsWord(u, text), rest, end, top, buf + text)
      case VarUse(name, rest) => Harmless(u, EndsWord(u, name), EndsWord(u, name), rest, end, top, "")
      case Open(_, o) => HarmlessNested(u, o, end, top)
  }

  predicate HarmlessNested(u: Unicode, o: Opener, end: Option<string>, top: bool)
    requires MarkerOk(u, o.marker)
    decreases |o.rest|, 1
  {
    var env := DecodeEnv(u, o.marker);
    if env.None? then true
    else
      var tag := ClosingTag(o.language, env.value);
      match Body(u, false, o.rest, Some(tag), false, "")
      case Err(_) => true
      case Ok(inner) =>
        && Harmless(u, false, false, o.rest, Some(tag), false, "")
        && Harmless(u, EndsWord(u, tag), EndsWord(u, tag), inner.rest, end, top, "")
  }

  /** The text being gathered meets an escape before any other token. */
  predicate EscapeAhead(u: Unicode, prev: bool, s: string, end: Option<string>, top: bool)
    decreases |s|
  {
    if s == "" then false
    else
      match Look(u, prev, s, end, top)
      case Plain => EscapeAhead(u, Word(u, s[0]), s[1..], end, top)
      case Escape(_, _) => true
      case _ => false
  }

  // ------------------------------------------------------------- one step of the scan

  lemma {:induction false} ScanPlain(u: Unicode, before: bool, prev: bool, s: string, end: Option<string>, top: bool,
                                     buf: string)
    requires s != "" && Look(u, prev, s, end, top).Plain?
    ensures Harmless(u, before, prev, s, end, top, buf) ==
      Harmless(u, before, Word(u, s[0]), s[1..], end, top, buf + [s[0]])
    ensures EscapeAhead(u, prev, s, end, top) == EscapeAhead(u, Word(u, s[0]), s[1..], end, top)
  {
    hide Look;
  }

  lemma {:induction false} ScanEscape(u: Unicode, before: bool, prev: bool, s: string, end: Option<string>, top: bool,
                                      buf: string, text: string, rest: string)
    requires s != "" && Look(u, prev, s, end, top) == Escape(text, rest)
    ensures Harmless(u, before, prev, s, end, top, buf) ==
      (&& (if OpensTag(text) then EndsWord(u, buf) && PlainRun(u, before, buf, text, end, top)
           else EscapesOpener(u, EndsWord(u, text), rest, end, top))
       && Harmless(u, before, EndsWord(u, text), rest, end, top, buf + text))
    ensures EscapeAhead(u, prev, s, end, top)
  {
    hide Look, PlainRun;
  }

  lemma {:induction false} ScanVar(u: Unicode, before: bool, prev: bool, s: string, end: Option<string>, top: bool,
                                   buf: string, name: string, rest: string)
    requires s != "" && Look(u, prev, s, end, top) == VarUse(name, rest)
    ensures Harmless(u, before, prev, s, end, top, buf) ==
      Harmless(u, EndsWord(u, name), EndsWord(u, name), rest, end, top, "")
    ensures !EscapeAhead(u, prev, s, end, top)
  {
    hide Look, PlainRun;
  }

  lemma {:induction false} ScanOpen(u: Unicode, before: bool, prev: bool, s: string, end: Option<string>, top: bool,
                                    buf: string, header: Option<Header>, o: Opener)
    requires s != "" && Look(u, prev, s, end, top) == Open(header, o)
    ensures MarkerOk(u, o.marker)
    ensures Harmless(u, before, prev, s, end, top, buf) == HarmlessNested(u, o, end, top)
    ensures !EscapeAhead(u, prev, s, end, top)
  {
    hide Look, PlainRun, HarmlessNested;
  }

  lemma {:induction false} ScanClose(u: Unicode, before: bool, prev: bool, s: string, end: Option<string>, top: bool,
                                     buf: string)
    requires s == "" || Look(u, prev, s, end, top).Close?
    ensures Harmless(u, before, prev, s, end, top, buf) && !EscapeAhead(u, prev, s, end, top)
  {
    hide Look, PlainRun;
  }

  // ---------------------------------------------------- what decides behind a tag

  lemma {:induction false} TagEnds(u: Unicode, language: string, marker: Option<string>, k: nat)
    requires Ident(language) && MarkerOk(u, marker) && k < |OpenText(language, marker)|
    ensures var z := OpenText(language, marker); z[k] == '(' <==> k == |z| - 1
  {
    var z, n, m := OpenText(language, marker), |language|, MarkerText(marker);
    assert z == language + (m + "^(");
    if k < n {
      assert z[k] == language[k] && IdentChar(language[k]);
    } else if k < n + |m| {
      assert z[k] == m[k - n];
      MarkerNoParen(u, marker, k - n);
    } else {
      assert z[k] == "^("[k - n - |m|];
    }
  }

  lemma {:induction false} MarkerNoParen(u: Unicode, marker: Option<string>, k: nat)
    requires MarkerOk(u, marker) && k < |MarkerText(marker)|
    ensures MarkerText(marker)[k] != '('
  {
    if 0 < k < |MarkerText(marker)| - 1 {
      assert MarkerText(marker)[k] == marker.value[k - 1];
      assert marker.value != "*" ==> Digit(u, marker.value[k - 1]).Some?;
    }
  }

  lemma {:induction false} HeaderNoParen(u: Unicode, h: Header, k: nat)
    requires HeaderOk(u, h) && k < |HeaderText(h)|
    ensures HeaderText(h)[k] != '('
  {
    HeaderShape(u, h, k);
    assert (HeaderText(h) + h.rest)[k] == HeaderText(h)[k];
    assert !Space(u, '(');
    hide HeaderText, HeaderAsList;
  }

  lemma {:induction false} CloserNoParen(language: string, env: Env, k: nat)
    requires Ident(language) && k < |ClosingTag(language, env)|
    ensures ClosingTag(language, env)[k] != '('
  {
    hide Marker;
    var n := |language|;
    JoinedAt(")_", language, Marker(env), k);
    if 2 <= k < 2 + n {
      assert IdentChar(language[k - 2]);
    } else if 2 + n <= k {
      EnvNoParen(env, k - 2 - n);
    }
  }

  lemma {:induction false} JoinedAt(a: string, b: string, c: string, k: nat)
    requires k < |a + b + c|
    ensures (a + b + c)[k] ==
      if k < |a| then a[k] else if k < |a| + |b| then b[k - |a|] else c[k - |a| - |b|]
  {
  }

  lemma {:induction false} EnvNoParen(env: Env, k: nat)
    requires k < |Marker(env)|
    ensures Marker(env)[k] != '('
  {
    if env.explicit && env.id != LINKER_ISOLATED_ENV_ID {
      var t := Decimal.Text(env.id);
      assert 0 < k < |Marker(env)| - 1 ==> Marker(env)[k] == t[k - 1] && Decimal.IsDigit(t[k - 1]);
    }
  }

  /** `x` ends with a parenthesis. */
  predicate Opened(x: string) { x != "" && x[|x| - 1] == '(' }

  /** Up to an opening parenthesis, a closing tag is told without looking further. */
  lemma {:induction false} EndWithin(x: string, y: string, end: Option<string>)
    requires Opened(x) && EndOk(end, false) && end.Some?
    ensures EndAt(x + y, end.value) <==> EndAt(x, end.value)
  {
    var language, env :| Ident(language) && end.value == ClosingTag(language, env);
    var e, s := end.value, x + y;
    forall k | 0 <= k < |e| ensures e[k] != '(' { CloserNoParen(language, env, k); }
    hide ClosingTag, EndOk, Boundary;
    assert s[|x| - 1] == '(';
    ShortOf(e, x, y);
    if e <= x {
      SameHeadBoundary(e, x[|e|..], s[|e|..]);
    }
  }

  /** A text without a parenthesis that starts `x + y` ends before the parenthesis that ends `x`. */
  lemma {:induction false} ShortOf(e: string, x: string, y: string)
    requires Opened(x) && forall k :: 0 <= k < |e| ==> e[k] != '('
    ensures e <= x + y <==> e <= x
    ensures e <= x ==> |e| < |x| && x[|e|..][0] == (x + y)[|e|..][0]
  {
    var s := x + y;
    assert s[|x| - 1] == '(';
    if e <= s {
      assert forall k :: 0 <= k < |e| ==> e[k] == s[k];
      assert |e| < |x|;
      assert x[..|e|] == s[..|e|];
    }
    if e <= x { assert forall k :: 0 <= k < |e| ==> e[k] == x[k]; assert s[..|e|] == x[..|e|]; }
  }

  lemma {:induction false} SameHeadBoundary(tag: string, a: string, b: string)
    requires a != "" && b != "" && a[0] == b[0]
    ensures Boundary(tag, a) <==> Boundary(tag, b)
  {
  }

  lemma {:induction false} BlockWithin(u: Unicode, x: string, y: string)
    requires Opened(x)
    ensures Block(u, x + y).Some? <==> Block(u, x).Some?
  {
    hide Block, OpenText, Registered, Ident, MarkerOk;
    if Block(u, x + y).Some? {
      var o := BlockTag(u, x + y);
      var z := OpenText(o.language, o.marker);
      forall k | 0 <= k < |z| ensures z[k] == '(' <==> k == |z| - 1 { TagEnds(u, o.language, o.marker, k); }
      WithinTag(z, o.rest, x, y);
      BlockAgain(u, o.language, o.marker, x[|z|..]);
    }
    if Block(u, x).Some? {
      var o := BlockTag(u, x);
      var z := OpenText(o.language, o.marker);
      BlockAgain(u, o.language, o.marker, o.rest + y);
      Assoc(z, o.rest, y);
    }
  }

  /** A text whose only parenthesis is its last character ends with the first one at the latest. */
  lemma {:induction false} WithinTag(z: string, rest: string, x: string, y: string)
    requires Opened(x) && z + rest == x + y && forall k :: 0 <= k < |z| ==> (z[k] == '(' <==> k == |z| - 1)
    ensures |z| <= |x| && x == z + x[|z|..]
  {
    assert (x + y)[|x| - 1] == '(';
    assert |x| - 1 < |z| ==> z[|x| - 1] == (z + rest)[|x| - 1];
    assert (z + rest)[..|z|] == z && (x + y)[..|z|] == x[..|z|];
  }

  lemma {:induction false} LetWithin(u: Unicode, x: string, y: string)
    requires Opened(x)
    ensures LetBlock(u, x + y).Some? <==> LetBlock(u, x).Some?
  {
    hide LetBlock, Block, HeaderText, HeaderOk, OpenText, LetAt, Registered, Ident, MarkerOk;
    if LetBlock(u, x + y).Some? { LetShortened(u, x, y); }
    if LetBlock(u, x).Some? { LetLengthened(u, x, y); }
  }

  lemma {:induction false} LetLengthened(u: Unicode, x: string, y: string)
    requires Opened(x) && LetBlock(u, x).Some?
    ensures LetBlock(u, x + y).Some?
  {
    hide LetBlock, Block, HeaderText, HeaderOk, OpenText, LetAt, Registered, Ident, MarkerOk;
    LetRest(u, x);
    LetBlockText(u, x);
    LetHead4(u, x);
    var h := LetBlock(u, x).value.header.value;
    var g := Header(h.name, h.before, h.mid, h.after, h.rest + y);
    SameHeader(u, h, g);
    assert Opened(h.rest) by { BlockHead(u, h.rest); assert x[|x| - 1] == h.rest[|h.rest| - 1]; }
    BlockWithin(u, h.rest, y);
    Assoc(HeaderText(h), h.rest, y);
    assert "let " <= x + y;
    LetBlockIntro(u, g);
  }

  lemma {:induction false} LetShortened(u: Unicode, x: string, y: string)
    requires Opened(x) && LetBlock(u, x + y).Some?
    ensures LetBlock(u, x).Some?
  {
    hide *;
    LetRest(u, x + y);
    LetBlockText(u, x + y);
    LetHead4(u, x + y);
    var h := LetBlock(u, x + y).value.header.value;
    HeaderLong(u, h);
    LetCut(u, x, y, h);
  }

  lemma {:induction false} LetCut(u: Unicode, x: string, y: string, h: Header)
    requires Opened(x) && HeaderOk(u, h) && |HeaderText(h)| >= 6 && x + y == HeaderText(h) + h.rest
    requires Block(u, h.rest).Some? && "let " <= x + y
    ensures LetBlock(u, x).Some?
  {
    hide *;
    var H := HeaderText(h);
    forall k | 0 <= k < |H| ensures H[k] != '(' { HeaderNoParen(u, h, k); }
    Parts(H, h.rest);
    assert H <= x + y;
    ShortOf(H, x, y);
    var v := x[|H|..];
    CutRest(H, h.rest, x, y);
    BlockWithin(u, v, y);
    var g := Header(h.name, h.before, h.mid, h.after, v);
    SameHeader(u, h, g);
    PrefixKept("let ", H, x, x + y);
    LetBlockIntro(u, g);
  }

  lemma {:induction false} CutRest(H: string, rest: string, x: string, y: string)
    requires Opened(x) && x + y == H + rest && H <= x && |H| < |x|
    ensures rest == x[|H|..] + y && x == H + x[|H|..] && Opened(x[|H|..])
  {
    assert rest == (H + rest)[|H|..] && (x + y)[|H|..] == x[|H|..] + y;
  }

  /** Up to an opening parenthesis, a plain character is told without looking further. */
  lemma {:induction false} PlainWithin(u: Unicode, prev: bool, x: string, y: string, end: Option<string>, top: bool)
    requires |x| > 1 && Opened(x) && EndOk(end, top)
    ensures Look(u, prev, x + y, end, top).Plain? <==> Look(u, prev, x, end, top).Plain?
  {
    hide Look, Block, LetBlock, EndAt, EndOk;
    PlainExactly(u, prev, x + y, end, top);
    PlainExactly(u, prev, x, end, top);
    assert (x + y)[0] == x[0] && (x + y)[1] == x[1] && (x + y)[1..] == x[1..] + y;
    assert Opened(x[1..]) by { assert x[1..][|x| - 2] == x[|x| - 1]; }
    if end.Some? {
      NotTop(end, top);
      EndWithin(x, y, end);
      EndWithin(x[1..], y, end);
    }
    BlockWithin(u, x, y);
    BlockWithin(u, x[1..], y);
    LetWithin(u, x, y);
  }

  lemma {:induction false} NotTop(end: Option<string>, top: bool)
    requires EndOk(end, top) && end.Some?
    ensures !top
  {
  }

  lemma {:induction false} RunWithin(u: Unicode, prev: bool, x: string, z: string, y: string, end: Option<string>,
                                     top: bool)
    requires Opened(z) && EndOk(end, top)
    ensures PlainRun(u, prev, x, z + y, end, top) <==> PlainRun(u, prev, x, z, end, top)
    decreases |x|
  {
    hide Look, EndOk, Word;
    if x != "" {
      Assoc(x, z, y);
      assert Opened(x + z) by { assert (x + z)[|x + z| - 1] == z[|z| - 1]; }
      PlainWithin(u, prev, x + z, y, end, top);
      RunWithin(u, Word(u, x[0]), x[1..], z, y, end, top);
    }
  }

  // ------------------------------------------------------------- runs of plain text

  lemma {:induction false} RunSplit(u: Unicode, prev: bool, a: string, b: string, tail: string, end: Option<string>,
                                    top: bool)
    ensures PlainRun(u, prev, a + b, tail, end, top) <==>
      PlainRun(u, prev, a, b + tail, end, top) && PlainRun(u, PrevAfter(u, prev, a), b, tail, end, top)
    decreases |a|
  {
    hide Look, Word;
    if a == "" {
      assert a + b == b;
    } else {
      assert (a + b)[0] == a[0] && (a + b)[1..] == a[1..] + b;
      Assoc(a, b, tail);
      RunSplit(u, Word(u, a[0]), a[1..], b, tail, end, top);
      PrevStep(u, prev, a);
    }
  }

  lemma {:induction false} PrevStep(u: Unicode, prev: bool, a: string)
    requires a != ""
    ensures PrevAfter(u, prev, a) == PrevAfter(u, Word(u, a[0]), a[1..])
  {
    hide Word;
    assert a[1..] != "" ==> a[1..][|a| - 2] == a[|a| - 1];
  }

  lemma {:induction false} PrevJoin(u: Unicode, prev: bool, a: string, b: string)
    requires b != ""
    ensures PrevAfter(u, prev, a + b) == EndsWord(u, b)
  {
    hide Word;
  }

  lemma {:induction false} TagCharPlain(u: Unicode, prev: bool, language: string, marker: Option<string>, k: nat,
                                        y: string, end: Option<string>, top: bool)
    requires Ident(language) && MarkerOk(u, marker) && k < |OpenText(language, marker)| && EndOk(end, top)
    requires var z := OpenText(language, marker); if k == 0 then prev else prev == Word(u, z[k - 1])
    ensures Look(u, prev, OpenText(language, marker)[k..] + y, end, top).Plain?
  {
    hide Look, Block, LetBlock, EndOk, Word, OpenText, MarkerOk, Ident, EndAt;
    var z := OpenText(language, marker);
    var s := z[k..] + y;
    OpenChars(u, language, marker, k);
    if 0 < k && IdentStart(z[k]) { WordOfIdent(u, z[k - 1]); }
    assert s[0] == z[k];
    if end.Some? {
      EndFirst(end, top);
      if EndAt(s, end.value) { EndHead(s, end.value); }
    }
    TagMeetsLet(u, language, marker, z + y, k);
    assert (z + y)[k..] == s;
    if Block(u, s).Some? { BlockHead(u, s); }
    if LetBlock(u, s).Some? { LetHead4(u, s); }
    PlainExactly(u, prev, s, end, top);
  }

  lemma {:induction false} WordOfIdent(u: Unicode, c: char)
    requires IdentChar(c)
    ensures Word(u, c)
  {
  }

  /** An opener right after a word is text. */
  lemma {:induction false} TagRun(u: Unicode, language: string, marker: Option<string>, k: nat, y: string,
                                  end: Option<string>, top: bool)
    requires Ident(language) && MarkerOk(u, marker) && k <= |OpenText(language, marker)| && EndOk(end, top)
    ensures var z := OpenText(language, marker);
      PlainRun(u, if k == 0 then true else Word(u, z[k - 1]), z[k..], y, end, top)
    decreases |OpenText(language, marker)| - k
  {
    hide Look, EndOk, Word, OpenText, Ident, MarkerOk;
    var z := OpenText(language, marker);
    if k < |z| {
      TagCharPlain(u, if k == 0 then true else Word(u, z[k - 1]), language, marker, k, y, end, top);
      TagRun(u, language, marker, k + 1, y, end, top);
      assert z[k..][0] == z[k] && z[k..][1..] == z[k + 1..];
    }
  }

  lemma {:induction false} OpenerRun(u: Unicode, text: string, y: string, end: Option<string>, top: bool)
    requires IsOpener(u, text) && EndOk(end, top)
    ensures PlainRun(u, true, text, y, end, top) && Opened(text) && Letter(text[0]) && !EndsWord(u, text)
  {
    hide PlainRun, EndOk, Ident, MarkerOk, OpenText, Registered;
    var language, marker :|
      Registered(language) && Ident(language) && MarkerOk(u, marker) && text == OpenText(language, marker);
    OpenerLetter(u, text);
    TagRun(u, language, marker, 0, y, end, top);
    assert text[0..] == text;
    TagEnds(u, language, marker, |text| - 1);
    assert !Word(u, '(');
  }

  /** Not after a word, an opener opens. */
  lemma {:induction false} OpenerOpens(u: Unicode, text: string, y: string, end: Option<string>, top: bool)
    requires IsOpener(u, text) && EndOk(end, top) && text != ""
    ensures !PlainRun(u, false, text, y, end, top)
  {
    hide Look, EndOk, Ident, MarkerOk, OpenText, Registered, Block, LetBlock;
    var language, marker :|
      Registered(language) && Ident(language) && MarkerOk(u, marker) && text == OpenText(language, marker);
    BlockAgain(u, language, marker, y);
    BlockHead(u, text + y);
    PlainExactly(u, false, text + y, end, top);
  }

  // ------------------------------------------------- harmless escapes are read back

  /** What was parsed is parsed again from what is written, with the same text gathered before. */
  ghost predicate ReadBack(u: Unicode, before: bool, prev: bool, s: string, end: Option<string>, top: bool, buf: string,
                           rest': string, n: nat)
    requires Body(u, prev, s, end, top, buf).Ok?
  {
    var s' := Written(u, prev, s, end, top) + rest';
    && Body(u, prev, s', end, top, buf) == Ok(Parsed(Body(u, prev, s, end, top, buf).value.parts, rest'))
    && (EscapeAhead(u, prev, s, end, top) ==> PlainRun(u, before, buf, s', end, top))
    && (!EscapeAhead(u, prev, s, end, top) ==> Mirror(u, prev, s, s', end, top, n))
    && (buf == "" ==> Follows(s, s'))
  }

  lemma {:induction false} EndBackRead(u: Unicode, before: bool, prev: bool, end: Option<string>, top: bool,
                                       buf: string, rest': string)
    requires Body(u, prev, "", end, top, buf).Ok? && Follows(Body(u, prev, "", end, top, buf).value.rest, rest')
    ensures ReadBack(u, before, prev, "", end, top, buf, rest', 0)
  {
    StepEnd(u, prev, end, top, buf);
    SourcesNone();
    ScanClose(u, before, prev, "", end, top, buf);
    assert rest' == "" && "" + rest' == "";
  }

  lemma {:induction false} CloseRead(u: Unicode, before: bool, prev: bool, s: string, end: Option<string>, top: bool,
                                     buf: string, rest': string)
    requires s != "" && Look(u, prev, s, end, top).Close? && EndOk(end, top) && Follows(s[|end.value|..], rest')
    ensures Body(u, prev, s, end, top, buf).Ok? && ReadBack(u, before, prev, s, end, top, buf, rest', 0)
  {
    hide Look, Body, Mirror, EndOk, EscapeAhead, PlainRun, Written;
    CloseAgain(u, prev, s, end, top, buf, rest');
    ScanClose(u, before, prev, s, end, top, buf);
    MirrorHead(u, prev, s, Written(u, prev, s, end, top) + rest', end, top, 0);
  }

  lemma {:induction false} PlainRead(u: Unicode, before: bool, prev: bool, s: string, end: Option<string>, top: bool,
                                     buf: string, rest': string, n: nat)
    requires s != "" && Look(u, prev, s, end, top).Plain? && EndOk(end, top) && prev == PrevAfter(u, before, buf)
    requires Body(u, Word(u, s[0]), s[1..], end, top, buf + [s[0]]).Ok?
    requires ReadBack(u, before, Word(u, s[0]), s[1..], end, top, buf + [s[0]], rest', n)
    ensures Body(u, prev, s, end, top, buf).Ok? && ReadBack(u, before, prev, s, end, top, buf, rest', n + 1)
  {
    hide Look, Body, Pieces, Mirror, EndOk, EscapeAhead, PlainRun, Word, PrevAfter, Harmless;
    var c, t := s[0], s[1..];
    PiecesPlain(u, prev, s, end, top, buf);
    ScanPlain(u, before, prev, s, end, top, buf);
    var t' := Written(u, Word(u, c), t, end, top) + rest';
    SourcesCons(Same(s[..1]), Pieces(u, Word(u, c), t, end, top));
    assert s[..1] == [c] && s == [c] + t;
    Assoc([c], Written(u, Word(u, c), t, end, top), rest');
    if EscapeAhead(u, prev, s, end, top) {
      RunSplit(u, before, buf, [c], t', end, top);
      RunOne(u, prev, c, t', end, top);
    } else {
      PlainStays(u, prev, c, t, t', end, top, n);
    }
    Parts([c], t');
    PiecesPlain(u, prev, [c] + t', end, top, buf);
  }

  lemma {:induction false} RunOne(u: Unicode, prev: bool, c: char, tail: string, end: Option<string>, top: bool)
    ensures PlainRun(u, prev, [c], tail, end, top) <==> Look(u, prev, [c] + tail, end, top).Plain?
  {
    hide Look;
    assert [c][1..] == "";
  }

  lemma {:induction false} EscapeRead(u: Unicode, before: bool, prev: bool, s: string, end: Option<string>, top: bool,
                                      buf: string, rest': string, n: nat, text: string, rest: string)
    requires s != "" && Look(u, prev, s, end, top) == Escape(text, rest) && EndOk(end, top)
    requires prev == PrevAfter(u, before, buf)
    requires Harmless(u, before, prev, s, end, top, buf) && Body(u, EndsWord(u, text), rest, end, top, buf + text).Ok?
    requires ReadBack(u, before, EndsWord(u, text), rest, end, top, buf + text, rest', n)
    ensures Body(u, prev, s, end, top, buf).Ok? && ReadBack(u, before, prev, s, end, top, buf, rest', 0)
  {
    hide Look, Body, Pieces, Mirror, EndOk, EscapeAhead, PlainRun, Harmless, IsOpener, EndsWord, EscapesOpener;
    BodyEscape(u, prev, s, end, top, buf, text, rest);
    ScanEscape(u, before, prev, s, end, top, buf, text, rest);
    EscapeText(u, prev, s, end, top);
    var t' := Written(u, EndsWord(u, text), rest, end, top) + rest';
    SourcesCons(Dropped(text), Pieces(u, EndsWord(u, text), rest, end, top));
    Assoc(text, Written(u, EndsWord(u, text), rest, end, top), rest');
    if OpensTag(text) {
      OpenerEscape(u, before, end, top, buf, text, t');
    } else {
      CloserAhead(u, EndsWord(u, text), rest, end, top);
      RunSplit(u, before, buf, text, t', end, top);
      CloserText(u, text, end, top);
    }
    RunRead(u, prev, text, t', end, top, buf);
  }

  lemma {:induction false} OpenerEscape(u: Unicode, before: bool, end: Option<string>, top: bool, buf: string,
                                        text: string, t': string)
    requires EndOk(end, top) && OpensTag(text) && (IsOpener(u, text) || (end.Some? && text == end.value))
    requires EndsWord(u, buf) && PlainRun(u, before, buf, text, end, top)
    ensures buf != "" && PrevAfter(u, before, buf) && text != ""
    ensures PlainRun(u, before, buf, text + t', end, top) && PlainRun(u, true, text, t', end, top)
  {
    hide PlainRun, EndOk, IsOpener, Word;
    if end.Some? { EndFirst(end, top); }
    OpenerRun(u, text, t', end, top);
    RunWithin(u, before, buf, text, t', end, top);
  }

  lemma {:induction false} CloserAhead(u: Unicode, prev: bool, s: string, end: Option<string>, top: bool)
    requires EscapesOpener(u, prev, s, end, top)
    ensures EscapeAhead(u, prev, s, end, top)
  {
    hide Look;
  }

  lemma {:induction false} CloserText(u: Unicode, text: string, end: Option<string>, top: bool)
    requires EndOk(end, top) && !OpensTag(text) && (IsOpener(u, text) || (end.Some? && text == end.value))
    ensures text != "" && text[0] == ')' && end == Some(text)
  {
    hide IsOpener, EndOk;
    if end.Some? { EndFirst(end, top); }
    if IsOpener(u, text) { OpenerLetter(u, text); }
  }

  lemma {:induction false} VarReadBack(u: Unicode, before: bool, prev: bool, s: string, end: Option<string>, top: bool,
                                       buf: string, rest': string, n: nat, name: string, rest: string)
    requires s != "" && Look(u, prev, s, end, top) == VarUse(name, rest) && EndOk(end, top)
    requires Body(u, EndsWord(u, name), rest, end, top, "").Ok?
    requires ReadBack(u, EndsWord(u, name), EndsWord(u, name), rest, end, top, "", rest', n)
    ensures Body(u, prev, s, end, top, buf).Ok? && ReadBack(u, before, prev, s, end, top, buf, rest', 0)
  {
    hide Look, Body, Pieces, Mirror, EndOk, EscapeAhead, PlainRun, EndsWord, Harmless;
    BodyVar(u, prev, s, end, top, buf, name, rest);
    ShortTokenText(u, prev, s, end, top);
    ScanVar(u, before, prev, s, end, top, buf, name, rest);
    if end.Some? { EndFirst(end, top); }
    var w := Written(u, EndsWord(u, name), rest, end, top);
    var t' := w + rest';
    FollowsIdent(rest, t');
    var s' := "$" + (name + t');
    SourcesCons(Same("$" + name), Pieces(u, EndsWord(u, name), rest, end, top));
    Assoc("$" + name, w, rest');
    Assoc("$", name, t');
    LookVar(u, prev, name, t', end, top);
    BodyVar(u, prev, s', end, top, buf, name, t');
    DollarMirror(u, prev, s, s', end, top);
  }

  lemma {:induction false} FollowsIdent(a: string, b: string)
    requires Follows(a, b) && (a == "" || !IdentChar(a[0]))
    ensures b == "" || !IdentChar(b[0])
  {
  }

  lemma {:induction false} DollarMirror(u: Unicode, prev: bool, s: string, s': string, end: Option<string>, top: bool)
    requires s != "" && s' != "" && s[0] == '$' && s'[0] == '$'
    ensures Mirror(u, prev, s, s', end, top, 0) && Follows(s, s')
  {
    hide Mirror, EndAt, Block, LetBlock;
    MirrorStart(u, prev, s, s', end, top);
  }

  lemma {:induction false} NestedRead(u: Unicode, header: Option<Header>, o: Opener, left: nat, end: Option<string>,
                                      top: bool, buf: string, rest': string, header': Option<Header>, left': nat)
    requires MarkerOk(u, o.marker) && Ident(o.language) && Nested(u, header, o, left, end, top, buf).Ok?
    requires EndOk(end, top)
    requires HarmlessNested(u, o, end, top) && Follows(Nested(u, header, o, left, end, top, buf).value.rest, rest')
    requires Node(header, Text("")) == Node(header', Text(""))
    ensures DecodeEnv(u, o.marker).Some? && MarkerOk(u, MarkerOf(DecodeEnv(u, o.marker).value))
    ensures var o' := Opener(o.language, MarkerOf(DecodeEnv(u, o.marker).value),
        Outputs(NestedPieces(u, o, end, top)) + rest');
      Nested(u, header', o', left', end, top, buf) ==
        Ok(Parsed(Nested(u, header, o, left, end, top, buf).value.parts, rest'))
    decreases |o.rest|, 1
  {
    hide Body, Pieces, Mirror, MarkerOf, ClosingTag, EndOk, Harmless, PlainRun, EscapeAhead, Follows, EndsWord, Number,
         Ident;
    var env := DecodeEnv(u, o.marker).value;
    MarkerNames(u, o.marker, env);
    var tag := ClosingTag(o.language, env);
    var inner := Body(u, false, o.rest, Some(tag), false, "").value;
    ExprEnd(o.language, env);
    var a, b := Pieces(u, false, o.rest, Some(tag), false), Pieces(u, EndsWord(u, tag), inner.rest, end, top);
    var n2 := HarmlessReads(u, EndsWord(u, tag), EndsWord(u, tag), inner.rest, end, top, "", rest');
    var r' := Outputs(b) + rest';
    var n1 := HarmlessReads(u, false, false, o.rest, Some(tag), false, "", r');
    SourcesAppend(a, b);
    Assoc(Outputs(a), Outputs(b), rest');
  }

  lemma {:induction false} ExprEnd(language: string, env: Env)
    requires Ident(language)
    ensures EndOk(Some(ClosingTag(language, env)), false)
  {
  }

  lemma {:induction false} OpenRead(u: Unicode, before: bool, prev: bool, s: string, end: Option<string>, top: bool,
                                    buf: string, rest': string, header: Option<Header>, o: Opener)
    requires s != "" && EndOk(end, top) && Look(u, prev, s, end, top) == Open(header, o)
    requires Body(u, prev, s, end, top, buf).Ok?
    requires Harmless(u, before, prev, s, end, top, buf) && Follows(Body(u, prev, s, end, top, buf).value.rest, rest')
    ensures ReadBack(u, before, prev, s, end, top, buf, rest', 0)
    decreases |o.rest|, 2
  {
    hide Body, Pieces, Look, Mirror, Nested, NestedPieces, HeadPieces, TagPieces, DecodeEnv, MarkerOf, Registered,
         HeaderOk, EndOk, Harmless, HarmlessNested, EscapeAhead, PlainRun, Written, Ident;
    BodyOpen(u, prev, s, end, top, buf, header, o);
    OpenNames(u, prev, s, end, top);
    ScanOpen(u, before, prev, s, end, top, buf, header, o);
    var header' := WrittenOpen(u, prev, s, end, top, buf, header, o, rest');
    var s' := Written(u, prev, s, end, top) + rest';
    var o' := Opener(o.language, MarkerOf(DecodeEnv(u, o.marker).value), Outputs(NestedPieces(u, o, end, top)) + rest');
    BodyOpen(u, prev, s', end, top, buf, header', o');
    NestedRead(u, header, o, if header.Some? then |header.value.rest| else |s|, end, top, buf, rest',
               header', if header'.Some? then |header'.value.rest| else |s'|);
    MirrorHead(u, prev, s, s', end, top, 0);
  }

  /** A source whose consumed escapes are harmless is parsed again from what is written of it. */
  lemma {:induction false} HarmlessReads(u: Unicode, before: bool, prev: bool, s: string, end: Option<string>,
                                         top: bool, buf: string, rest': string) returns (n: nat)
    requires Body(u, prev, s, end, top, buf).Ok? && EndOk(end, top) && prev == PrevAfter(u, before, buf)
    requires Harmless(u, before, prev, s, end, top, buf) && Follows(Body(u, prev, s, end, top, buf).value.rest, rest')
    ensures ReadBack(u, before, prev, s, end, top, buf, rest', n)
    decreases |s|, 0
  {
    hide Look, Body, EndOk, Harmless, ReadBack, Follows, EndsWord, Word, PrevAfter, Nested, PlainRun;
    n := 0;
    if s == "" {
      EndBackRead(u, before, prev, end, top, buf, rest');
    } else {
      var t := Look(u, prev, s, end, top);
      match t {
        case Close =>
          StepClose(u, prev, s, end, top, buf);
          CloseRead(u, before, prev, s, end, top, buf, rest');
        case Plain =>
          PiecesPlain(u, prev, s, end, top, buf);
          ScanPlain(u, before, prev, s, end, top, buf);
          PrevChar(u, before, buf, s[0]);
          n := HarmlessReads(u, before, Word(u, s[0]), s[1..], end, top, buf + [s[0]], rest');
          PlainRead(u, before, prev, s, end, top, buf, rest', n);
          n := n + 1;
        case Escape(text, rest) =>
          BodyEscape(u, prev, s, end, top, buf, text, rest);
          ScanEscape(u, before, prev, s, end, top, buf, text, rest);
          EscapeHead(u, prev, s, end, top);
          PrevJoin(u, before, buf, text);
          n := HarmlessReads(u, before, EndsWord(u, text), rest, end, top, buf + text, rest');
          EscapeRead(u, before, prev, s, end, top, buf, rest', n, text, rest);
          n := 0;
        case VarUse(name, rest) =>
          BodyVar(u, prev, s, end, top, buf, name, rest);
          ScanVar(u, before, prev, s, end, top, buf, name, rest);
          PrevNone(u, EndsWord(u, name));
          n := HarmlessReads(u, EndsWord(u, name), EndsWord(u, name), rest, end, top, "", rest');
          VarReadBack(u, before, prev, s, end, top, buf, rest', n, name, rest);
          n := 0;
        case Open(header, o) =>
          OpenRead(u, before, prev, s, end, top, buf, rest', header, o);
      }
    }
  }

  lemma {:induction false} PrevChar(u: Unicode, prev: bool, buf: string, c: char)
    ensures PrevAfter(u, prev, buf + [c]) == Word(u, c)
  {
    hide Word;
  }

  lemma {:induction false} PrevNone(u: Unicode, prev: bool)
    ensures PrevAfter(u, prev, "") == prev
  {
  }

  // ------------------------------------------------ what is read back was harmless

  /** After a word, the written text does not go on with a word unless text was gathered. */
  predicate Apart(before: bool, buf: string,
                  text: string) { buf == "" ==> !before || text == "" || !IdentChar(text[0]) }

  /** What is written of a body, behind the text gathered before it. */
  lemma {:induction false} AfterIs(u: Unicode, prev: bool, s: string, end: Option<string>, top: bool, buf: string,
                                   rest': string)
    requires Body(u, prev, s, end, top, buf).Ok?
    ensures After(Body(u, prev, s, end, top, buf).value.parts, end, rest') ==
      buf + (Written(u, prev, s, end, top) + rest')
  {
    hide Body, ReconstructAll, Outputs, Pieces;
    OutputSpelled(u, prev, s, end, top, buf);
    var r := ReconstructAll(Body(u, prev, s, end, top, buf).value.parts);
    Assoc(r, EndText(end), rest');
    Assoc(buf, Written(u, prev, s, end, top), rest');
  }

  /** The text that an escape went into, and what its being plain says. */
  lemma {:induction false} EscapeStayed(u: Unicode, before: bool, prev: bool, s: string, end: Option<string>, top: bool,
                                        buf: string, rest': string, text: string, rest: string)
    requires s != "" && Look(u, prev, s, end, top) == Escape(text, rest) && text != ""
    requires prev == PrevAfter(u, before, buf)
    requires Body(u, prev, s, end, top, buf).Ok?
    requires Stays(u, before, Body(u, prev, s, end, top, buf).value.parts, end, top, rest')
    ensures Body(u, EndsWord(u, text), rest, end, top, buf + text).Ok?
    ensures var y := Written(u, EndsWord(u, text), rest, end, top) + rest';
      PlainRun(u, before, buf, text + y, end, top) && PlainRun(u, prev, text, y, end, top)
  {
    hide Look, Body, Pieces, PlainRun, EndsWord, PrevAfter, After, Written;
    BodyEscape(u, prev, s, end, top, buf, text, rest);
    BufferKept(u, EndsWord(u, text), rest, end, top, buf + text);
    var parts := Body(u, prev, s, end, top, buf).value.parts;
    var T, tail := parts[0].text, After(parts[1..], end, rest');
    StaysText(u, before, parts, end, top, rest');
    var m := T[|buf + text|..];
    assert T == buf + text + m;
    AfterIs(u, EndsWord(u, text), rest, end, top, buf + text, rest');
    AfterCons(parts, end, rest');
    var y := Written(u, EndsWord(u, text), rest, end, top) + rest';
    Cancelled(buf + text, m, tail, y);
    Assoc(buf, text, m);
    RunSplit(u, before, buf, text + m, tail, end, top);
    RunSplit(u, prev, text, m, tail, end, top);
    Assoc(text, m, tail);
  }

  lemma {:induction false} Cancelled(a: string, m: string, tail: string, y: string)
    requires a + m + tail == a + y
    ensures m + tail == y
  {
    assert (a + m + tail)[|a|..] == m + tail && (a + y)[|a|..] == y;
  }

  lemma {:induction false} StaysText(u: Unicode, before: bool, parts: seq<Part>, end: Option<string>, top: bool,
                                     rest': string)
    requires parts != [] && parts[0].Text? && Stays(u, before, parts, end, top, rest')
    ensures PlainRun(u, before, parts[0].text, After(parts[1..], end, rest'), end, top)
    ensures Stays(u, EndsWord(u, parts[0].text), parts[1..], end, top, rest')
    ensures Reconstruct(parts[0]) == parts[0].text
  {
    hide PlainRun, EndsWord, After;
  }

  lemma {:induction false} OpenerStayed(u: Unicode, before: bool, prev: bool, s: string, end: Option<string>, top: bool,
                                        buf: string, rest': string, text: string, rest: string)
    requires s != "" && Look(u, prev, s, end, top) == Escape(text, rest) && OpensTag(text)
    requires prev == PrevAfter(u, before, buf)
    requires EndOk(end, top) && Body(u, prev, s, end, top, buf).Ok?
    requires Stays(u, before, Body(u, prev, s, end, top, buf).value.parts, end, top, rest')
    requires Apart(before, buf, After(Body(u, prev, s, end, top, buf).value.parts, end, rest'))
    ensures EndsWord(u, buf) && PlainRun(u, before, buf, text, end, top)
  {
    hide Look, Body, Pieces, PlainRun, Stays, IsOpener, EndOk, Word, After, Written;
    EscapeText(u, prev, s, end, top);
    if end.Some? { EndFirst(end, top); }
    EscapeStayed(u, before, prev, s, end, top, buf, rest', text, rest);
    BodyEscape(u, prev, s, end, top, buf, text, rest);
    var y := Written(u, EndsWord(u, text), rest, end, top) + rest';
    OpenerRun(u, text, y, end, top);
    OpenerOpens(u, text, y, end, top);
    RunWithin(u, before, buf, text, y, end, top);
    AfterIs(u, EndsWord(u, text), rest, end, top, buf + text, rest');
    if buf == "" {
      assert (buf + text + y)[0] == text[0];
      LetterIsIdent(text[0]);
    }
  }

  lemma {:induction false} LetterIsIdent(c: char)
    ensures Letter(c) ==> IdentChar(c)
  {
  }

  lemma {:induction false} CloserStayed(u: Unicode, before: bool, prev: bool, s: string, end: Option<string>, top: bool,
                                        buf: string, rest': string, text: string, rest: string)
    requires s != "" && Look(u, prev, s, end, top) == Escape(text, rest) && !OpensTag(text)
    requires prev == PrevAfter(u, before, buf)
    requires EndOk(end, top) && Body(u, prev, s, end, top, buf).Ok?
    requires Stays(u, before, Body(u, prev, s, end, top, buf).value.parts, end, top, rest')
    ensures EscapesOpener(u, EndsWord(u, text), rest, end, top)
  {
    hide Look, Body, Pieces, PlainRun, Stays, IsOpener, EndOk, Word, EndsWord, Written, Boundary;
    EscapeText(u, prev, s, end, top);
    CloserText(u, text, end, top);
    NotTop(end, top);
    EscapeStayed(u, before, prev, s, end, top, buf, rest', text, rest);
    GuardBoundary(u, prev, s, end, top, text, rest);
    WrittenStart(u, EndsWord(u, text), rest, end, buf + text, rest');
    var y := Written(u, EndsWord(u, text), rest, end, top) + rest';
    NotClosed(u, prev, text, y, end);
    BoundaryHeads(text, rest, y);
    DroppedFirst(u, EndsWord(u, text), rest, end);
  }

  lemma {:induction false} NotClosed(u: Unicode, prev: bool, e: string, y: string, end: Option<string>)
    requires end == Some(e) && e != "" && PlainRun(u, prev, e, y, end, false)
    ensures !Boundary(e, y)
  {
    hide Look, Boundary;
    assert Look(u, prev, e + y, end, false).Plain?;
    Parts(e, y);
    EndAtIs(e + y, e);
    PlainNotClose(u, prev, e + y, end, false);
  }

  lemma {:induction false} PlainNotClose(u: Unicode, prev: bool, s: string, end: Option<string>, top: bool)
    requires s != "" && Look(u, prev, s, end, top).Plain? && end.Some?
    ensures !EndAt(s, end.value)
  {
    hide EndAt, LetBlock, Inline, Backslash;
  }

  lemma {:induction false} BoundaryHeads(e: string, a: string, b: string)
    requires Boundary(e, a) && !Boundary(e, b) && a != "" && b != ""
    ensures b[0] != a[0] && b[0] != ')'
  {
  }

  lemma {:induction false} DroppedFirst(u: Unicode, prev: bool, s: string, end: Option<string>)
    requires s != ""
    ensures
      var ps := Pieces(u, prev, s, end, false);
      ps != [] && ps[0].Dropped? && !GuardsCloser(ps[0]) && (end.Some? ==> end.value != "") ==>
        EscapesOpener(u, prev, s, end, false)
  {
    hide Look, HeadPieces, TagPieces, NestedPieces;
    var t := Look(u, prev, s, end, false);
    if t.Escape? && (end.Some? ==> end.value != "") { EscapeNonEmpty(u, prev, s, end, false); }
    if t.Open? {
      OpenNames(u, prev, s, end, false);
      FirstOfOpen(u, t.header, t.opener);
    }
  }

  lemma {:induction false} FirstOfOpen(u: Unicode, header: Option<Header>, o: Opener)
    requires MarkerOk(u, o.marker)
    ensures var ps := HeadPieces(header) + TagPieces(u, o); ps != [] && !ps[0].Dropped?
  {
  }

  lemma {:induction false} StaysFlush(u: Unicode, before: bool, buf: string, parts: seq<Part>, end: Option<string>,
                                      top: bool, rest': string)
    requires Stays(u, before, Flush(buf) + parts, end, top, rest')
    ensures Stays(u, PrevAfter(u, before, buf), parts, end, top, rest')
  {
    hide PlainRun, EndsWord, After;
    if buf == "" {
      assert Flush(buf) + parts == parts;
    } else {
      var all := Flush(buf) + parts;
      assert all[0] == Text(buf) && all[1..] == parts;
      StaysText(u, before, all, end, top, rest');
    }
  }

  /** A body that stays leaves its closing tag with a boundary. */
  lemma {:induction false} StaysBoundary(u: Unicode, prev: bool, parts: seq<Part>, end: Option<string>, top: bool,
                                         rest': string)
    requires Stays(u, prev, parts, end, top, rest') && end.Some?
    ensures Boundary(end.value, rest')
    decreases |parts|
  {
    hide PlainRun, EndsWord, After, Boundary;
    if parts != [] {
      match parts[0]
      case Text(x) => StaysBoundary(u, EndsWord(u, x), parts[1..], end, top, rest');
      case Var(name) => StaysBoundary(u, EndsWord(u, name), parts[1..], end, top, rest');
      case Expr(language, env, _) => StaysBoundary(u, EndsTag(u, language, env), parts[1..], end, top, rest');
      case Let(_, expr) => StaysBoundary(u, EndsTag(u, expr.language, expr.env), parts[1..], end, top, rest');
    }
  }

  lemma {:induction false} BoundaryApart(u: Unicode, tag: string, tail: string)
    requires Boundary(tag, tail)
    ensures Apart(EndsWord(u, tag), "", tail)
  {
    assert !Word(u, ']');
  }

  lemma {:induction false} VarStayed(u: Unicode, before: bool, buf: string, name: string, more: seq<Part>,
                                     end: Option<string>, top: bool, rest': string)
    requires Stays(u, before, Flush(buf) + [Var(name)] + more, end, top, rest')
    ensures Stays(u, EndsWord(u, name), more, end, top, rest') && Apart(EndsWord(u, name), "", After(more, end, rest'))
  {
    hide PlainRun, EndsWord, After, Flush;
    var parts := [Var(name)] + more;
    assert Flush(buf) + [Var(name)] + more == Flush(buf) + parts;
    StaysFlush(u, before, buf, parts, end, top, rest');
    assert parts[0] == Var(name) && parts[1..] == more;
  }

  lemma {:induction false} NodeStayed(u: Unicode, before: bool, buf: string, header: Option<Header>, language: string,
                                      env: Env, body: seq<Part>,
                                      more: seq<Part>, end: Option<string>, top: bool, rest': string)
    requires Stays(u, before, Flush(buf) + [Node(header, Expr(language, env, body))] + more, end, top, rest')
    ensures Stays(u, false, body, Some(ClosingTag(language, env)), false, After(more, end, rest'))
    ensures Stays(u, EndsTag(u, language, env), more, end, top, rest')
    ensures Apart(EndsTag(u, language, env), "", After(more, end, rest'))
  {
    hide PlainRun, EndsWord, After, Flush, ClosingTag, Boundary;
    var node := Node(header, Expr(language, env, body));
    var parts := [node] + more;
    assert Flush(buf) + [node] + more == Flush(buf) + parts;
    StaysFlush(u, before, buf, parts, end, top, rest');
    assert parts[0] == node && parts[1..] == more;
    StaysBoundary(u, false, body, Some(ClosingTag(language, env)), false, After(more, end, rest'));
    BoundaryApart(u, ClosingTag(language, env), After(more, end, rest'));
  }

  lemma {:induction false} NestedStayed(u: Unicode, before: bool, header: Option<Header>, o: Opener, left: nat,
                                        end: Option<string>, top: bool, buf: string, rest': string)
    requires MarkerOk(u, o.marker) && Ident(o.language) && Nested(u, header, o, left, end, top, buf).Ok?
    requires EndOk(end, top)
    requires Stays(u, before, Nested(u, header, o, left, end, top, buf).value.parts, end, top, rest')
    ensures HarmlessNested(u, o, end, top)
    decreases |o.rest|, 1
  {
    hide Body, ClosingTag, EndOk, Harmless, Stays, EndsWord, Number, Ident, Node, Flush, After, Apart;
    var env := DecodeEnv(u, o.marker).value;
    var tag := ClosingTag(o.language, env);
    ExprEnd(o.language, env);
    var inner := Body(u, false, o.rest, Some(tag), false, "").value;
    var more := Body(u, EndsWord(u, tag), inner.rest, end, top, "").value.parts;
    NodeStayed(u, before, buf, header, o.language, env, inner.parts, more, end, top, rest');
    PrevNone(u, false);
    PrevNone(u, EndsWord(u, tag));
    ApartStart("", After(inner.parts, Some(tag), After(more, end, rest')));
    StaysHarmless(u, false, false, o.rest, Some(tag), false, "", After(more, end, rest'));
    StaysHarmless(u, EndsWord(u, tag), EndsWord(u, tag), inner.rest, end, top, "", rest');
  }

  lemma {:induction false} ApartStart(buf: string, text: string)
    ensures Apart(false, buf, text)
  {
  }

  lemma {:induction false} ApartText(before: bool, buf: string, text: string)
    requires buf != ""
    ensures Apart(before, buf, text)
  {
  }

  /** Every consumed escape of a source that is read back was harmless. */
  lemma {:induction false} StaysHarmless(u: Unicode, before: bool, prev: bool, s: string, end: Option<string>,
                                         top: bool, buf: string, rest': string)
    requires Body(u, prev, s, end, top, buf).Ok? && EndOk(end, top) && prev == PrevAfter(u, before, buf)
    requires Stays(u, before, Body(u, prev, s, end, top, buf).value.parts, end, top, rest')
    requires Apart(before, buf, After(Body(u, prev, s, end, top, buf).value.parts, end, rest'))
    ensures Harmless(u, before, prev, s, end, top, buf)
    decreases |s|, 0
  {
    hide Look, Body, EndOk, Harmless, Stays, EndsWord, Word, PrevAfter, Nested, PlainRun, Apart, After, EscapesOpener,
         OpensTag;
    if s == "" {
      ScanClose(u, before, prev, s, end, top, buf);
    } else {
      var t := Look(u, prev, s, end, top);
      match t {
        case Close => ScanClose(u, before, prev, s, end, top, buf);
        case Plain =>
          PiecesPlain(u, prev, s, end, top, buf);
          ScanPlain(u, before, prev, s, end, top, buf);
          PrevChar(u, before, buf, s[0]);
          ApartText(before, buf + [s[0]], After(Body(u, prev, s, end, top, buf).value.parts, end, rest'));
          StaysHarmless(u, before, Word(u, s[0]), s[1..], end, top, buf + [s[0]], rest');
        case Escape(text, rest) =>
          BodyEscape(u, prev, s, end, top, buf, text, rest);
          ScanEscape(u, before, prev, s, end, top, buf, text, rest);
          EscapeHead(u, prev, s, end, top);
          PrevJoin(u, before, buf, text);
          if OpensTag(text) {
            OpenerStayed(u, before, prev, s, end, top, buf, rest', text, rest);
          } else {
            CloserStayed(u, before, prev, s, end, top, buf, rest', text, rest);
          }
          ApartText(before, buf + text, After(Body(u, prev, s, end, top, buf).value.parts, end, rest'));
          StaysHarmless(u, before, EndsWord(u, text), rest, end, top, buf + text, rest');
        case VarUse(name, rest) =>
          BodyVar(u, prev, s, end, top, buf, name, rest);
          ScanVar(u, before, prev, s, end, top, buf, name, rest);
          PrevNone(u, EndsWord(u, name));
          VarStayed(u, before, buf, name, Body(u, EndsWord(u, name), rest, end, top, "").value.parts, end, top, rest');
          StaysHarmless(u, EndsWord(u, name), EndsWord(u, name), rest, end, top, "", rest');
        case Open(header, o) =>
          BodyOpen(u, prev, s, end, top, buf, header, o);
          OpenNames(u, prev, s, end, top);
          ScanOpen(u, before, prev, s, end, top, buf, header, o);
          NestedStayed(u, before, header, o, if header.Some? then |header.value.rest| else |s|, end, top, buf, rest');
      }
    }
  }

  /** For every source that parses: its reconstruction parses to the same tree exactly when every
      consumed escape is harmless, each told by the text before it and the tag it guarded. */
  lemma {:induction false} ReparsesIffHarmless(u: Unicode, src: string)
    requires ParseDocument(u, src).Ok?
    ensures ParseDocument(u, ReconstructAll(ParseDocument(u, src).value)) == ParseDocument(u, src)
       <==> Harmless(u, false, false, src, None, true, "")
  {
    hide Body, Harmless, ReconstructAll, Stays, Outputs, Sources, Pieces, PlainRun, EscapeAhead, Mirror;
    var parts := ParseDocument(u, src).value;
    ReconstructionExact(u, src);
    ReparsesIff(u, src);
    PrevNone(u, false);
    TopIsOk();
    if Harmless(u, false, false, src, None, true, "") {
      var n := HarmlessReads(u, false, false, src, None, true, "", "");
      var w := Written(u, false, src, None, true);
      assert w + "" == w;
    }
    if Stays(u, false, parts, None, true, "") {
      ApartStart("", After(parts, None, ""));
      StaysHarmless(u, false, false, src, None, true, "", "");
    }
  }

  lemma {:induction false} TopIsOk()
    ensures EndOk(None, true)
  {
  }
}
