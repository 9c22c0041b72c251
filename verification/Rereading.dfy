/** Exactly when a reconstruction is read back as the tree it was written from: a condition on
    the tree, checked one token at a time. */
module Rereading {
  import opened Wrappers
  import opened Syntax
  import opened SourcePieces
  import opened Reparse
  import opened Escapes

  // ------------------------------------------------------------------- trees that parse

  /** A tag whose environment has a spelling. */
  predicate GoodTag(u: Unicode, language: string, env: Env)
  {
    && Registered(language) && Ident(language) && MarkerOk(u, MarkerOf(env))
    && DecodeEnv(u, MarkerOf(env)) == Some(env) && Marker(env) == MarkerText(MarkerOf(env))
  }

  predicate EndsTag(u: Unicode, language: string, env: Env) { EndsWord(u, ClosingTag(language, env)) }

  /** What every parsed body is like: texts are not empty and do not meet, tags are known, and
      no expression stands right after a word. `prev` says that a word character precedes. */
  predicate Normal(u: Unicode, prev: bool, parts: seq<Part>, top: bool)
    decreases parts
  {
    if parts == [] then true
    else
      match parts[0]
      case Text(x) => x != "" && (|parts| > 1 ==> !parts[1].Text?) && Normal(u, EndsWord(u, x), parts[1..], top)
      case Var(name) => Ident(name) && Normal(u, EndsWord(u, name), parts[1..], top)
      case Expr(language, env, body) =>
        && !prev && GoodTag(u, language, env) && Normal(u, false, body, false)
        && Normal(u, EndsTag(u, language, env), parts[1..], top)
      case Let(name, expr) =>
        && top && Ident(name) && expr.Expr? && GoodTag(u, expr.language, expr.env) && Normal(u, false, expr.body, false)
        && Normal(u, EndsTag(u, expr.language, expr.env), parts[1..], top)
  }

  // ------------------------------------------------------------------- the condition

  /** No character of `x`, with `tail` behind it, starts a token. */
  predicate PlainRun(u: Unicode, prev: bool, x: string, tail: string, end: Option<string>, top: bool)
    decreases |x|
  {
    x == "" || (Look(u, prev, x + tail, end, top).Plain? && PlainRun(u, Word(u, x[0]), x[1..], tail, end, top))
  }

  /** The text written of a body, its closing tag, and what follows. */
  function After(parts: seq<Part>, end: Option<string>, rest: string): string
  {
    ReconstructAll(parts) + (EndText(end) + rest)
  }

  /** In the written text every text stays text, every reference ends where its name does, and
      every closing tag is followed by something that lets it close. */
  predicate Stays(u: Unicode, prev: bool, parts: seq<Part>, end: Option<string>, top: bool, rest: string)
    decreases parts
  {
    if parts == [] then end.Some? ==> Boundary(end.value, rest)
    else
      var tail := After(parts[1..], end, rest);
      match parts[0]
      case Text(x) => PlainRun(u, prev, x, tail, end, top) && Stays(u, EndsWord(u, x), parts[1..], end, top, rest)
      case Var(name) => (tail == "" || !IdentChar(tail[0])) && Stays(u, EndsWord(u, name), parts[1..], end, top, rest)
      case Expr(language, env, body) =>
        && Stays(u, false, body, Some(ClosingTag(language, env)), false, tail)
        && Stays(u, EndsTag(u, language, env), parts[1..], end, top, rest)
      case Let(_, expr) =>
        expr.Expr?
        && Stays(u, false, expr.body, Some(ClosingTag(expr.language, expr.env)), false, tail)
        && Stays(u, EndsTag(u, expr.language, expr.env), parts[1..], end, top, rest)
  }

  // ------------------------------------------------------------------- one part written

  lemma {:induction false} AfterCons(parts: seq<Part>, end: Option<string>, rest: string)
    requires parts != []
    ensures After(parts, end, rest) == Reconstruct(parts[0]) + After(parts[1..], end, rest)
  {
    hide Reconstruct;
    Assoc(Reconstruct(parts[0]), ReconstructAll(parts[1..]), EndText(end) + rest);
  }

  /** An expression written with what follows it. */
  lemma {:induction false} ExprText(language: string, env: Env, body: seq<Part>, tail: string)
    ensures Reconstruct(Expr(language, env, body)) + tail
         == OpeningTag(language, env) + After(body, Some(ClosingTag(language, env)), tail)
  {
    hide OpeningTag, ClosingTag, ReconstructAll;
    var a, b, c := OpeningTag(language, env), ReconstructAll(body), ClosingTag(language, env);
    Assoc(a + b, c, tail);
    Assoc(a, b, c + tail);
  }

  lemma {:induction false} LetText(name: string, expr: Part, tail: string)
    ensures Reconstruct(Let(name, expr)) + tail == "let " + name + " = " + (Reconstruct(expr) + tail)
  {
    hide Reconstruct;
    LetReconstruct(name, expr);
    Assoc("let " + name + " = ", Reconstruct(expr), tail);
  }

  lemma {:induction false} LetReconstruct(name: string, expr: Part)
    ensures Reconstruct(Let(name, expr)) == "let " + name + " = " + Reconstruct(expr)
  {
  }

  lemma {:induction false} TagBlock(u: Unicode, language: string, env: Env, t: string)
    requires GoodTag(u, language, env)
    ensures Block(u, OpeningTag(language, env) + t) == Some(Opener(language, MarkerOf(env), t))
  {
    hide OpenAt, Registered, MarkerOf, Marker, MarkerText, DecodeEnv;
    OpenComplete(u, language, MarkerOf(env), t);
  }

  /** Where a written expression starts, it is opened. */
  lemma {:induction false} ExprOpens(u: Unicode, language: string, env: Env, t: string, end: Option<string>, top: bool)
    requires GoodTag(u, language, env) && EndOk(end, top)
    ensures var s := OpeningTag(language, env) + t;
      s != "" && Look(u, false, s, end, top) == Open(None, Opener(language, MarkerOf(env), t))
  {
    hide OpeningTag, MarkerOf, Block, LetBlock, Look, GoodTag;
    var s := OpeningTag(language, env) + t;
    TagBlock(u, language, env, t);
    BlockHead(u, s);
    BlockNotLet(u, s);
    if end.Some? { EndFirst(end, top); }
    LookOpen(u, s, end, top, Opener(language, MarkerOf(env), t));
  }

  lemma {:induction false} LetOpens(u: Unicode, prev: bool, name: string, language: string, env: Env, t: string)
    requires GoodTag(u, language, env) && Ident(name)
    ensures var v := OpeningTag(language, env) + t;
      var s := "let " + name + " = " + v;
      s != "" && Look(u, prev, s, None, true) ==
        Open(Some(Header(name, " ", " ", " ", v)), Opener(language, MarkerOf(env), t))
  {
    hide OpeningTag, MarkerOf, Block, LetBlock, Look, GoodTag, HeaderText, HeaderOk, LetAt;
    var v := OpeningTag(language, env) + t;
    TagBlock(u, language, env, t);
    CanonicalHeader(u, name, v);
    LetBlockIntro(u, Header(name, " ", " ", " ", v));
    LookLet(u, prev, "let " + name + " = " + v);
  }

  /** Reading a written expression: its body, and then what follows. */
  lemma {:induction false} ReadExpr(u: Unicode, prev: bool, s: string, end: Option<string>, top: bool, buf: string,
                                    header: Option<Header>, language: string, env: Env, t: string)
    requires GoodTag(u, language, env) && s != ""
    requires Look(u, prev, s, end, top) == Open(header, Opener(language, MarkerOf(env), t))
    ensures
      var tag := ClosingTag(language, env);
      var inner := Body(u, false, t, Some(tag), false, "");
      Body(u, prev, s, end, top, buf)
      == if inner.Err? then Err(inner.error)
         else Prepend(Flush(buf) + [Node(header, Expr(language, env, inner.value.parts))],
                      Body(u, EndsTag(u, language, env), inner.value.rest, end, top, ""))
  {
    BodyOpen(u, prev, s, end, top, buf, header, Opener(language, MarkerOf(env), t));
    hide Look, Body, ClosingTag, MarkerOf, EndsWord, DecodeEnv, Marker;
  }

  // ---------------------------------------------------------------- flushing

  predicate Ends(u: Unicode, prev: bool, s: string, end: Option<string>, top: bool)
  {
    s == "" || (var t := Look(u, prev, s, end, top); t.Close? || t.VarUse? || t.Open?)
  }

  /** Where no more text follows, the text so far is flushed. */
  lemma {:induction false} FlushFirst(u: Unicode, prev: bool, s: string, end: Option<string>, top: bool, buf: string)
    requires Ends(u, prev, s, end, top)
    ensures Body(u, prev, s, end, top, buf) == Prepend(Flush(buf), Body(u, prev, s, end, top, ""))
  {
    hide Look, EndsWord, Word;
    assert Flush("") == [] && Flush(buf) + [] == Flush(buf);
    if s != "" {
      var t := Look(u, prev, s, end, top);
      if t.VarUse? {
        Joined(buf, Var(t.name), Body(u, EndsWord(u, t.name), t.rest, end, top, ""));
      } else if t.Open? {
        NestedFlush(u, t.header, t.opener, if t.header.Some? then |t.header.value.rest| else |s|, end, top, buf);
      }
    }
  }

  lemma {:induction false} Joined(buf: string, p: Part, r: Result<Parsed, Failure>)
    ensures Prepend(Flush(buf) + [p], r) == Prepend(Flush(buf), Prepend(Flush("") + [p], r))
  {
    assert Flush("") + [p] == [p];
    if r.Ok? { assert Flush(buf) + [p] + r.value.parts == Flush(buf) + ([p] + r.value.parts); }
  }

  lemma {:induction false} NestedFlush(u: Unicode, header: Option<Header>, o: Opener, left: nat, end: Option<string>,
                                       top: bool, buf: string)
    requires MarkerOk(u, o.marker)
    ensures Nested(u, header, o, left, end, top, buf) == Prepend(Flush(buf), Nested(u, header, o, left, end, top, ""))
  {
    hide Body, EndsWord, ClosingTag, Flush, Prepend;
    var env := DecodeEnv(u, o.marker);
    PrependErr(Flush(buf));
    if env.Some? {
      var tag := ClosingTag(o.language, env.value);
      var inner := Body(u, false, o.rest, Some(tag), false, "");
      if inner.Ok? {
        Joined(buf, Node(header, Expr(o.language, env.value, inner.value.parts)),
          Body(u, EndsWord(u, tag), inner.value.rest, end, top, ""));
      }
    }
  }

  lemma {:induction false} PrependErr(ps: seq<Part>)
    ensures forall e :: Prepend(ps, Err(e)) == Err(e)
  {
  }

  predicate PrevAfter(u: Unicode, prev: bool, x: string) { if x == "" then prev else EndsWord(u, x) }

  /** A run of plain characters is gathered. */
  lemma {:induction false} RunRead(u: Unicode, prev: bool, x: string, tail: string, end: Option<string>, top: bool,
                                   buf: string)
    requires PlainRun(u, prev, x, tail, end, top)
    ensures Body(u, prev, x + tail, end, top, buf) == Body(u, PrevAfter(u, prev, x), tail, end, top, buf + x)
    decreases |x|
  {
    hide Body, Look;
    if x == "" {
      assert x + tail == tail && buf + x == buf;
    } else {
      var s := x + tail;
      assert s[0] == x[0] && s[1..] == x[1..] + tail && buf + [x[0]] + x[1..] == buf + x;
      PiecesPlain(u, prev, s, end, top, buf);
      RunRead(u, Word(u, x[0]), x[1..], tail, end, top, buf + [x[0]]);
      assert x[1..] == "" ==> x[|x| - 1] == x[0];
      assert x[1..] != "" ==> x[1..][|x[1..]| - 1] == x[|x| - 1];
    }
  }

  // ------------------------------------------------------------ what stays is read back

  /** What does not start with text starts with a token, or is the end. */
  lemma {:induction false} StaysEnds(u: Unicode, prev: bool, parts: seq<Part>, end: Option<string>, top: bool,
                                     rest: string)
    requires Normal(u, prev, parts, top) && Stays(u, prev, parts, end, top, rest) && EndOk(end, top)
    requires (end.None? ==> rest == "") && (parts != [] ==> !parts[0].Text?)
    ensures Ends(u, prev, After(parts, end, rest), end, top)
  {
    hide Look, EndOk, GoodTag, ClosingTag, OpeningTag;
    if parts == [] {
      EndsHere(u, prev, end, top, rest);
    } else {
      var tail := After(parts[1..], end, rest);
      AfterCons(parts, end, rest);
      match parts[0]
      case Var(name) =>
        if end.Some? { EndFirst(end, top); }
        Assoc("$", name, tail);
        LookVar(u, prev, name, tail, end, top);
      case Expr(language, env, body) =>
        ExprText(language, env, body, tail);
        ExprOpens(u, language, env, After(body, Some(ClosingTag(language, env)), tail), end, top);
      case Let(name, expr) =>
        LetText(name, expr, tail);
        ExprText(expr.language, expr.env, expr.body, tail);
        TopEnd(end, top);
        LetOpens(u, prev, name, expr.language, expr.env,
          After(expr.body, Some(ClosingTag(expr.language, expr.env)), tail));
    }
  }

  lemma {:induction false} TopEnd(end: Option<string>, top: bool)
    requires EndOk(end, top)
    ensures top ==> end == None
  {
  }

  lemma {:induction false} EndsHere(u: Unicode, prev: bool, end: Option<string>, top: bool, rest: string)
    requires EndOk(end, top) && (end.None? ==> rest == "") && (end.Some? ==> Boundary(end.value, rest))
    ensures var s := After([], end, rest);
      && Ends(u, prev, s, end, top)
      && Body(u, prev, s, end, top, "") == Ok(Parsed([], rest))
  {
    var s := After([], end, rest);
    assert ReconstructAll([]) == "" && s == EndText(end) + rest;
    if end.Some? {
      var e := end.value;
      EndFirst(end, top);
      Parts(e, rest);
      assert EndAt(s, e);
      hide EndOk, Boundary, Backslash, LetBlock, Inline;
      BodyClose(u, prev, s, end, top, "");
    }
  }

  /** Where everything stays, the written text is read back. */
  lemma {:induction false} StaysRead(u: Unicode, prev: bool, parts: seq<Part>, end: Option<string>, top: bool,
                                     rest: string)
    requires Normal(u, prev, parts, top) && Stays(u, prev, parts, end, top, rest) && EndOk(end, top)
    requires (end.None? ==> rest == "")
    ensures Body(u, prev, After(parts, end, rest), end, top, "") == Ok(Parsed(parts, rest))
    decreases parts
  {
    hide Look, Body, EndOk, GoodTag, ClosingTag, OpeningTag, PlainRun, EndsWord, After, Ends, EndsTag;
    if parts == [] {
      EndsHere(u, prev, end, top, rest);
    } else {
      var tail, more := After(parts[1..], end, rest), parts[1..];
      AfterCons(parts, end, rest);
      assert [parts[0]] + more == parts;
      match parts[0]
      case Text(x) =>
        StaysRead(u, EndsWord(u, x), more, end, top, rest);
        StaysEnds(u, EndsWord(u, x), more, end, top, rest);
        TextRead(u, prev, x, tail, end, top, more, rest);
      case Var(name) =>
        StaysRead(u, EndsWord(u, name), more, end, top, rest);
        VarRead(u, prev, name, tail, end, top, more, rest);
      case Expr(language, env, body) =>
        var tag := ClosingTag(language, env);
        TagEndOk(u, language, env);
        StaysRead(u, false, body, Some(tag), false, tail);
        StaysRead(u, EndsTag(u, language, env), more, end, top, rest);
        ExprText(language, env, body, tail);
        ExprRead(u, language, env, body, tail, end, top, more, rest);
      case Let(name, expr) =>
        var tag := ClosingTag(expr.language, expr.env);
        TagEndOk(u, expr.language, expr.env);
        StaysRead(u, false, expr.body, Some(tag), false, tail);
        StaysRead(u, EndsTag(u, expr.language, expr.env), more, end, top, rest);
        ExprText(expr.language, expr.env, expr.body, tail);
        LetText(name, expr, tail);
        TopEnd(end, top);
        LetRead(u, prev, name, expr.language, expr.env, expr.body, tail, more, rest);
    }
  }

  lemma {:induction false} TextRead(u: Unicode, prev: bool, x: string, tail: string, end: Option<string>, top: bool,
                                    more: seq<Part>, rest: string)
    requires x != "" && PlainRun(u, prev, x, tail, end, top) && Ends(u, EndsWord(u, x), tail, end, top)
    requires Body(u, EndsWord(u, x), tail, end, top, "") == Ok(Parsed(more, rest))
    ensures Body(u, prev, x + tail, end, top, "") == Ok(Parsed([Text(x)] + more, rest))
  {
    hide Body, EndsWord, PlainRun, Ends;
    RunRead(u, prev, x, tail, end, top, "");
    assert "" + x == x;
    FlushFirst(u, EndsWord(u, x), tail, end, top, x);
  }

  lemma {:induction false} VarRead(u: Unicode, prev: bool, name: string, tail: string, end: Option<string>, top: bool,
                                   more: seq<Part>, rest: string)
    requires EndOk(end, top) && Ident(name) && (tail == "" || !IdentChar(tail[0]))
    requires Body(u, EndsWord(u, name), tail, end, top, "") == Ok(Parsed(more, rest))
    ensures Body(u, prev, "$" + name + tail, end, top, "") == Ok(Parsed([Var(name)] + more, rest))
  {
    hide Body, Look, EndOk, EndsWord;
    if end.Some? { EndFirst(end, top); }
    Assoc("$", name, tail);
    LookVar(u, prev, name, tail, end, top);
    BodyVar(u, prev, "$" + (name + tail), end, top, "", name, tail);
    assert Flush("") + [Var(name)] == [Var(name)];
  }

  lemma {:induction false} TagEndOk(u: Unicode, language: string, env: Env)
    requires GoodTag(u, language, env)
    ensures EndOk(Some(ClosingTag(language, env)), false)
  {
  }

  lemma {:induction false} ExprRead(u: Unicode, language: string, env: Env, body: seq<Part>, tail: string,
                                    end: Option<string>, top: bool, more: seq<Part>, rest: string)
    requires GoodTag(u, language, env) && EndOk(end, top)
    requires Body(u, false, After(body, Some(ClosingTag(language, env)), tail),
                  Some(ClosingTag(language, env)), false, "")
          == Ok(Parsed(body, tail))
    requires Body(u, EndsTag(u, language, env), tail, end, top, "") == Ok(Parsed(more, rest))
    ensures Body(u, false, OpeningTag(language, env) + After(body, Some(ClosingTag(language, env)), tail), end, top, "")
         == Ok(Parsed([Expr(language, env, body)] + more, rest))
  {
    hide Look, Body, EndOk, GoodTag, ClosingTag, OpeningTag, EndsTag, After;
    var t := After(body, Some(ClosingTag(language, env)), tail);
    ExprOpens(u, language, env, t, end, top);
    ReadExpr(u, false, OpeningTag(language, env) + t, end, top, "", None, language, env, t);
    assert Flush("") + [Expr(language, env, body)] == [Expr(language, env, body)];
  }

  lemma {:induction false} LetRead(u: Unicode, prev: bool, name: string, language: string, env: Env, body: seq<Part>,
                                   tail: string, more: seq<Part>, rest: string)
    requires GoodTag(u, language, env) && Ident(name)
    requires Body(u, false, After(body, Some(ClosingTag(language, env)), tail),
                  Some(ClosingTag(language, env)), false, "")
          == Ok(Parsed(body, tail))
    requires Body(u, EndsTag(u, language, env), tail, None, true, "") == Ok(Parsed(more, rest))
    ensures Body(u, prev, "let " + name + " = " + (OpeningTag(language, env) +
        After(body, Some(ClosingTag(language, env)), tail)), None, true, "")
         == Ok(Parsed([Let(name, Expr(language, env, body))] + more, rest))
  {
    hide Look, Body, GoodTag, ClosingTag, OpeningTag, EndsTag, After;
    var t := After(body, Some(ClosingTag(language, env)), tail);
    var v := OpeningTag(language, env) + t;
    LetOpens(u, prev, name, language, env, t);
    ReadExpr(u, prev, "let " + name + " = " + v, None, true, "", Some(Header(name, " ", " ", " ", v)), language, env,
      t);
    var node := Let(name, Expr(language, env, body));
    assert Flush("") + [node] == [node];
  }

  // ------------------------------------------------------ what is read back has stayed

  lemma {:induction false} NoTextFirst(u: Unicode, prev: bool, s: string, end: Option<string>, top: bool)
    requires Ends(u, prev, s, end, top) && Body(u, prev, s, end, top, "").Ok?
    ensures var ps := Body(u, prev, s, end, top, "").value.parts; ps == [] || !ps[0].Text?
  {
    hide Look, EndsWord, ClosingTag;
    assert Flush("") == [];
    if s != "" && Look(u, prev, s, end, top).VarUse? {
      var t := Look(u, prev, s, end, top);
      BodyVar(u, prev, s, end, top, "", t.name, t.rest);
    }
  }

  lemma {:induction false} EscapeHead(u: Unicode, prev: bool, s: string, end: Option<string>, top: bool)
    requires s != "" && Look(u, prev, s, end, top).Escape? && EndOk(end, top)
    ensures var text := Look(u, prev, s, end, top).text; s[0] == '\\' && text != "" && text[0] != '\\'
  {
    LookBackslash(u, prev, s, end, top);
    EscapeText(u, prev, s, end, top);
    hide Look, IsOpener;
    var text := Look(u, prev, s, end, top).text;
    if end.Some? && text == end.value { EndFirst(end, top); } else { OpenerLetter(u, text); }
  }

  lemma {:induction false} OtherText(buf: string, a: string, b: string)
    requires a != "" && b != "" && a[0] != b[0]
    ensures !(buf + a <= buf + b)
  {
    assert (buf + a)[|buf|] == a[0] && (buf + b)[|buf|] == b[0];
  }

  /** What was read as the start of one text was read as text. */
  lemma {:induction false} TextMustStay(u: Unicode, prev: bool, x: string, tail: string, end: Option<string>, top: bool,
                                        buf: string)
    requires EndOk(end, top) && Body(u, prev, x + tail, end, top, buf).Ok?
    requires var ps := Body(u, prev, x + tail, end, top, buf).value.parts; ps != [] && ps[0] == Text(buf + x)
    ensures PlainRun(u, prev, x, tail, end, top)
    decreases |x|
  {
    hide Look, Body, EndOk, EndsWord, Word;
    if x != "" {
      var s := x + tail;
      var t := Look(u, prev, s, end, top);
      assert s[0] == x[0];
      if t.Plain? {
        PiecesPlain(u, prev, s, end, top, buf);
        assert s[1..] == x[1..] + tail && buf + [x[0]] + x[1..] == buf + x;
        TextMustStay(u, Word(u, x[0]), x[1..], tail, end, top, buf + [x[0]]);
      } else if t.Escape? {
        EscapeHead(u, prev, s, end, top);
        BodyEscape(u, prev, s, end, top, buf, t.text, t.rest);
        OtherText(buf, t.text, x);
        BufferKept(u, EndsWord(u, t.text), t.rest, end, top, buf + t.text);
      } else {
        FlushFirst(u, prev, s, end, top, buf);
        NoTextFirst(u, prev, s, end, top);
      }
    }
  }

  /** Text that ends is followed by a token, or by nothing. */
  lemma {:induction false} TextEnds(u: Unicode, prev: bool, s: string, end: Option<string>, top: bool, x: string)
    requires EndOk(end, top) && x != "" && Body(u, prev, s, end, top, x).Ok?
    requires var ps := Body(u, prev, s, end, top, x).value.parts; ps != [] && ps[0] == Text(x)
    ensures Ends(u, prev, s, end, top)
  {
    hide Look, Body, EndOk, EndsWord, Word;
    if s != "" {
      var t := Look(u, prev, s, end, top);
      if t.Plain? {
        PiecesPlain(u, prev, s, end, top, x);
        BufferKept(u, Word(u, s[0]), s[1..], end, top, x + [s[0]]);
      } else if t.Escape? {
        EscapeHead(u, prev, s, end, top);
        BodyEscape(u, prev, s, end, top, x, t.text, t.rest);
        BufferKept(u, EndsWord(u, t.text), t.rest, end, top, x + t.text);
      }
    }
  }

  lemma {:induction false} TextReadOn(u: Unicode, prev: bool, x: string, tail: string, end: Option<string>, top: bool,
                                      more: seq<Part>, r: string)
    requires EndOk(end, top) && x != ""
    requires Body(u, prev, x + tail, end, top, "") == Ok(Parsed([Text(x)] + more, r))
    ensures PlainRun(u, prev, x, tail, end, top) && Body(u, EndsWord(u, x), tail, end, top, "") == Ok(Parsed(more, r))
  {
    hide Look, Body, EndOk, EndsWord, PlainRun, Ends;
    assert "" + x == x;
    TextMustStay(u, prev, x, tail, end, top, "");
    RunRead(u, prev, x, tail, end, top, "");
    TextEnds(u, EndsWord(u, x), tail, end, top, x);
    FlushFirst(u, EndsWord(u, x), tail, end, top, x);
    var b := Body(u, EndsWord(u, x), tail, end, top, "");
    assert Flush(x) == [Text(x)];
    assert b.Ok?;
    assert ([Text(x)] + b.value.parts)[1..] == b.value.parts && ([Text(x)] + more)[1..] == more;
  }

  lemma {:induction false} NothingReadOn(u: Unicode, prev: bool, end: Option<string>, top: bool, rest: string,
                                         r: string)
    requires EndOk(end, top) && (end.None? ==> rest == "")
    requires Body(u, prev, After([], end, rest), end, top, "") == Ok(Parsed([], r))
    ensures (end.Some? ==> Boundary(end.value, rest)) && r == rest
  {
    var s := After([], end, rest);
    assert ReconstructAll([]) == "" && s == EndText(end) + rest;
    hide Look, Boundary, EndsWord, Word, EndOk, ReconstructAll, ClosingTag;
    if end.Some? {
      EndFirst(end, top);
      Parts(end.value, rest);
      var t := Look(u, prev, s, end, top);
      if t.Plain? {
        BufferKept(u, Word(u, s[0]), s[1..], end, top, "" + [s[0]]);
      } else if t.Escape? {
        EscapeHead(u, prev, s, end, top);
      } else if t.Close? {
        ShortTokenText(u, prev, s, end, top);
      }
    }
  }

  lemma {:induction false} VarReadOn(u: Unicode, prev: bool, name: string, tail: string, end: Option<string>, top: bool,
                                     more: seq<Part>, r: string)
    requires EndOk(end, top) && Ident(name)
    requires Body(u, prev, "$" + name + tail, end, top, "") == Ok(Parsed([Var(name)] + more, r))
    ensures (tail == "" || !IdentChar(tail[0])) && Body(u, EndsWord(u, name), tail, end, top, "") == Ok(Parsed(more, r))
  {
    hide Body, EndsWord;
    var s := "$" + name + tail;
    DollarLooks(u, prev, name, tail, end, top);
    hide Look, EndOk;
    var t := Look(u, prev, s, end, top);
    ShortTokenText(u, prev, s, end, top);
    BodyVar(u, prev, s, end, top, "", t.name, t.rest);
    var b := Body(u, EndsWord(u, t.name), t.rest, end, top, "");
    assert Flush("") + [Var(t.name)] == [Var(t.name)];
    assert b.Ok?;
    assert ([Var(t.name)] + b.value.parts)[0] == Var(t.name) && ([Var(name)] + more)[0] == Var(name);
    assert ([Var(t.name)] + b.value.parts)[1..] == b.value.parts && ([Var(name)] + more)[1..] == more;
    Parts("$" + name, tail);
    Parts("$" + name, t.rest);
  }

  lemma {:induction false} DollarLooks(u: Unicode, prev: bool, name: string, tail: string, end: Option<string>,
                                       top: bool)
    requires EndOk(end, top) && Ident(name)
    ensures var s := "$" + name + tail; s != "" && Look(u, prev, s, end, top).VarUse?
  {
    var s := "$" + name + tail;
    if end.Some? { EndFirst(end, top); }
    assert s[0] == '$' && s[1..] == name + tail && s[1..][0] == name[0];
    assert LetBlock(u, s).None? && (end.Some? ==> !EndAt(s, end.value));
    assert IdentRun(s[1..]) > 0;
    hide LetBlock, EndAt, Block, IdentRun;
  }

  /** An expression that was read as itself: its body was, and what follows it was. */
  lemma {:induction false} ExprReadOn(u: Unicode, prev: bool, s: string, end: Option<string>, top: bool,
                                      header: Option<Header>,
                                      language: string, env: Env, body: seq<Part>, t: string, more: seq<Part>,
                                      r: string) returns (r1: string)
    requires GoodTag(u, language, env) && s != ""
    requires Look(u, prev, s, end, top) == Open(header, Opener(language, MarkerOf(env), t))
    requires Body(u, prev, s, end, top, "") == Ok(Parsed([Node(header, Expr(language, env, body))] + more, r))
    ensures Body(u, false, t, Some(ClosingTag(language, env)), false, "") == Ok(Parsed(body, r1))
    ensures Body(u, EndsTag(u, language, env), r1, end, top, "") == Ok(Parsed(more, r))
  {
    ReadExpr(u, prev, s, end, top, "", header, language, env, t);
    hide Look, Body, GoodTag, ClosingTag, EndsTag, MarkerOf;
    var inner := Body(u, false, t, Some(ClosingTag(language, env)), false, "");
    assert inner.Ok?;
    r1 := inner.value.rest;
    var b := Body(u, EndsTag(u, language, env), r1, end, top, "");
    assert b.Ok?;
    var p, q := Node(header, Expr(language, env, inner.value.parts)), Node(header, Expr(language, env, body));
    assert Flush("") + [p] == [p];
    assert ([p] + b.value.parts)[0] == p && ([q] + more)[0] == q;
    assert ([p] + b.value.parts)[1..] == b.value.parts && ([q] + more)[1..] == more;
  }

  /** Only what stays is read back as the tree it was written from. */
  lemma {:induction false} ReadStays(u: Unicode, prev: bool, parts: seq<Part>, end: Option<string>, top: bool,
                                     rest: string, r: string)
    requires Normal(u, prev, parts, top) && EndOk(end, top) && (end.None? ==> rest == "")
    requires Body(u, prev, After(parts, end, rest), end, top, "") == Ok(Parsed(parts, r))
    ensures Stays(u, prev, parts, end, top, rest) && r == rest
    decreases parts
  {
    hide Look, Body, EndOk, GoodTag, ClosingTag, OpeningTag, PlainRun, EndsWord, After, Boundary, MarkerOf;
    if parts == [] {
      NothingReadOn(u, prev, end, top, rest, r);
    } else {
      var tail, more := After(parts[1..], end, rest), parts[1..];
      AfterCons(parts, end, rest);
      assert [parts[0]] + more == parts;
      match parts[0]
      case Text(x) =>
        TextReadOn(u, prev, x, tail, end, top, more, r);
        ReadStays(u, EndsWord(u, x), more, end, top, rest, r);
      case Var(name) =>
        VarReadOn(u, prev, name, tail, end, top, more, r);
        ReadStays(u, EndsWord(u, name), more, end, top, rest, r);
      case Expr(language, env, body) =>
        var tag := ClosingTag(language, env);
        var t := After(body, Some(tag), tail);
        ExprText(language, env, body, tail);
        ExprOpens(u, language, env, t, end, top);
        var r1 := ExprReadOn(u, prev, OpeningTag(language, env) + t, end, top, None, language, env, body, t, more, r);
        TagEndOk(u, language, env);
        ReadStays(u, false, body, Some(tag), false, tail, r1);
        ReadStays(u, EndsTag(u, language, env), more, end, top, rest, r);
      case Let(name, expr) =>
        var tag := ClosingTag(expr.language, expr.env);
        var t := After(expr.body, Some(tag), tail);
        var v := OpeningTag(expr.language, expr.env) + t;
        ExprText(expr.language, expr.env, expr.body, tail);
        LetText(name, expr, tail);
        TopEnd(end, top);
        LetOpens(u, prev, name, expr.language, expr.env, t);
        var r1 := ExprReadOn(u, prev, "let " + name + " = " + v, end, top, Some(Header(name, " ", " ", " ", v)),
                             expr.language, expr.env, expr.body, t, more, r);
        TagEndOk(u, expr.language, expr.env);
        ReadStays(u, false, expr.body, Some(tag), false, tail, r1);
        ReadStays(u, EndsTag(u, expr.language, expr.env), more, end, top, rest, r);
    }
  }

  // ------------------------------------------------------------------ parsed trees

  lemma {:induction false} NormalFlush(u: Unicode, before: bool, prev: bool, buf: string, parts: seq<Part>, top: bool)
    requires if buf == "" then prev == before else prev == EndsWord(u, buf)
    requires Normal(u, prev, parts, top) && (parts != [] ==> !parts[0].Text?)
    ensures Normal(u, before, Flush(buf) + parts, top)
  {
    hide GoodTag, EndsWord, EndsTag;
    if buf == "" {
      assert Flush(buf) + parts == parts;
    } else {
      var all := Flush(buf) + parts;
      assert all[0] == Text(buf) && all[1..] == parts;
    }
  }

  lemma {:induction false} NormalNode(u: Unicode, prev: bool, header: Option<Header>, language: string, env: Env,
                                      body: seq<Part>, more: seq<Part>, top: bool)
    requires GoodTag(u, language, env) && Normal(u, false, body, false)
    requires Normal(u, EndsTag(u, language, env), more, top)
    requires if header.Some? then top && Ident(header.value.name) else !prev
    ensures Normal(u, prev, [Node(header, Expr(language, env, body))] + more, top)
  {
    hide GoodTag, EndsTag;
    var node := Node(header, Expr(language, env, body));
    assert ([node] + more)[0] == node && ([node] + more)[1..] == more;
  }

  /** What the parser returns is normal; `before` is the word flag at the start of the text not
      yet flushed. */
  lemma {:induction false} ParsedNormal(u: Unicode, before: bool, prev: bool, s: string, end: Option<string>, top: bool,
                                        buf: string)
    requires Body(u, prev, s, end, top, buf).Ok? && (end.Some? ==> end.value != "")
    requires if buf == "" then prev == before else prev == EndsWord(u, buf)
    ensures Normal(u, before, Body(u, prev, s, end, top, buf).value.parts, top)
    decreases |s|, 0
  {
    hide Look, Body, EndsWord, Word, GoodTag, Normal, Nested;
    if s == "" {
      NormalText(u, before, prev, s, end, top, buf);
    } else {
      var t := Look(u, prev, s, end, top);
      match t {
        case Close => NormalText(u, before, prev, s, end, top, buf);
        case Plain =>
          PiecesPlain(u, prev, s, end, top, buf);
          LastChar(u, buf, s[0]);
          ParsedNormal(u, before, Word(u, s[0]), s[1..], end, top, buf + [s[0]]);
        case Escape(text, rest) =>
          BodyEscape(u, prev, s, end, top, buf, text, rest);
          EscapeNonEmpty(u, prev, s, end, top);
          LastText(u, buf, text);
          ParsedNormal(u, before, EndsWord(u, text), rest, end, top, buf + text);
        case VarUse(name, rest) =>
          BodyVar(u, prev, s, end, top, buf, name, rest);
          ShortTokenText(u, prev, s, end, top);
          ParsedNormal(u, EndsWord(u, name), EndsWord(u, name), rest, end, top, "");
          NormalVar(u, before, prev, buf, name, Body(u, EndsWord(u, name), rest, end, top, "").value.parts, top);
        case Open(header, o) =>
          BodyOpen(u, prev, s, end, top, buf, header, o);
          OpenShape(u, prev, s, end, top);
          OpenNames(u, prev, s, end, top);
          NestedNormal(u, before, prev, header, o, if header.Some? then |header.value.rest| else |s|, end, top, buf);
      }
    }
  }

  lemma {:induction false} OpenNames(u: Unicode, prev: bool, s: string, end: Option<string>, top: bool)
    requires s != "" && Look(u, prev, s, end, top).Open?
    ensures var t := Look(u, prev, s, end, top);
      && MarkerOk(u, t.opener.marker) && Registered(t.opener.language) && Ident(t.opener.language)
      && (t.header.Some? ==> Ident(t.header.value.name))
  {
    OpenTokenText(u, prev, s, end, top);
    hide Look, Registered, Ident;
  }

  lemma {:induction false} NormalText(u: Unicode, before: bool, prev: bool, s: string, end: Option<string>, top: bool,
                                      buf: string)
    requires Body(u, prev, s, end, top, buf).Ok? && (s == "" || Look(u, prev, s, end, top).Close?)
    requires if buf == "" then prev == before else prev == EndsWord(u, buf)
    ensures Normal(u, before, Body(u, prev, s, end, top, buf).value.parts, top)
  {
    hide Look, EndsWord, GoodTag;
    assert Flush(buf) + [] == Flush(buf);
    NormalFlush(u, before, prev, buf, [], top);
  }

  lemma {:induction false} NormalVar(u: Unicode, before: bool, prev: bool, buf: string, name: string, more: seq<Part>,
                                     top: bool)
    requires if buf == "" then prev == before else prev == EndsWord(u, buf)
    requires Ident(name) && Normal(u, EndsWord(u, name), more, top)
    ensures Normal(u, before, Flush(buf) + [Var(name)] + more, top)
  {
    hide EndsWord, GoodTag, Flush;
    var parts := [Var(name)] + more;
    assert parts[0] == Var(name) && parts[1..] == more;
    NormalFlush(u, before, prev, buf, parts, top);
    assert Flush(buf) + [Var(name)] + more == Flush(buf) + parts;
  }

  lemma {:induction false} LastChar(u: Unicode, buf: string, c: char)
    ensures EndsWord(u, buf + [c]) == Word(u, c)
  {
  }

  lemma {:induction false} LastText(u: Unicode, buf: string, text: string)
    requires text != ""
    ensures EndsWord(u, buf + text) == EndsWord(u, text) && buf + text != ""
  {
  }

  lemma {:induction false} EscapeNonEmpty(u: Unicode, prev: bool, s: string, end: Option<string>, top: bool)
    requires s != "" && Look(u, prev, s, end, top).Escape? && (end.Some? ==> end.value != "")
    ensures Look(u, prev, s, end, top).text != ""
  {
    EscapeText(u, prev, s, end, top);
    hide Look, IsOpener;
    var text := Look(u, prev, s, end, top).text;
    if !(end.Some? && text == end.value) { OpenerLetter(u, text); }
  }

  lemma {:induction false} NestedNormal(u: Unicode, before: bool, prev: bool, header: Option<Header>, o: Opener,
                                        left: nat, end: Option<string>, top: bool, buf: string)
    requires MarkerOk(u, o.marker) && Registered(o.language) && Ident(o.language)
    requires Nested(u, header, o, left, end, top, buf).Ok?
    requires if buf == "" then prev == before else prev == EndsWord(u, buf)
    requires if header.Some? then top && Ident(header.value.name) else !prev
    requires end.Some? ==> end.value != ""
    ensures Normal(u, before, Nested(u, header, o, left, end, top, buf).value.parts, top)
    decreases |o.rest|, 1
  {
    hide Body, Normal, EndsWord, GoodTag, MarkerOf, ClosingTag, Registered, Ident, Number, Flush, Node;
    var env := DecodeEnv(u, o.marker).value;
    TagIsGood(u, o, env);
    var tag := ClosingTag(o.language, env);
    CloserLong(o.language, env);
    var inner := Body(u, false, o.rest, Some(tag), false, "").value;
    ParsedNormal(u, false, false, o.rest, Some(tag), false, "");
    ParsedNormal(u, EndsWord(u, tag), EndsWord(u, tag), inner.rest, end, top, "");
    var more := Body(u, EndsWord(u, tag), inner.rest, end, top, "").value.parts;
    NodeNormal(u, before, prev, header, o.language, env, inner.parts, more, top, buf);
  }

  lemma {:induction false} TagIsGood(u: Unicode, o: Opener, env: Env)
    requires MarkerOk(u, o.marker) && Registered(o.language) && Ident(o.language) && DecodeEnv(u, o.marker) == Some(env)
    ensures GoodTag(u, o.language, env)
  {
    hide DecodeEnv, MarkerOf, Registered, Ident;
    MarkerNames(u, o.marker, env);
  }

  lemma {:induction false} NodeNormal(u: Unicode, before: bool, prev: bool, header: Option<Header>, language: string,
                                      env: Env, body: seq<Part>, more: seq<Part>, top: bool, buf: string)
    requires if buf == "" then prev == before else prev == EndsWord(u, buf)
    requires if header.Some? then top && Ident(header.value.name) else !prev
    requires GoodTag(u, language, env) && Normal(u, false, body, false)
    requires Normal(u, EndsWord(u, ClosingTag(language, env)), more, top)
    ensures Normal(u, before, Flush(buf) + [Node(header, Expr(language, env, body))] + more, top)
  {
    hide Normal, EndsWord, GoodTag, ClosingTag, Ident, Flush;
    var node := Node(header, Expr(language, env, body));
    NormalNode(u, prev, header, language, env, body, more, top);
    NormalFlush(u, before, prev, buf, [node] + more, top);
    assert Flush(buf) + [node] + more == Flush(buf) + ([node] + more);
  }

  /** For every source that parses: its reconstruction parses to the same tree exactly when, in
      the written text, every text stays text, every reference ends where its name does, and
      every closing tag is followed by something that lets it close. */
  lemma {:induction false} ReparsesIff(u: Unicode, src: string)
    requires ParseDocument(u, src).Ok?
    ensures var parts := ParseDocument(u, src).value;
      ParseDocument(u, ReconstructAll(parts)) == ParseDocument(u, src) <==> Stays(u, false, parts, None, true, "")
  {
    var parts := ParseDocument(u, src).value;
    ParsedNormal(u, false, false, src, None, true, "");
    hide Body, Normal, Stays, ReconstructAll;
    assert EndOk(None, true);
    var w := ReconstructAll(parts);
    assert w + ("" + "") == w;
    var again := Body(u, false, w, None, true, "");
    if Stays(u, false, parts, None, true, "") { StaysRead(u, false, parts, None, true, ""); }
    if again.Ok? && again.value.parts == parts { ReadStays(u, false, parts, None, true, "", again.value.rest); }
  }
}
