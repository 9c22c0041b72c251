/** What the parser takes each character for, said without its lookahead: as the texts of o_lang/parser.py's
    three patterns, its two escapes and its closing tags. */
module Tokens {
  import opened Wrappers
  import opened Syntax
  import opened SourcePieces
  import opened Reparse
  import Decimal
  import Evaluation

  // ----------------------------------------------------------------- characters

  /** The ASCII characters that count as white space. */
  lemma {:induction false} SpaceExactly(u: Unicode, c: char)
    requires c as int < 128
    ensures Space(u, c) <==> c as int in {9, 10, 11, 12, 13, 28, 29, 30, 31, 32}
  {
  }

  /** The ASCII characters of words and names. */
  lemma {:induction false} WordExactly(u: Unicode, c: char)
    requires c as int < 128
    ensures Word(u, c) <==> 48 <= c as int <= 57 || 65 <= c as int <= 90 || c as int == 95 || 97 <= c as int <= 122
    ensures IdentChar(c) <==> Word(u, c)
    ensures IdentStart(c) <==> Word(u, c) && !(48 <= c as int <= 57)
  {
  }

  const LANGUAGES :=
    {"python", "markdown", "html", "latex", "text", "O", "quote", "nix", "nix_store", "nixos_test"}

  /** The ten languages and their aliases are registered, and nothing else. */
  lemma {:induction false} RegisteredExactly(language: string)
    ensures Registered(language) <==> Evaluation.Canonical(language) in LANGUAGES
  {
    assert |"py"| == 2 && |"md"| == 2 && |"tex"| == 3 && |"plain"| == 5 && |"o"| == 1 && |"O"| == 1;
    assert "py"[0] == 'p' && "md"[0] == 'm' && "plain"[0] == 'p' && "o"[0] == 'o' && "O"[0] == 'O' && "tex"[0] == 't';
    assert |"html"| == 4 && |"text"| == 4 && |"quote"| == 5 && |"latex"| == 5 && "quote"[0] == 'q' && "latex"[0] == 'l';
    assert "nix"[0] == 'n' && |"nix"| == 3;
  }

  // --------------------------------------------------------------- environments

  /** The environment a tag names: bare tags and `[*]` have one of their own, and a number names a
      persistent one unless it is reserved or out of range. */
  lemma {:induction false} EnvironmentExactly(u: Unicode, n: nat)
    ensures DecodeEnv(u, None) == Some(Env(0xFFFF_FFFF, false))
    ensures DecodeEnv(u, Some("*")) == Some(Env(0xFFFF_FFFE, true))
    ensures MarkerOk(u, Some(Decimal.Text(n)))
    ensures DecodeEnv(u, Some(Decimal.Text(n))) == if n <= 0xFFFF_FFFD then Some(Env(n, true)) else None
  {
    var t := Decimal.Text(n);
    NumberIsValue(u, t);
    Decimal.ValueOfText(n);
    assert Decimal.IsDigit(t[0]);
  }

  /** Leading zeros make no difference to a number, nor does the script of its digits. */
  lemma {:induction false} EnvironmentNumber(u: Unicode, digits: string)
    requires digits != "" && Digits(u, digits)
    ensures DecodeEnv(u, Some(digits)) == DecodeEnv(u, Some(Decimal.Text(Number(u, digits))))
  {
    EnvironmentExactly(u, Number(u, digits));
    assert Digit(u, '*').None?;
    assert Digit(u, digits[0]).Some?;
  }

  // --------------------------------------------------------------------- tokens

  /** `s` starts with the opening tag of a registered language. */
  ghost predicate Opens(u: Unicode, s: string, o: Opener)
  {
    && Registered(o.language) && Ident(o.language) && MarkerOk(u, o.marker)
    && s == OpenText(o.language, o.marker) + o.rest
  }

  lemma {:induction false} OpensExactly(u: Unicode, s: string, o: Opener)
    ensures Block(u, s) == Some(o) <==> Opens(u, s, o)
  {
    hide OpenAt, Registered, OpenText, Ident, MarkerOk;
    if Block(u, s) == Some(o) { OpenSound(u, s); }
    if Opens(u, s, o) { OpenComplete(u, o.language, o.marker, o.rest); }
  }

  /** `s` starts with a let header, whose first gap starts with a blank, and then an opening tag. */
  ghost predicate Binds(u: Unicode, s: string, h: Header, o: Opener)
  {
    HeaderOk(u, h) && h.before[0] == ' ' && s == HeaderText(h) + h.rest && Opens(u, h.rest, o)
  }

  lemma {:induction false} HeaderStarts(u: Unicode, h: Header)
    requires HeaderOk(u, h)
    ensures "let " <= HeaderText(h) + h.rest <==> h.before[0] == ' '
  {
    var s := HeaderText(h) + h.rest;
    assert s[0] == 'l' && s[1] == 'e' && s[2] == 't' && s[3] == h.before[0];
    assert s[..4] == ['l', 'e', 't', h.before[0]];
    assert "let " == ['l', 'e', 't', ' '];
  }

  lemma {:induction false} TagNoSpace(u: Unicode, s: string, o: Opener)
    requires Opens(u, s, o)
    ensures s != "" && !Space(u, s[0])
  {
    hide Registered, MarkerOk;
    assert s[0] == o.language[0];
  }

  lemma {:induction false} BindsExactly(u: Unicode, s: string, h: Header, o: Opener)
    ensures LetBlock(u, s) == Some(Open(Some(h), o)) <==> Binds(u, s, h, o)
  {
    hide LetAt, Opens, HeaderText, Block, HeaderOk;
    if LetBlock(u, s) == Some(Open(Some(h), o)) {
      LetSound(u, s);
      OpensExactly(u, h.rest, o);
      HeaderFilled(u, h);
      HeaderStarts(u, h);
    }
    if HeaderOk(u, h) { HeaderFilled(u, h); }
    if Binds(u, s, h, o) {
      TagNoSpace(u, h.rest, o);
      LetComplete(u, h);
      OpensExactly(u, h.rest, o);
      HeaderStarts(u, h);
    }
  }

  lemma {:induction false} HeaderFilled(u: Unicode, h: Header)
    requires HeaderOk(u, h)
    ensures h.before != ""
  {
  }

  /** `s` starts with a reference to a name. */
  predicate Refers(s: string, name: string, rest: string)
  {
    Ident(name) && s == "$" + name + rest && (rest == "" || !IdentChar(rest[0]))
  }

  lemma {:induction false} RefersExactly(u: Unicode, prev: bool, s: string, name: string, rest: string)
    requires s != ""
    ensures Inline(u, prev, s) == VarUse(name, rest) <==> Refers(s, name, rest)
  {
    hide Block, IdentRun, IdentChar, IdentStart;
    var w := s[1..];
    var n := IdentRun(w);
    if Inline(u, prev, s) == VarUse(name, rest) {
      RunNames(w);
      Dollar(s, name, rest);
    }
    if Refers(s, name, rest) {
      Undollar(s, name, rest);
      IdentRunIs(name, rest);
    }
  }

  lemma {:induction false} RunNames(w: string)
    requires IdentRun(w) > 0 && IdentStart(w[0])
    ensures Ident(w[..IdentRun(w)]) && (IdentRun(w) == |w| || !IdentChar(w[IdentRun(w)]))
  {
    hide IdentChar, IdentStart;
  }

  lemma {:induction false} Dollar(s: string, name: string, rest: string)
    requires s != "" && s[0] == '$' && |name| <= |s| - 1 && name == s[1..][..|name|] && rest == s[1..][|name|..]
    ensures s == "$" + name + rest
  {
  }

  lemma {:induction false} Undollar(s: string, name: string, rest: string)
    requires s == "$" + name + rest
    ensures s[0] == '$' && s[1..] == name + rest && s[1..][..|name|] == name && s[1..][|name|..] == rest
  {
    assert s[1..] == name + rest;
  }

  /** `s` starts with the awaited closing tag, and what follows does not continue it: after a tag with an
      environment anything but a brace, after another no character of a name, no bracket and no brace. */
  predicate Closes(s: string, end: Option<string>)
  {
    && end.Some? && end.value <= s
    && (|s| > |end.value| ==>
          var c := s[|end.value|];
          && c != '{'
          && (end.value == "" || end.value[|end.value| - 1] != ']' ==> !IdentChar(c) && c != '['))
  }

  lemma {:induction false} ClosesExactly(s: string, end: Option<string>)
    ensures end.Some? && EndAt(s, end.value) <==> Closes(s, end)
  {
    if end.Some? && end.value <= s && |s| > |end.value| { assert s[|end.value|..][0] == s[|end.value|]; }
  }

  /** A backslash before the awaited closing tag, or else before an opening tag. */
  ghost predicate Escapes(u: Unicode, s: string, end: Option<string>, text: string, rest: string)
  {
    && s != "" && s[0] == '\\' && s[1..] == text + rest
    && if Closes(s[1..], end) then text == end.value
       else exists o :: Opens(u, s[1..], o) && text == OpenText(o.language, o.marker) && rest == o.rest
  }

  lemma {:induction false} EscapesExactly(u: Unicode, s: string, end: Option<string>, text: string, rest: string)
    requires s != "" && s[0] == '\\'
    ensures Backslash(u, s[1..], end) == Escape(text, rest) <==> Escapes(u, s, end, text, rest)
  {
    hide Block, EndAt, Opens, OpenText;
    var w := s[1..];
    ClosesExactly(w, end);
    if Closes(w, end) {
      assert w == end.value + w[|end.value|..];
      if Escapes(u, s, end, text, rest) { assert w[|text|..] == rest; }
    } else {
      forall o ensures Block(u, w) == Some(o) <==> Opens(u, w, o) { OpensExactly(u, w, o); }
      if Block(u, w).Some? {
        var o := Block(u, w).value;
        OpensText(u, w, o);
        Cut(OpenText(o.language, o.marker), o.rest, w);
      }
    }
  }

  lemma {:induction false} OpensText(u: Unicode, s: string, o: Opener)
    requires Opens(u, s, o)
    ensures s == OpenText(o.language, o.marker) + o.rest
  {
  }

  lemma {:induction false} Cut(a: string, b: string, s: string)
    requires s == a + b
    ensures |b| <= |s| && s[..|s| - |b|] == a && s[|s| - |b|..] == b
  {
  }

  lemma {:induction false} TagHeads(u: Unicode, s: string, o: Opener)
    requires Opens(u, s, o)
    ensures s != "" && IdentStart(s[0]) && !("let " <= s)
  {
    hide Registered;
    TagMeetsLet(u, o.language, o.marker, s, 0);
    assert s[0..] == s;
    assert s[0] == o.language[0];
  }

  /** What every character of a source is taken for. */
  lemma {:induction false} TokenExactly(u: Unicode, prev: bool, s: string, end: Option<string>, top: bool)
    requires s != ""
    ensures
      var t := Look(u, prev, s, end, top);
      && (t.Close? <==> Closes(s, end))
      && (forall text, rest :: t == Escape(text, rest) <==> !Closes(s, end) && Escapes(u, s, end, text, rest))
      && (forall name, rest :: t == VarUse(name, rest) <==> !Closes(s, end) && Refers(s, name, rest))
      && (forall h, o :: t == Open(Some(h), o) <==> !Closes(s, end) && top && Binds(u, s, h, o))
      && (forall o :: t == Open(None, o) <==> !Closes(s, end) && !prev && Opens(u, s, o))
  {
    hide EndAt, Backslash, LetBlock, Inline, Closes, Escapes, Refers, Binds, Opens;
    ClosesExactly(s, end);
    if !Closes(s, end) {
      forall text, rest
        ensures Look(u, prev, s, end, top) == Escape(text, rest) <==> Escapes(u, s, end, text, rest)
      {
        if s[0] == '\\' { EscapesExactly(u, s, end, text, rest); } else { NoEscape(u, s, end, text, rest); }
      }
      forall name, rest ensures Look(u, prev, s, end, top) == VarUse(name, rest) <==> Refers(s, name, rest) {
        RefersExactly(u, prev, s, name, rest);
        ReferHead(u, s, name, rest);
      }
      forall h, o ensures Look(u, prev, s, end, top) == Open(Some(h), o) <==> top && Binds(u, s, h, o) {
        BindsExactly(u, s, h, o);
        BindHead(u, s, h, o);
      }
      forall o ensures Look(u, prev, s, end, top) == Open(None, o) <==> !prev && Opens(u, s, o) {
        OpenLook(u, prev, s, end, top, o);
      }
    }
  }

  lemma {:induction false} NoEscape(u: Unicode, s: string, end: Option<string>, text: string, rest: string)
    requires s != "" && s[0] != '\\'
    ensures !Escapes(u, s, end, text, rest)
  {
  }

  lemma {:induction false} ReferHead(u: Unicode, s: string, name: string, rest: string)
    ensures Refers(s, name, rest) ==> s != "" && s[0] == '$' && LetBlock(u, s).None?
  {
    hide LetAt, Block;
    if Refers(s, name, rest) { assert s[0] == '$' && "let "[0] == 'l'; }
  }

  lemma {:induction false} BindHead(u: Unicode, s: string, h: Header, o: Opener)
    ensures Binds(u, s, h, o) ==> s != "" && s[0] == 'l'
  {
    hide Opens;
    if Binds(u, s, h, o) { assert HeaderText(h)[0] == 'l' && s[0] == HeaderText(h)[0]; }
  }

  lemma {:induction false} OpenLook(u: Unicode, prev: bool, s: string, end: Option<string>, top: bool, o: Opener)
    requires s != "" && !Closes(s, end)
    ensures Look(u, prev, s, end, top) == Open(None, o) <==> !prev && Opens(u, s, o)
  {
    hide EndAt, LetAt, Closes, Opens, Block, IdentRun;
    ClosesExactly(s, end);
    OpensExactly(u, s, o);
    if Opens(u, s, o) { TagHeads(u, s, o); }
  }
}
