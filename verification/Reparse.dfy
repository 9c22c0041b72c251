/** Reparsing a reconstructed source: parsing looks no further ahead than the first character
    of anything reconstruction rewrites. */
module Reparse {
  import opened Wrappers
  import opened Syntax
  import opened SourcePieces
  import Decimal

  // ---------------------------------------------------------- matchers are complete

  lemma {:induction false} Parts(a: string, b: string)
    ensures (a + b)[..|a|] == a && (a + b)[|a|..] == b
  {
  }

  lemma {:induction false} IdentRunIs(name: string, t: string)
    requires (forall i :: 0 <= i < |name| ==> IdentChar(name[i])) && (t == "" || !IdentChar(t[0]))
    ensures IdentRun(name + t) == |name|
  {
    if name == "" {
      assert name + t == t;
    } else {
      assert (name + t)[1..] == name[1..] + t;
      IdentRunIs(name[1..], t);
    }
  }

  lemma {:induction false} SpaceRunIs(u: Unicode, gap: string, t: string)
    requires Spaces(u, gap) && (t == "" || !Space(u, t[0]))
    ensures SpaceRun(u, gap + t) == |gap|
  {
    if gap == "" {
      assert gap + t == t;
    } else {
      assert (gap + t)[1..] == gap[1..] + t;
      SpaceRunIs(u, gap[1..], t);
    }
  }

  lemma {:induction false} DigitRunIs(u: Unicode, digits: string, t: string)
    requires Digits(u, digits) && (t == "" || Digit(u, t[0]).None?)
    ensures DigitRun(u, digits + t) == |digits|
  {
    if digits == "" {
      assert digits + t == t;
    } else {
      assert (digits + t)[1..] == digits[1..] + t;
      DigitRunIs(u, digits[1..], t);
    }
  }

  lemma {:induction false} MarkUnfold(u: Unicode, t: string, k: nat)
    requires t != "" && t[0] == '[' && 0 < k < |t|
    requires k == if 1 < |t| && t[1] == '*' then 1 else DigitRun(u, t[1..])
    requires "]^(" <= t[1 + k..]
    ensures MarkAt(u, t) == Some(Mark(Some(t[1..1 + k]), t[1 + k..][3..]))
  {
    hide DigitRun;
  }

  lemma {:induction false} MarkComplete(u: Unicode, marker: Option<string>, rest: string)
    requires MarkerOk(u, marker)
    ensures MarkAt(u, MarkerText(marker) + "^(" + rest) == Some(Mark(marker, rest))
  {
    if marker.None? {
      assert MarkerText(marker) + "^(" + rest == "^(" + rest;
    } else {
      var m, v := marker.value, "]^(" + rest;
      var t := "[" + (m + v);
      assert MarkerText(marker) + "^(" + rest == t;
      assert Digit(u, '*').None? && Digit(u, ']').None?;
      if m != "*" { DigitRunIs(u, m, v); }
      Parts("[", m + v);
      Parts(m, v);
      Parts("]^(", rest);
      assert t[1] == m[0];
      assert t[1 + |m|..] == t[1..][|m|..] && t[1..1 + |m|] == t[1..][..|m|];
      hide MarkAt, DigitRun;
      MarkUnfold(u, t, |m|);
    }
  }

  lemma {:induction false} OpenUnfold(u: Unicode, s: string, n: nat, m: Mark)
    requires IdentRun(s) == n && 0 < n && IdentStart(s[0]) && MarkAt(u, s[n..]) == Some(m)
    ensures OpenAt(u, s) == Some(Opener(s[..n], m.marker, m.rest))
  {
    hide MarkAt, IdentRun;
  }

  lemma {:induction false} OpenComplete(u: Unicode, language: string, marker: Option<string>, rest: string)
    requires Ident(language) && MarkerOk(u, marker)
    ensures OpenAt(u, OpenText(language, marker) + rest) == Some(Opener(language, marker, rest))
  {
    var t := MarkerText(marker) + "^(" + rest;
    var s := language + t;
    assert OpenText(language, marker) + rest == s by {
      Assoc(language, MarkerText(marker), "^(");
      Assoc(language, MarkerText(marker) + "^(", rest);
    }
    MarkComplete(u, marker, rest);
    assert t[0] == '[' || t[0] == '^';
    IdentRunIs(language, t);
    Parts(language, t);
    hide *;
    OpenUnfold(u, s, |language|, Mark(marker, rest)) by { assert IdentStart(language[0]) by { IdentHead(language); } }
  }

  lemma {:induction false} IdentHead(name: string)
    requires Ident(name)
    ensures name != "" && IdentStart(name[0])
  {
  }

  lemma {:induction false} EqualsComplete(u: Unicode, mid: string, after: string, rest: string)
    requires Spaces(u, mid) && Spaces(u, after) && (rest == "" || !Space(u, rest[0]))
    ensures EqualsAt(u, mid + ("=" + (after + rest))) == Some(Equals(mid, after, rest))
  {
    var w := after + rest;
    var v := "=" + w;
    var t := mid + v;
    SpaceRunIs(u, mid, v);
    SpaceRunIs(u, after, rest);
    hide SpaceRun;
    assert t[..|mid|] == mid && t[|mid|..] == v && v[1..] == w && w[..|after|] == after && w[|after|..] == rest;
  }

  function HeaderAsList(h: Header): string { "let" + (h.before + (h.name + (h.mid + ("=" + (h.after + h.rest))))) }

  lemma {:induction false} HeaderList(h: Header)
    ensures HeaderText(h) + h.rest == HeaderAsList(h)
  {
    var a := "let" + h.before + h.name;
    Assoc("let", h.before, h.name);
    Assoc(a, h.mid, "=");
    Assoc(a, h.mid + "=", h.after);
    Assoc(a, h.mid + "=" + h.after, h.rest);
    Assoc(h.mid, "=", h.after);
    Assoc(h.mid, "=" + h.after, h.rest);
    Assoc("=", h.after, h.rest);
    var t := h.mid + ("=" + (h.after + h.rest));
    Assoc("let" + h.before, h.name, t);
    Assoc("let", h.before, h.name + t);
  }

  lemma {:induction false} LetUnfold(u: Unicode, s: string, a: nat, n: nat, e: Equals)
    requires "let" <= s && SpaceRun(u, s[3..]) == a && 0 < a
    requires var t := s[3..][a..]; IdentRun(t) == n && 0 < n && IdentStart(t[0]) && EqualsAt(u, t[n..]) == Some(e)
    ensures LetAt(u, s) == Some(Header(s[3..][a..][..n], s[3..][..a], e.mid, e.after, e.rest))
  {
    hide SpaceRun, IdentRun, EqualsAt;
  }

  lemma {:induction false} LetComplete(u: Unicode, h: Header)
    requires HeaderOk(u, h) && (h.rest == "" || !Space(u, h.rest[0]))
    ensures LetAt(u, HeaderText(h) + h.rest) == Some(h)
  {
    HeaderList(h);
    var t := h.mid + ("=" + (h.after + h.rest));
    EqualsComplete(u, h.mid, h.after, h.rest);
    assert t != "" && (t[0] == '=' || Space(u, t[0])) by { assert h.mid != "" ==> t[0] == h.mid[0]; }
    IdentRunIs(h.name, t);
    assert !Space(u, h.name[0]);
    SpaceRunIs(u, h.before, h.name + t);
    Parts("let", h.before + (h.name + t));
    Parts(h.before, h.name + t);
    Parts(h.name, t);
    hide EqualsAt, IdentRun, SpaceRun, HeaderText, LetAt, Spaces;
    LetUnfold(u, HeaderAsList(h), |h.before|, |h.name|, Equals(h.mid, h.after, h.rest));
  }

  // ------------------------------------------------------------ what tags are made of

  predicate TagChar(c: char) {
    IdentChar(c) || c == '[' || c == ']' || c == '*' || c == '^' || c == '(' || c as int >= 128
  }

  lemma {:induction false} MarkerChars(u: Unicode, marker: Option<string>, k: nat)
    requires MarkerOk(u, marker) && k < |MarkerText(marker)|
    ensures TagChar(MarkerText(marker)[k]) && !IdentStart(MarkerText(marker)[k])
  {
    if 0 < k < |MarkerText(marker)| - 1 { assert MarkerText(marker)[k] == marker.value[k - 1]; }
  }

  /** A tag holds only tag characters, and its letters stand together at its start. */
  lemma {:induction false} OpenChars(u: Unicode, language: string, marker: Option<string>, k: nat)
    requires Ident(language) && MarkerOk(u, marker) && k < |OpenText(language, marker)|
    ensures var z := OpenText(language, marker);
      TagChar(z[k]) && (0 < k && IdentStart(z[k]) ==> IdentChar(z[k - 1])) && z[|z| - 1] == '('
  {
    var z, n, m := OpenText(language, marker), |language|, MarkerText(marker);
    assert z == language + (m + "^(");
    assert k < n ==> z[k] == language[k];
    assert 0 < k <= n ==> z[k - 1] == language[k - 1];
    if n <= k < n + |m| {
      MarkerChars(u, marker, k - n);
      assert z[k] == m[k - n];
    } else if n + |m| <= k {
      assert z[k] == "^("[k - n - |m|];
    }
    assert z[|z| - 1] == "^("[1];
  }

  predicate Letter(c: char) { IdentStart(c) && c != '_' }

  lemma {:induction false} RegisteredLetter(language: string)
    requires Registered(language)
    ensures language != "" && Letter(language[0])
  {
    assert forall l :: l in REGISTERED_LANGUAGES ==> l != "" && Letter(l[0]);
  }

  lemma {:induction false} MarkerEnvChars(env: Env, k: nat)
    requires k < |Marker(env)|
    ensures Marker(env)[k] != '$' && Marker(env)[k] != ')' && !IdentStart(Marker(env)[k])
  {
    if env.explicit && env.id != LINKER_ISOLATED_ENV_ID {
      var t := Decimal.Text(env.id);
      assert 0 < k < |Marker(env)| - 1 ==> Marker(env)[k] == t[k - 1] && Decimal.IsDigit(t[k - 1]);
    }
  }

  /** In a closing tag no letter follows a character that is not part of a word. */
  lemma {:induction false} CloserChars(language: string, env: Env, k: nat)
    requires Ident(language) && k < |ClosingTag(language, env)|
    ensures var e := ClosingTag(language, env);
      && e[0] == ')' && e[k] != '$' && (0 < k ==> e[k] != ')')
      && (0 < k && Letter(e[k]) ==> IdentChar(e[k - 1]))
  {
    var e, n := ClosingTag(language, env), |language|;
    assert e == ")_" + (language + Marker(env));
    assert 2 <= k < 2 + n ==> e[k] == language[k - 2];
    assert 3 <= k < 3 + n ==> e[k - 1] == language[k - 3];
    if 2 + n <= k {
      MarkerEnvChars(env, k - 2 - n);
      assert e[k] == Marker(env)[k - 2 - n];
    }
  }

  lemma {:induction false} HeaderChars(u: Unicode, h: Header, k: nat)
    requires HeaderOk(u, h) && k < |HeaderText(h)|
    ensures HeaderText(h)[k] != '$'
  {
    var z := HeaderText(h);
    var a, b, c := 3 + |h.before|, 3 + |h.before| + |h.name|, 3 + |h.before| + |h.name| + |h.mid|;
    assert 3 <= k < a ==> z[k] == h.before[k - 3];
    assert a <= k < b ==> z[k] == h.name[k - a];
    assert b <= k < c ==> z[k] == h.mid[k - b];
    assert c < k ==> z[k] == h.after[k - c - 1];
  }

  // ---------------------------------------------------------------- mirrored sources

  predicate SameHead(a: string, b: string) { (a == "" <==> b == "") && (a != "" && b != "" ==> a[0] == b[0]) }

  /** `b` may follow a closing tag where `a` did: it starts alike, or with a closing tag whose
      escape `a` started with. */
  predicate Follows(a: string, b: string) { SameHead(a, b) || (a != "" && b != "" && a[0] == '\\' && b[0] == ')') }

  /** Two texts that start with the same kind of token. */
  predicate SameToken(u: Unicode, prev: bool, x: string, y: string, end: Option<string>, top: bool)
  {
    || (x != "" && x[0] == '$')
    || (end.Some? && EndAt(x, end.value))
    || (!prev && Block(u, x).Some? && Block(u, y).Some?)
    || (top && LetBlock(u, x).Some? && LetBlock(u, y).Some?)
  }

  predicate PrevAt(u: Unicode, prev: bool, s: string, n: nat)
    requires n <= |s|
  {
    if n == 0 then prev else Word(u, s[n - 1])
  }

  /** `s` and `s'` agree for `n` characters, and then both end or start the same kind of token. */
  ghost predicate Mirror(u: Unicode, prev: bool, s: string, s': string, end: Option<string>, top: bool, n: nat)
  {
    && n <= |s| && n <= |s'| && s[..n] == s'[..n]
    && SameHead(s[n..], s'[n..])
    && (s[n..] != "" ==> SameToken(u, PrevAt(u, prev, s, n), s[n..], s'[n..], end, top))
  }

  lemma {:induction false} MirrorLong(u: Unicode, prev: bool, s: string, s': string, end: Option<string>, top: bool,
                                      n: nat)
    requires Mirror(u, prev, s, s', end, top, n)
    ensures n <= |s| && n <= |s'|
  {
    hide SameToken;
  }

  lemma {:induction false} MirrorChar(u: Unicode, prev: bool, s: string, s': string, end: Option<string>, top: bool,
                                      n: nat, k: nat)
    requires Mirror(u, prev, s, s', end, top, n) && k <= n
    ensures k < |s| <==> k < |s'|
    ensures k < |s| ==> s[k] == s'[k]
  {
    hide SameToken;
    if k < n {
      assert s[k] == s[..n][k] && s'[k] == s'[..n][k];
    } else if n < |s| && n < |s'| {
      assert s[n] == s[n..][0] && s'[n] == s'[n..][0];
    }
  }

  lemma {:induction false} MirrorPrefix(u: Unicode, prev: bool, s: string, s': string, end: Option<string>, top: bool,
                                        n: nat, z: string)
    requires Mirror(u, prev, s, s', end, top, n) && z <= s' && |z| <= n
    ensures z <= s && SameHead(s[|z|..], s'[|z|..])
  {
    hide SameToken;
    assert s[..|z|] == s[..n][..|z|] && s'[..|z|] == s'[..n][..|z|];
    assert z == s'[..|z|];
    MirrorChar(u, prev, s, s', end, top, n, |z|);
  }

  lemma {:induction false} LetHead4(u: Unicode, x: string)
    requires LetBlock(u, x).Some?
    ensures "let " <= x && LetAt(u, x).Some? && x[0] == 'l' && x[1] == 'e' && x[2] == 't' && x[3] == ' '
  {
    hide Block, LetAt;
  }

  lemma {:induction false} BlockHead(u: Unicode, x: string)
    requires Block(u, x).Some?
    ensures x != "" && Letter(x[0])
  {
    OpenSound(u, x);
    RegisteredLetter(Block(u, x).value.language);
    hide OpenAt, Registered;
  }

  /** A tag does not run into a let header. */
  lemma {:induction false} TagMeetsLet(u: Unicode, language: string, marker: Option<string>, s: string, n: nat)
    requires Ident(language) && MarkerOk(u, marker) && OpenText(language, marker) <= s
    requires n < |OpenText(language, marker)|
    ensures !("let " <= s[n..])
  {
    var z := OpenText(language, marker);
    if "let " <= s[n..] {
      assert s[n] == 'l' && s[n + 1] == 'e' && s[n + 2] == 't' && s[n + 3] == ' ' by {
        assert s[n..][0] == 'l' && s[n..][1] == 'e' && s[n..][2] == 't' && s[n..][3] == ' ';
      }
      var k := if n + 3 < |z| then n + 3 else |z| - 1;
      assert z[k] == s[k];
      OpenChars(u, language, marker, k);
    }
  }

  lemma {:induction false} EndHead(s: string, tag: string)
    requires EndAt(s, tag) && tag != ""
    ensures s != "" && s[0] == tag[0]
  {
    hide Boundary;
  }

  /** What stands past the common part. */
  lemma {:induction false} MirrorToken(u: Unicode, prev: bool, s: string, s': string, end: Option<string>, top: bool,
                                       n: nat)
    requires Mirror(u, prev, s, s', end, top, n) && n < |s'|
    ensures n < |s| && s[n] == s'[n] && PrevAt(u, prev, s, n) == PrevAt(u, prev, s', n)
    ensures
      || s'[n] == '$'
      || (end.Some? && EndAt(s[n..], end.value))
      || (!PrevAt(u, prev, s, n) && Block(u, s[n..]).Some? && Block(u, s'[n..]).Some?)
      || (top && LetBlock(u, s[n..]).Some? && LetBlock(u, s'[n..]).Some?)
  {
    hide Block, LetBlock, EndAt, Word;
    MirrorChar(u, prev, s, s', end, top, n, n);
    assert s[n..][0] == s[n];
    if 0 < n { MirrorChar(u, prev, s, s', end, top, n, n - 1); }
  }

  lemma {:induction false} BlockTag(u: Unicode, s: string) returns (o: Opener)
    requires Block(u, s).Some?
    ensures Registered(o.language) && Ident(o.language) && MarkerOk(u, o.marker)
    ensures s == OpenText(o.language, o.marker) + o.rest
  {
    hide OpenAt, Registered, OpenText, Ident;
    o := Block(u, s).value;
    OpenSound(u, s);
  }

  lemma {:induction false} BlockAgain(u: Unicode, language: string, marker: Option<string>, rest: string)
    requires Registered(language) && Ident(language) && MarkerOk(u, marker)
    ensures Block(u, OpenText(language, marker) + rest).Some?
  {
    hide OpenAt, Registered, OpenText, Ident;
    OpenComplete(u, language, marker, rest);
  }

  /** An opener at the mirrored text is an opener at the text. */
  lemma {:induction false} OpenBack(u: Unicode, prev: bool, s: string, s': string, end: Option<string>, top: bool,
                                    n: nat)
    requires Mirror(u, prev, s, s', end, top, n) && Block(u, s').Some?
    requires (end.Some? ==> end.value != "" && end.value[0] == ')')
    ensures Block(u, s).Some?
  {
    hide *;
    if n == 0 {
      OpenBackNow(u, prev, s, s', end, top);
    } else {
      var o := BlockTag(u, s');
      var z := OpenText(o.language, o.marker);
      Parts(z, o.rest);
      assert z <= s';
      TagCrossing(u, prev, s, s', end, top, n, o.language, o.marker);
      MirrorPrefix(u, prev, s, s', end, top, n, z);
      BlockAgain(u, o.language, o.marker, s[|z|..]);
      assert s == z + s[|z|..];
    }
  }

  lemma {:induction false} OpenBackNow(u: Unicode, prev: bool, s: string, s': string, end: Option<string>, top: bool)
    requires Mirror(u, prev, s, s', end, top, 0) && Block(u, s').Some?
    requires (end.Some? ==> end.value != "" && end.value[0] == ')')
    ensures Block(u, s).Some?
  {
    BlockHead(u, s');
    hide Mirror, EndAt, LetBlock, Block;
    MirrorToken(u, prev, s, s', end, top, 0);
    assert s[0..] == s && s'[0..] == s';
    if end.Some? && EndAt(s, end.value) { EndHead(s, end.value); }
    BlockNotLet(u, s');
  }

  lemma {:induction false} BlockNotLet(u: Unicode, s: string)
    requires Block(u, s).Some?
    ensures LetBlock(u, s).None?
  {
    var o := Block(u, s).value;
    OpenSound(u, s);
    TagMeetsLet(u, o.language, o.marker, s, 0);
    assert s[0..] == s;
    hide OpenAt, OpenText, LetAt, Registered;
  }

  /** A tag that starts in the common part ends there too. */
  lemma {:induction false} TagCrossing(u: Unicode, prev: bool, s: string, s': string, end: Option<string>, top: bool,
                                       n: nat, language: string, marker: Option<string>)
    requires Mirror(u, prev, s, s', end, top, n) && 0 < n && (end.Some? ==> end.value != "" && end.value[0] == ')')
    requires Ident(language) && MarkerOk(u, marker) && OpenText(language, marker) <= s'
    ensures |OpenText(language, marker)| <= n
  {
    var z := OpenText(language, marker);
    hide Mirror, EndAt, LetBlock, Block, OpenText;
    if n < |z| {
      OpenChars(u, language, marker, n);
      assert z[n] == s'[n] && z[n - 1] == s'[n - 1];
      TagMeetsLet(u, language, marker, s', n);
      MirrorToken(u, prev, s, s', end, top, n);
      var x, y := s[n..], s'[n..];
      assert x[0] == s[n] && y[0] == s'[n];
      if end.Some? && EndAt(x, end.value) { EndHead(x, end.value); }
      if LetBlock(u, y).Some? { LetHead4(u, y); }
      if Block(u, y).Some? { BlockHead(u, y); }
    }
  }

  lemma {:induction false} BoundarySame(tag: string, a: string, b: string)
    requires Follows(a, b)
    ensures Boundary(tag, a) <==> Boundary(tag, b)
  {
  }

  /** A closing tag that starts in the common part ends there too. */
  lemma {:induction false} EndCrossing(u: Unicode, prev: bool, s: string, s': string, language: string, env: Env,
                                       n: nat)
    requires Ident(language) && 0 < n && ClosingTag(language, env) <= s'
    requires Mirror(u, prev, s, s', Some(ClosingTag(language, env)), false, n)
    ensures |ClosingTag(language, env)| <= n
  {
    var e := ClosingTag(language, env);
    hide Mirror, EndAt, LetBlock, Block, ClosingTag;
    if n < |e| {
      CloserChars(language, env, n);
      CloserChars(language, env, 0);
      assert e[n] == s'[n] && e[n - 1] == s'[n - 1];
      MirrorToken(u, prev, s, s', Some(e), false, n);
      var x, y := s[n..], s'[n..];
      assert x[0] == s[n] && y[0] == s'[n];
      if EndAt(x, e) { EndHead(x, e); }
      if Block(u, y).Some? { BlockHead(u, y); }
    }
  }

  /** A closing tag at the mirrored text is one at the text. */
  lemma {:induction false} EndBack(u: Unicode, prev: bool, s: string, s': string, language: string, env: Env, n: nat)
    requires Ident(language)
    requires Mirror(u, prev, s, s', Some(ClosingTag(language, env)), false, n) && EndAt(s', ClosingTag(language, env))
    ensures EndAt(s, ClosingTag(language, env))
  {
    var e := ClosingTag(language, env);
    hide Mirror, Block, LetBlock, Boundary, ClosingTag;
    if n == 0 {
      CloserLong(language, env);
      CloserChars(language, env, 0);
      EndHead(s', e);
      MirrorToken(u, prev, s, s', Some(e), false, 0);
      assert s[0..] == s && s'[0..] == s';
      if Block(u, s').Some? { BlockHead(u, s'); }
    } else {
      EndCrossing(u, prev, s, s', language, env, n);
      MirrorPrefix(u, prev, s, s', Some(e), false, n, e);
      BoundarySame(e, s[|e|..], s'[|e|..]);
    }
  }

  lemma {:induction false} CloserLong(language: string, env: Env)
    ensures |ClosingTag(language, env)| >= 2
  {
  }

  // ----------------------------------------------------------------- let and mirror

  /** A word followed by a gap or an equals sign is no tag. */
  lemma {:induction false} NoTagHere(u: Unicode, name: string, t: string)
    requires Ident(name) && t != "" && !IdentChar(t[0]) && t[0] != '[' && t[0] != '^'
    ensures OpenAt(u, name + t).None?
  {
    IdentRunIs(name, t);
    Parts(name, t);
    hide IdentRun;
    assert MarkAt(u, t).None?;
  }

  /** `let`, a gap and an equals sign are no let header. */
  lemma {:induction false} NoLetHere(u: Unicode, gap: string, t: string)
    requires Spaces(u, gap)
    ensures LetAt(u, "let" + (gap + ("=" + t))).None?
  {
    var s := "let" + (gap + ("=" + t));
    SpaceRunIs(u, gap, "=" + t);
    Parts("let", gap + ("=" + t));
    Parts(gap, "=" + t);
    hide SpaceRun, EqualsAt;
    assert IdentRun("=" + t) == 0;
  }

  /** What stands where in a header. */
  lemma {:induction false} HeaderShape(u: Unicode, h: Header, n: nat)
    requires HeaderOk(u, h) && n < |HeaderText(h)|
    ensures var s, a, b := HeaderAsList(h), 3 + |h.before|, 3 + |h.before| + |h.name|;
      && HeaderText(h) + h.rest == s
      && (n < 3 ==> s[n] == "let"[n])
      && (a <= n < b ==> s[n] == h.name[n - a])
      && (3 <= n < a || b <= n ==> Space(u, s[n]) || s[n] == '=')
  {
    HeaderList(h);
    var s, a, b := HeaderAsList(h), 3 + |h.before|, 3 + |h.before| + |h.name|;
    var c := b + |h.mid|;
    assert 3 <= n < a ==> s[n] == h.before[n - 3];
    assert b <= n < c ==> s[n] == h.mid[n - b];
    assert n == c ==> s[n] == '=';
    assert c < n ==> s[n] == h.after[n - c - 1];
  }

  /** Where a letter stands in a header beyond its first: in `let`, or in the name. */
  lemma {:induction false} HeaderLetters(u: Unicode, h: Header, n: nat)
    requires HeaderOk(u, h) && 0 < n < |HeaderText(h)| && IdentStart((HeaderText(h) + h.rest)[n])
    ensures var s, a, b := HeaderText(h) + h.rest, 3 + |h.before|, 3 + |h.before| + |h.name|;
      && ((n < 3 && s[n] == "let"[n]) || a <= n < b)
      && (n != a ==> IdentChar(s[n - 1]))
  {
    HeaderShape(u, h, n);
    HeaderShape(u, h, n - 1);
    hide HeaderText, HeaderAsList;
  }

  lemma {:induction false} MidHead(u: Unicode, h: Header)
    requires HeaderOk(u, h)
    ensures var t := h.mid + ("=" + (h.after + h.rest)); t != "" && !IdentChar(t[0]) && t[0] != '[' && t[0] != '^'
  {
    assert h.mid != "" ==> Space(u, h.mid[0]);
  }

  /** What follows inside a header's name. */
  lemma {:induction false} InName(u: Unicode, h: Header, n: nat)
    requires HeaderOk(u, h) && 3 + |h.before| <= n < 3 + |h.before| + |h.name|
    ensures (HeaderText(h) + h.rest)[n..] == h.name[n - 3 - |h.before|..] + (h.mid + ("=" + (h.after + h.rest)))
  {
    HeaderList(h);
    hide HeaderText;
    var t := h.mid + ("=" + (h.after + h.rest));
    var k := n - 3 - |h.before|;
    Assoc("let", h.before, h.name + t);
    Parts("let" + h.before, h.name + t);
    var s := HeaderAsList(h);
    assert s[n..] == s[3 + |h.before|..][k..];
    assert (h.name + t)[k..] == h.name[k..] + t;
  }

  /** The word at the start of a text is found by its run. */
  lemma {:induction false} SameWord(v: string, t: string, w: string, r: string)
    requires v + t == w + r && (forall i :: 0 <= i < |v| ==> IdentChar(v[i]))
    requires (forall i :: 0 <= i < |w| ==> IdentChar(w[i]))
    requires t != "" && !IdentChar(t[0]) && r != "" && !IdentChar(r[0])
    ensures v == w && t == r
  {
    IdentRunIs(v, t);
    IdentRunIs(w, r);
    Parts(v, t);
    Parts(w, r);
  }

  /** Where a later let header could start inside a header, it is not one. */
  lemma {:induction false} HeaderHoldsNoLet(u: Unicode, h: Header, n: nat)
    requires HeaderOk(u, h) && 0 < n < |HeaderText(h)| && "let " <= (HeaderText(h) + h.rest)[n..]
    ensures LetAt(u, (HeaderText(h) + h.rest)[n..]).None?
  {
    var s := HeaderText(h) + h.rest;
    var y := s[n..];
    assert y[0] == 'l' && y[3] == ' ' && s[n] == y[0];
    HeaderLetters(u, h, n);
    InName(u, h, n);
    MidHead(u, h);
    var w, t := h.name[n - 3 - |h.before|..], h.mid + ("=" + (h.after + h.rest));
    assert y == "let" + y[3..];
    assert y[3..][0] == ' ' && forall i :: 0 <= i < |w| ==> IdentChar(w[i]);
    hide LetAt, HeaderText, HeaderOk, IdentRun;
    SameWord(w, t, "let", y[3..]);
    assert Spaces(u, h.mid) by { MidSpaces(u, h); }
    NoLetHere(u, h.mid, h.after + h.rest);
  }

  lemma {:induction false} MidSpaces(u: Unicode, h: Header)
    requires HeaderOk(u, h)
    ensures Spaces(u, h.mid)
  {
  }

  lemma {:induction false} LetBlockIntro(u: Unicode, h: Header)
    requires HeaderOk(u, h) && Block(u, h.rest).Some? && "let " <= HeaderText(h) + h.rest
    ensures LetBlock(u, HeaderText(h) + h.rest) == Some(Open(Some(h), Block(u, h.rest).value))
  {
    BlockHead(u, h.rest);
    assert !Space(u, h.rest[0]);
    LetComplete(u, h);
    hide LetAt, Block, HeaderText;
  }

  lemma {:induction false} HeaderLong(u: Unicode, h: Header)
    requires HeaderOk(u, h)
    ensures |HeaderText(h)| >= 6
  {
  }

  /** A bound expression at the mirrored text is one at the text. */
  lemma {:induction false} LetBack(u: Unicode, prev: bool, s: string, s': string, n: nat)
    requires Mirror(u, prev, s, s', None, true, n) && 0 < n && LetBlock(u, s').Some?
    ensures LetBlock(u, s).Some?
  {
    LetBlockText(u, s');
    LetRest(u, s');
    LetHead4(u, s');
    var h := LetBlock(u, s').value.header.value;
    HeaderLong(u, h);
    hide Mirror, LetBlock, HeaderText, OpenText, HeaderOk, Registered, Block, PrevAt, LetAt;
    HeaderCrossing(u, prev, s, s', h, n);
    HeaderBack(u, prev, s, s', h, n);
  }

  lemma {:induction false} HeaderBack(u: Unicode, prev: bool, s: string, s': string, h: Header, n: nat)
    requires Mirror(u, prev, s, s', None, true, n) && HeaderOk(u, h) && 6 <= |HeaderText(h)| <= n && "let " <= s'
    requires s' == HeaderText(h) + h.rest && Block(u, h.rest).Some?
    ensures LetBlock(u, s).Some?
  {
    hide *;
    var H := HeaderText(h);
    Parts(H, h.rest);
    assert H <= s';
    MirrorPrefix(u, prev, s, s', None, true, n, H);
    MirrorDrop(u, prev, s, s', None, true, n, |H|);
    var x := s[|H|..];
    OpenBack(u, PrevAt(u, prev, s, |H|), x, h.rest, None, true, n - |H|);
    var g := Header(h.name, h.before, h.mid, h.after, x);
    SameHeader(u, h, g);
    PrefixKept("let ", H, s, s');
    assert s == H + x;
    LetBlockIntro(u, g);
  }

  lemma {:induction false} PrefixKept(a: string, b: string, s: string, t: string)
    requires b <= s && b <= t && |a| <= |b| && a <= t
    ensures a <= s
  {
    assert s[..|a|] == b[..|a|] == t[..|a|];
  }

  lemma {:induction false} SameHeader(u: Unicode, h: Header, g: Header)
    requires HeaderOk(u, h) && h.name == g.name && h.before == g.before && h.mid == g.mid && h.after == g.after
    ensures HeaderText(g) == HeaderText(h) && HeaderOk(u, g)
  {
  }

  lemma {:induction false} LetRest(u: Unicode, s: string)
    requires LetBlock(u, s).Some?
    ensures var t := LetBlock(u, s).value;
      && t.Open? && t.header.Some? && Block(u, t.header.value.rest) == Some(t.opener)
      && t.header.value.rest == OpenText(t.opener.language, t.opener.marker) + t.opener.rest
      && s == HeaderText(t.header.value) + t.header.value.rest
  {
    hide OpenAt, LetAt;
    LetSound(u, s);
    OpenSound(u, LetAt(u, s).value.rest);
  }

  lemma {:induction false} MirrorDrop(u: Unicode, prev: bool, s: string, s': string, end: Option<string>, top: bool,
                                      n: nat, k: nat)
    requires Mirror(u, prev, s, s', end, top, n) && k <= n
    ensures k <= |s| && k <= |s'| && Mirror(u, PrevAt(u, prev, s, k), s[k..], s'[k..], end, top, n - k)
  {
    DropTake(s, k, n);
    DropTake(s', k, n);
    PrevDrop(u, prev, s, k, n);
    hide SameToken, SameHead, PrevAt;
  }

  lemma {:induction false} DropTake(s: string, k: nat, n: nat)
    requires k <= n <= |s|
    ensures s[k..][n - k..] == s[n..] && s[k..][..n - k] == s[..n][k..]
  {
  }

  lemma {:induction false} PrevDrop(u: Unicode, prev: bool, s: string, k: nat, n: nat)
    requires k <= n <= |s|
    ensures PrevAt(u, PrevAt(u, prev, s, k), s[k..], n - k) == PrevAt(u, prev, s, n)
  {
    hide Word;
  }

  /** A header that starts in the common part ends there too. */
  lemma {:induction false} HeaderCrossing(u: Unicode, prev: bool, s: string, s': string, h: Header, n: nat)
    requires Mirror(u, prev, s, s', None, true, n) && 0 < n && HeaderOk(u, h) && s' == HeaderText(h) + h.rest
    ensures |HeaderText(h)| <= n
  {
    hide *;
    if n < |HeaderText(h)| {
      HeaderHoldsNoToken(u, h, n);
      assert |s'| == |HeaderText(h)| + |h.rest|;
      MirrorToken(u, prev, s, s', None, true, n);
      PrevIsWord(u, prev, s', n);
    }
  }

  lemma {:induction false} PrevIsWord(u: Unicode, prev: bool, s: string, n: nat)
    requires 0 < n <= |s|
    ensures PrevAt(u, prev, s, n) == Word(u, s[n - 1])
  {
  }

  lemma {:induction false} HeaderHoldsNoToken(u: Unicode, h: Header, n: nat)
    requires HeaderOk(u, h) && 0 < n < |HeaderText(h)|
    ensures var s := HeaderText(h) + h.rest;
      s[n] != '$' && LetBlock(u, s[n..]).None? && (Word(u, s[n - 1]) || Block(u, s[n..]).None?)
  {
    HeaderChars(u, h, n);
    HeaderHoldsNoTag(u, h, n);
    hide Block, LetAt, HeaderText, HeaderOk, Word;
    if "let " <= (HeaderText(h) + h.rest)[n..] { HeaderHoldsNoLet(u, h, n); }
  }

  /** Where a tag could start inside a header, after no word, it is not one. */
  lemma {:induction false} HeaderHoldsNoTag(u: Unicode, h: Header, n: nat)
    requires HeaderOk(u, h) && 0 < n < |HeaderText(h)|
    ensures var s := HeaderText(h) + h.rest; Word(u, s[n - 1]) || Block(u, s[n..]).None?
  {
    var s := HeaderText(h) + h.rest;
    if Block(u, s[n..]).Some? && !Word(u, s[n - 1]) {
      BlockHead(u, s[n..]);
      assert s[n] == s[n..][0];
      HeaderLetters(u, h, n);
      InName(u, h, n);
      MidHead(u, h);
      var t := h.mid + ("=" + (h.after + h.rest));
      hide OpenAt, HeaderText;
      assert h.name[0..] == h.name;
      NoTagHere(u, h.name, t);
    }
  }

  // ------------------------------------------------------------ one token, mirrored

  /** The end tag of a body that is parsed: none for a document, one of an expression otherwise. */
  ghost predicate EndOk(end: Option<string>, top: bool)
  {
    && (top <==> end.None?)
    && (end.Some? ==> exists language, env :: Ident(language) && end.value == ClosingTag(language, env))
  }

  lemma {:induction false} EndFirst(end: Option<string>, top: bool)
    requires EndOk(end, top) && end.Some?
    ensures end.value != "" && end.value[0] == ')'
  {
  }

  /** When a character is plain text. */
  predicate IsPlain(u: Unicode, prev: bool, s: string, end: Option<string>, top: bool)
    requires s != ""
  {
    && (end.Some? ==> !EndAt(s, end.value))
    && (if s[0] == '\\' then (end.Some? ==> !EndAt(s[1..], end.value)) && Block(u, s[1..]).None?
        else
          && (top ==> LetBlock(u, s).None?)
          && !(s[0] == '$' && 1 < |s| && IdentStart(s[1]))
          && (prev || Block(u, s).None?))
  }

  lemma {:induction false} PlainExactly(u: Unicode, prev: bool, s: string, end: Option<string>, top: bool)
    requires s != ""
    ensures Look(u, prev, s, end, top).Plain? <==> IsPlain(u, prev, s, end, top)
  {
    hide Block, LetBlock, EndAt;
    assert 1 < |s| ==> s[1..][0] == s[1];
    assert IdentRun(s[1..]) > 0 <==> 1 < |s| && IdentChar(s[1]);
  }

  lemma {:induction false} EndsMirror(u: Unicode, prev: bool, s: string, s': string, end: Option<string>, top: bool,
                                      n: nat)
    requires Mirror(u, prev, s, s', end, top, n) && EndOk(end, top) && end.Some? && EndAt(s', end.value)
    ensures EndAt(s, end.value)
  {
    hide Mirror, EndAt;
    var language, env :| Ident(language) && end.value == ClosingTag(language, env);
    EndBack(u, prev, s, s', language, env, n);
  }

  lemma {:induction false} PlainMirrors(u: Unicode, prev: bool, s: string, s': string, end: Option<string>, top: bool,
                                        n: nat)
    requires Mirror(u, prev, s, s', end, top, n) && 0 < n && EndOk(end, top)
    requires IsPlain(u, prev, s, end, top)
    ensures s' != "" && s'[0] == s[0] && IsPlain(u, prev, s', end, top)
  {
    hide Mirror, Block, LetBlock, EndAt, EndOk, PrevAt, Word, SameToken;
    MirrorLong(u, prev, s, s', end, top, n);
    MirrorChar(u, prev, s, s', end, top, n, 0);
    MirrorChar(u, prev, s, s', end, top, n, 1);
    if end.Some? {
      EndFirst(end, top);
      if EndAt(s', end.value) { EndsMirror(u, prev, s, s', end, top, n); }
    }
    if s[0] == '\\' {
      BackslashMirrors(u, prev, s, s', end, top, n);
    } else {
      if top && LetBlock(u, s').Some? { LetMirrorsBack(u, prev, s, s', end, top, n); }
      if !prev && Block(u, s').Some? { OpenBack(u, prev, s, s', end, top, n); }
    }
  }

  lemma {:induction false} LetMirrorsBack(u: Unicode, prev: bool, s: string, s': string, end: Option<string>, top: bool,
                                          n: nat)
    requires Mirror(u, prev, s, s', end, top, n) && 0 < n && EndOk(end, top) && top && LetBlock(u, s').Some?
    ensures LetBlock(u, s).Some?
  {
    hide Mirror, LetBlock;
    assert end == None;
    LetBack(u, prev, s, s', n);
  }

  lemma {:induction false} BackslashMirrors(u: Unicode, prev: bool, s: string, s': string, end: Option<string>,
                                            top: bool, n: nat)
    requires Mirror(u, prev, s, s', end, top, n) && 0 < n && EndOk(end, top) && s != "" && s' != ""
    ensures Block(u, s'[1..]).Some? ==> Block(u, s[1..]).Some?
    ensures end.Some? && EndAt(s'[1..], end.value) ==> EndAt(s[1..], end.value)
  {
    hide *;
    MirrorDrop(u, prev, s, s', end, top, n, 1);
    var p := PrevAt(u, prev, s, 1);
    if end.Some? {
      EndFirst(end, top);
      if EndAt(s'[1..], end.value) { EndsMirror(u, p, s[1..], s'[1..], end, top, n - 1); }
    }
    if Block(u, s'[1..]).Some? { OpenBack(u, p, s[1..], s'[1..], end, top, n - 1); }
  }

  lemma {:induction false} MirrorCons(u: Unicode, prev: bool, c: char, s: string, s': string, end: Option<string>,
                                      top: bool, n: nat)
    requires Mirror(u, Word(u, c), s, s', end, top, n)
    ensures Mirror(u, prev, [c] + s, [c] + s', end, top, n + 1)
  {
    var a, b := [c] + s, [c] + s';
    hide SameToken;
    assert a[n + 1..] == s[n..] && b[n + 1..] == s'[n..];
    assert a[..n + 1] == [c] + s[..n] && b[..n + 1] == [c] + s'[..n];
    assert PrevAt(u, prev, a, n + 1) == PrevAt(u, Word(u, c), s, n);
  }

  lemma {:induction false} MirrorHead(u: Unicode, prev: bool, s: string, s': string, end: Option<string>, top: bool,
                                      n: nat)
    requires Mirror(u, prev, s, s', end, top, n)
    ensures SameHead(s, s')
  {
    hide SameToken;
    MirrorChar(u, prev, s, s', end, top, n, 0);
  }

  lemma {:induction false} LookVar(u: Unicode, prev: bool, name: string, rest: string, end: Option<string>, top: bool)
    requires Ident(name) && (rest == "" || !IdentChar(rest[0]))
    requires (end.Some? ==> end.value != "" && end.value[0] == ')')
    ensures Look(u, prev, "$" + (name + rest), end, top) == VarUse(name, rest)
  {
    var s := "$" + (name + rest);
    Parts("$", name + rest);
    IdentRunIs(name, rest);
    Parts(name, rest);
    hide IdentRun, Block;
    assert LetBlock(u, s).None? && (end.Some? ==> !EndAt(s, end.value));
    hide LetBlock, EndAt;
    assert s[1..1 + |name|] == s[1..][..|name|] && s[1 + |name|..] == s[1..][|name|..];
    assert s[1] == name[0];
  }

  /** A reference is read back, whatever follows that starts alike. */
  lemma {:induction false} VarMirrors(u: Unicode, prev: bool, name: string, rest: string, rest': string,
                                      end: Option<string>, top: bool)
    requires Ident(name) && (rest == "" || !IdentChar(rest[0])) && SameHead(rest, rest') && EndOk(end, top)
    ensures var s, s' := "$" + name + rest, "$" + name + rest';
      Look(u, prev, s', end, top) == VarUse(name, rest') && Mirror(u, prev, s, s', end, top, 0)
  {
    if end.Some? { EndFirst(end, top); }
    hide Look, LetBlock, Block, EndAt;
    LookVar(u, prev, name, rest', end, top);
    Assoc("$", name, rest);
    Assoc("$", name, rest');
    MirrorStart(u, prev, "$" + (name + rest), "$" + (name + rest'), end, top);
  }

  /** A closing tag is read back, whatever follows that starts alike. */
  lemma {:induction false} CloseMirrors(u: Unicode, prev: bool, end: Option<string>, top: bool, rest: string,
                                        rest': string)
    requires EndOk(end, top) && end.Some? && Follows(rest, rest') && Boundary(end.value, rest)
    ensures end.value + rest' != "" && Look(u, prev, end.value + rest', end, top) == Close
    ensures Mirror(u, prev, end.value + rest, end.value + rest', end, top, 0)
  {
    var s, s' := end.value + rest, end.value + rest';
    EndFirst(end, top);
    Parts(end.value, rest);
    Parts(end.value, rest');
    BoundarySame(end.value, rest, rest');
    hide Boundary, Block, LetBlock, EndOk;
    assert s[0..] == s && s'[0..] == s';
  }

  function MarkerOf(env: Env): Option<string>
  {
    if !env.explicit then None else if env.id == LINKER_ISOLATED_ENV_ID then Some("*") else Some(Decimal.Text(env.id))
  }

  lemma {:induction false} NumberIsValue(u: Unicode, digits: string)
    requires Decimal.AllDigits(digits)
    ensures Digits(u, digits) && Number(u, digits) == Decimal.Value(digits)
  {
    if digits != "" {
      NumberIsValue(u, digits[..|digits| - 1]);
      assert Digit(u, digits[|digits| - 1]) == Some(digits[|digits| - 1] as int - '0' as int);
    }
  }

  /** An environment's own spelling names it. */
  lemma {:induction false} MarkerNames(u: Unicode, marker: Option<string>, env: Env)
    requires MarkerOk(u, marker) && DecodeEnv(u, marker) == Some(env)
    ensures MarkerOk(u, MarkerOf(env)) && DecodeEnv(u, MarkerOf(env)) == Some(env)
    ensures Marker(env) == MarkerText(MarkerOf(env))
  {
    if marker.Some? && marker.value != "*" {
      var t := Decimal.Text(env.id);
      NumberIsValue(u, t);
      Decimal.ValueOfText(env.id);
      assert Decimal.IsDigit(t[0]);
      hide Number, Decimal.Text, Decimal.Value, Decimal.AllDigits, Digits;
      assert t != "*";
    }
  }

  lemma {:induction false} OpenShape(u: Unicode, prev: bool, s: string, end: Option<string>, top: bool)
    requires s != "" && Look(u, prev, s, end, top).Open?
    ensures var t := Look(u, prev, s, end, top);
      && (t.header.Some? ==> top && LetBlock(u, s) == Some(t))
      && (t.header.None? ==> !prev && Block(u, s) == Some(t.opener))
  {
    hide Block, EndAt;
  }

  lemma {:induction false} LookOpen(u: Unicode, s: string, end: Option<string>, top: bool, o: Opener)
    requires s != "" && Block(u, s) == Some(o) && LetBlock(u, s).None?
    requires (end.Some? ==> end.value != "" && end.value[0] == ')')
    ensures Look(u, false, s, end, top) == Open(None, o)
  {
    BlockHead(u, s);
    hide Block, LetBlock;
    assert end.Some? ==> !EndAt(s, end.value);
    hide EndAt;
  }

  lemma {:induction false} LookLet(u: Unicode, prev: bool, s: string)
    requires s != "" && LetBlock(u, s).Some?
    ensures Look(u, prev, s, None, true) == LetBlock(u, s).value
  {
    hide LetBlock, Block, Inline, Backslash, EndAt, LetAt;
    LetHead4(u, s);
  }

  lemma {:induction false} MirrorStart(u: Unicode, prev: bool, s: string, s': string, end: Option<string>, top: bool)
    requires s != "" && s' != "" && s[0] == s'[0] && SameToken(u, prev, s, s', end, top)
    ensures Mirror(u, prev, s, s', end, top, 0)
  {
    hide SameToken;
    assert s[0..] == s && s'[0..] == s';
  }

  /** A tag in its own spelling is a tag, and starts as the one it stands for. */
  lemma {:induction false} TagRespelled(u: Unicode, s: string, o: Opener, env: Env, t: string)
    requires Block(u, s) == Some(o) && DecodeEnv(u, o.marker) == Some(env)
    ensures MarkerOk(u, MarkerOf(env))
    ensures var s' := OpeningTag(o.language, env) + t;
      && s != "" && s' != "" && s[0] == s'[0] && LetBlock(u, s').None?
      && Block(u, s') == Some(Opener(o.language, MarkerOf(env), t))
  {
    var m := MarkerOf(env);
    MarkerNames(u, o.marker, env);
    OpenSound(u, s);
    OpenComplete(u, o.language, m, t);
    var s' := OpenText(o.language, m) + t;
    assert s' == OpeningTag(o.language, env) + t;
    TagMeetsLet(u, o.language, m, s', 0);
    assert s'[0..] == s';
    FirstOfTag(o.language, o.marker, o.rest);
    FirstOfTag(o.language, m, t);
    hide OpenAt, OpeningTag, OpenText, MarkerOf, DecodeEnv, LetAt, Registered;
  }

  /** A tag in its own spelling is read back, whatever follows. */
  lemma {:induction false} TagMirrors(u: Unicode, s: string, end: Option<string>, top: bool, o: Opener, env: Env,
                                      t: string)
    requires Block(u, s) == Some(o) && DecodeEnv(u, o.marker) == Some(env) && EndOk(end, top)
    ensures MarkerOk(u, MarkerOf(env))
    ensures var s' := OpeningTag(o.language, env) + t;
      && s' != "" && Look(u, false, s', end, top) == Open(None, Opener(o.language, MarkerOf(env), t))
      && Mirror(u, false, s, s', end, top, 0)
  {
    hide Block, LetBlock, OpeningTag, MarkerOf, DecodeEnv, EndAt, Look;
    TagRespelled(u, s, o, env, t);
    var s' := OpeningTag(o.language, env) + t;
    if end.Some? { EndFirst(end, top); }
    LookOpen(u, s', end, top, Opener(o.language, MarkerOf(env), t));
    MirrorStart(u, false, s, s', end, top);
  }

  lemma {:induction false} FirstOfTag(language: string, marker: Option<string>, t: string)
    requires language != ""
    ensures (OpenText(language, marker) + t)[0] == language[0]
  {
  }

  lemma {:induction false} CanonicalHeader(u: Unicode, name: string, t: string)
    requires Ident(name)
    ensures var g := Header(name, " ", " ", " ", t);
      HeaderOk(u, g) && HeaderText(g) == "let " + name + " = " && "let " <= HeaderText(g) + t
  {
    var g := Header(name, " ", " ", " ", t);
    assert "let" + " " == "let ";
    var a := "let " + name;
    assert a + " " + "=" + " " == a + " = ";
    assert (HeaderText(g) + t)[..4] == "let ";
  }

  /** A let header in its own spacing is read back, whatever tag follows. */
  lemma {:induction false} LetMirrors(u: Unicode, prev: bool, s: string, name: string, t: string, o: Opener)
    requires LetBlock(u, s).Some? && Ident(name) && Block(u, t) == Some(o)
    ensures var s' := "let " + name + " = " + t;
      && s' != "" && Look(u, prev, s', None, true) == Open(Some(Header(name, " ", " ", " ", t)), o)
      && Mirror(u, prev, s, s', None, true, 0)
  {
    var s' := "let " + name + " = " + t;
    CanonicalHeader(u, name, t);
    hide Block, LetAt, HeaderText, HeaderOk, LetBlock, Look;
    LetBlockIntro(u, Header(name, " ", " ", " ", t));
    LetHead4(u, s);
    LetHead4(u, s');
    LookLet(u, prev, s');
    MirrorStart(u, prev, s, s', None, true);
  }

  // -------------------------------------------------------------------- whole source

  /** No backslash was consumed as an escape. */
  predicate Unescaped(ps: seq<Piece>) { forall p :: p in ps ==> !p.Dropped? }

  lemma {:induction false} UnescapedParts(a: seq<Piece>, b: seq<Piece>)
    requires Unescaped(a + b)
    ensures Unescaped(a) && Unescaped(b)
  {
    assert forall p :: p in a || p in b ==> p in a + b;
  }

  function Written(u: Unicode, prev: bool, s: string, end: Option<string>, top: bool): string
  {
    Outputs(Pieces(u, prev, s, end, top))
  }

  /** What was parsed is parsed again from what is written, up to any `rest'` that may follow. */
  ghost predicate Again(u: Unicode, prev: bool, s: string, end: Option<string>, top: bool, buf: string, rest': string,
                        n: nat)
    requires Body(u, prev, s, end, top, buf).Ok?
  {
    var s' := Written(u, prev, s, end, top) + rest';
    && Body(u, prev, s', end, top, buf) == Ok(Parsed(Body(u, prev, s, end, top, buf).value.parts, rest'))
    && Mirror(u, prev, s, s', end, top, n)
  }

  lemma {:induction false} PlainStays(u: Unicode, prev: bool, c: char, t: string, t': string, end: Option<string>,
                                      top: bool, n: nat)
    requires Mirror(u, Word(u, c), t, t', end, top, n) && EndOk(end, top) && Look(u, prev, [c] + t, end, top).Plain?
    ensures Look(u, prev, [c] + t', end, top).Plain? && Mirror(u, prev, [c] + t, [c] + t', end, top, n + 1)
  {
    hide Mirror, Look, IsPlain, EndOk, Word;
    MirrorCons(u, prev, c, t, t', end, top, n);
    PlainExactly(u, prev, [c] + t, end, top);
    PlainMirrors(u, prev, [c] + t, [c] + t', end, top, n + 1);
    PlainExactly(u, prev, [c] + t', end, top);
  }

  lemma {:induction false} PlainAgain(u: Unicode, prev: bool, s: string, end: Option<string>, top: bool, buf: string,
                                      rest': string, n: nat)
    requires s != "" && Look(u, prev, s, end, top).Plain? && EndOk(end, top)
    requires Body(u, Word(u, s[0]), s[1..], end, top, buf + [s[0]]).Ok?
    requires Again(u, Word(u, s[0]), s[1..], end, top, buf + [s[0]], rest', n)
    ensures Body(u, prev, s, end, top, buf).Ok? && Again(u, prev, s, end, top, buf, rest', n + 1)
  {
    var c, t := s[0], s[1..];
    PiecesPlain(u, prev, s, end, top, buf);
    hide Body, Pieces, Look, Mirror, EndOk, Word;
    var w := Written(u, Word(u, c), t, end, top);
    SourcesCons(Same(s[..1]), Pieces(u, Word(u, c), t, end, top));
    hide Outputs;
    assert s[..1] == [c] && s == [c] + t;
    Assoc([c], w, rest');
    PlainStays(u, prev, c, t, w + rest', end, top, n);
    Parts([c], w + rest');
    PiecesPlain(u, prev, [c] + (w + rest'), end, top, buf);
  }

  lemma {:induction false} VarAgain(u: Unicode, prev: bool, s: string, end: Option<string>, top: bool, buf: string,
                                    name: string, rest: string, rest': string, n: nat)
    requires s != "" && Look(u, prev, s, end, top) == VarUse(name, rest) && EndOk(end, top)
    requires Body(u, EndsWord(u, name), rest, end, top, "").Ok?
    requires Again(u, EndsWord(u, name), rest, end, top, "", rest', n)
    ensures Body(u, prev, s, end, top, buf).Ok? && Again(u, prev, s, end, top, buf, rest', 0)
  {
    ShortTokenText(u, prev, s, end, top);
    hide Look, Mirror;
    var w := Written(u, EndsWord(u, name), rest, end, top);
    var s' := "$" + name + (w + rest');
    MirrorHead(u, EndsWord(u, name), rest, w + rest', end, top, n);
    VarMirrors(u, prev, name, rest, w + rest', end, top);
    SourcesCons(Same("$" + name), Pieces(u, EndsWord(u, name), rest, end, top));
    Assoc("$" + name, w, rest');
    assert Written(u, prev, s, end, top) + rest' == s';
  }

  lemma {:induction false} NestedAgain(u: Unicode, header: Option<Header>, o: Opener, left: nat, end: Option<string>,
                                       top: bool, buf: string, rest': string, header': Option<Header>, left': nat)
    requires MarkerOk(u, o.marker) && Ident(o.language) && Nested(u, header, o, left, end, top, buf).Ok?
    requires EndOk(end, top)
    requires Unescaped(NestedPieces(u, o, end, top))
    requires Follows(Nested(u, header, o, left, end, top, buf).value.rest, rest')
    requires Node(header, Text("")) == Node(header', Text(""))
    ensures DecodeEnv(u, o.marker).Some?
    ensures MarkerOk(u, MarkerOf(DecodeEnv(u, o.marker).value))
    ensures var o' := Opener(o.language, MarkerOf(DecodeEnv(u, o.marker).value),
        Outputs(NestedPieces(u, o, end, top)) + rest');
      Nested(u, header', o', left', end, top, buf) ==
        Ok(Parsed(Nested(u, header, o, left, end, top, buf).value.parts, rest'))
    decreases |o.rest|, 1
  {
    var env := DecodeEnv(u, o.marker).value;
    MarkerNames(u, o.marker, env);
    var tag := ClosingTag(o.language, env);
    var inner := Body(u, false, o.rest, Some(tag), false, "").value;
    assert EndOk(Some(tag), false);
    var a, b := Pieces(u, false, o.rest, Some(tag), false), Pieces(u, EndsWord(u, tag), inner.rest, end, top);
    hide Body, Pieces, Mirror, MarkerOf, DecodeEnv, ClosingTag, EndOk;
    UnescapedParts(a, b);
    var n2 := Reparses(u, EndsWord(u, tag), inner.rest, end, top, "", rest');
    var r' := Outputs(b) + rest';
    MirrorHead(u, EndsWord(u, tag), inner.rest, r', end, top, n2);
    var n1 := Reparses(u, false, o.rest, Some(tag), false, "", r');
    SourcesAppend(a, b);
    Assoc(Outputs(a), Outputs(b), rest');
  }

  lemma {:induction false} EscapeListed(u: Unicode, prev: bool, s: string, end: Option<string>, top: bool)
    requires s != "" && Look(u, prev, s, end, top).Escape?
    ensures !Unescaped(Pieces(u, prev, s, end, top))
  {
    var t := Look(u, prev, s, end, top);
    hide Look;
    assert Pieces(u, prev, s, end, top)[0] == Dropped(t.text);
  }

  lemma {:induction false} CloseAgain(u: Unicode, prev: bool, s: string, end: Option<string>, top: bool, buf: string,
                                      rest': string)
    requires s != "" && Look(u, prev, s, end, top).Close? && EndOk(end, top) && Follows(s[|end.value|..], rest')
    ensures Body(u, prev, s, end, top, buf).Ok? && Again(u, prev, s, end, top, buf, rest', 0)
  {
    ShortTokenText(u, prev, s, end, top);
    hide Look, Mirror;
    var e := end.value;
    CloseMirrors(u, prev, end, top, s[|e|..], rest');
    assert s == e + s[|e|..];
    SourcesOne(Same(e));
    Parts(e, rest');
  }

  /** An expression, bound or not, in its own spelling starts a document part again. */
  lemma {:induction false} OpenRespelled(u: Unicode, prev: bool, s: string, end: Option<string>, top: bool,
                                         header: Option<Header>, o: Opener, env: Env, t: string)
      returns (header': Option<Header>)
    requires s != "" && Look(u, prev, s, end, top) == Open(header, o) && DecodeEnv(u, o.marker) == Some(env)
    requires EndOk(end, top)
    ensures Node(header, Text("")) == Node(header', Text(""))
    ensures MarkerOk(u, MarkerOf(env))
    ensures var s' := Outputs(HeadPieces(header)) + (OpeningTag(o.language, env) + t);
      && s' != "" && Look(u, prev, s', end, top) == Open(header', Opener(o.language, MarkerOf(env), t))
      && Mirror(u, prev, s, s', end, top, 0)
  {
    hide Look, Mirror, Block, LetBlock, MarkerOf, OpeningTag, DecodeEnv, HeaderText, OpenText, Registered;
    OpenShape(u, prev, s, end, top);
    OpenTokenText(u, prev, s, end, top);
    var tag := OpeningTag(o.language, env) + t;
    if header.None? {
      header' := None;
      TagMirrors(u, s, end, top, o, env, t);
      assert Outputs(HeadPieces(header)) + tag == tag;
    } else {
      var h := header.value;
      LetRest(u, s);
      TagRespelled(u, h.rest, o, env, t);
      LetMirrors(u, prev, s, h.name, tag, Opener(o.language, MarkerOf(env), t));
      SourcesOne(LetHead(h));
      header' := Some(Header(h.name, " ", " ", " ", tag));
    }
  }

  lemma {:induction false} OpenAgain(u: Unicode, prev: bool, s: string, end: Option<string>, top: bool, buf: string,
                                     rest': string, header: Option<Header>, o: Opener)
    requires s != "" && Look(u, prev, s, end, top) == Open(header, o) && EndOk(end, top)
    requires Body(u, prev, s, end, top, buf).Ok? && Unescaped(Pieces(u, prev, s, end, top))
    requires Follows(Body(u, prev, s, end, top, buf).value.rest, rest')
    ensures Again(u, prev, s, end, top, buf, rest', 0)
    decreases |o.rest|, 2
  {
    BodyOpen(u, prev, s, end, top, buf, header, o);
    OpenTokenText(u, prev, s, end, top);
    var left := if header.Some? then |header.value.rest| else |s|;
    var env := DecodeEnv(u, o.marker);
    assert env.Some?;
    hide Body, Pieces, Look, Mirror, Nested, NestedPieces, HeadPieces, TagPieces, DecodeEnv, MarkerOf, Registered,
         HeaderOk, EndOk;
    var a, b, c := HeadPieces(header), TagPieces(u, o), NestedPieces(u, o, end, top);
    UnescapedParts(a + b, c);
    SourcesAppend(a + b, c);
    SourcesAppend(a, b);
    TagOutput(u, o);
    var t := Outputs(c) + rest';
    var header' := OpenRespelled(u, prev, s, end, top, header, o, env.value, t);
    hide Outputs, OpeningTag, Unescaped;
    var s' := Outputs(a) + (Outputs(b) + t);
    assert Written(u, prev, s, end, top) + rest' == s' by {
      Assoc(Outputs(b), Outputs(c), rest');
      Assoc(Outputs(a), Outputs(b) + Outputs(c), rest');
      Assoc(Outputs(a), Outputs(b), Outputs(c));
    }
    var o' := Opener(o.language, MarkerOf(env.value), t);
    BodyOpen(u, prev, s', end, top, buf, header', o');
    NestedAgain(u, header, o, left, end, top, buf, rest', header',
      if header'.Some? then |header'.value.rest| else |s'|);
  }

  /** Parsing again what is written of an unescaped source. */
  lemma {:induction false} Reparses(u: Unicode, prev: bool, s: string, end: Option<string>, top: bool, buf: string,
                                    rest': string) returns (n: nat)
    requires Body(u, prev, s, end, top, buf).Ok? && Unescaped(Pieces(u, prev, s, end, top)) && EndOk(end, top)
    requires Follows(Body(u, prev, s, end, top, buf).value.rest, rest')
    ensures Again(u, prev, s, end, top, buf, rest', n)
    decreases |s|, 0
  {
    if s == "" {
      n := 0;
    } else {
      var t := Look(u, prev, s, end, top);
      match t {
        case Plain => {
          PiecesPlain(u, prev, s, end, top, buf);
          hide Look, Again, EndOk;
          UnescapedParts([Same(s[..1])], Pieces(u, Word(u, s[0]), s[1..], end, top));
          n := Reparses(u, Word(u, s[0]), s[1..], end, top, buf + [s[0]], rest');
          PlainAgain(u, prev, s, end, top, buf, rest', n);
          n := n + 1;
        }
        case Close => {
          n := 0;
          CloseAgain(u, prev, s, end, top, buf, rest');
        }
        case Escape(_, _) => {
          hide Look, Again, EndOk, Body;
          EscapeListed(u, prev, s, end, top);
        }
        case VarUse(name, rest) => {
          hide Look, Again, EndOk;
          UnescapedParts([Same("$" + name)], Pieces(u, EndsWord(u, name), rest, end, top));
          n := Reparses(u, EndsWord(u, name), rest, end, top, "", rest');
          VarAgain(u, prev, s, end, top, buf, name, rest, rest', n);
          n := 0;
        }
        case Open(header, o) => {
          hide Look, Again, EndOk;
          OpenAgain(u, prev, s, end, top, buf, rest', header, o);
          n := 0;
        }
      }
    }
  }

  /** A source from which no escape was consumed: its reconstruction parses to the same tree. */
  lemma {:induction false} ReparsesToTheSameTree(u: Unicode, src: string)
    requires ParseDocument(u, src).Ok? && Unescaped(DocumentPieces(u, src))
    ensures ParseDocument(u, ReconstructAll(ParseDocument(u, src).value)) == ParseDocument(u, src)
  {
    ReconstructionExact(u, src);
    hide Pieces, Body, Outputs, Sources, Unescaped;
    var n := Reparses(u, false, src, None, true, "", "");
    var w := Written(u, false, src, None, true);
    assert w + "" == w;
  }

  lemma {:induction false} DroppedShows(ps: seq<Piece>)
    requires !Unescaped(ps)
    ensures '\\' in Sources(ps)
  {
    if ps[0].Dropped? {
      assert Sources(ps)[0] == '\\';
    } else {
      assert ps == [ps[0]] + ps[1..];
      DroppedShows(ps[1..]);
      var i :| 0 <= i < |Sources(ps[1..])| && Sources(ps[1..])[i] == '\\';
      assert Sources(ps)[|Source(ps[0])| + i] == '\\';
    }
  }

  /** In a source without a backslash there is no escape to consume. */
  lemma {:induction false} NoBackslashUnescaped(u: Unicode, src: string)
    requires ParseDocument(u, src).Ok? && '\\' !in src
    ensures Unescaped(DocumentPieces(u, src))
  {
    hide ParseDocument, DocumentPieces, Unescaped, Sources;
    ReconstructionExact(u, src);
    if !Unescaped(DocumentPieces(u, src)) { DroppedShows(DocumentPieces(u, src)); }
  }
}
