/** What evaluation promises about environments. */
module EvaluationTheorems {
  import opened Wrappers
  import opened Syntax
  import opened Evaluation

  // ------------------------------------------------------------------ order of calls

  /** The blocks of an expression, leaves first and left to right. */
  function Post(node: Part): seq<Key>
    requires node.Expr?
    decreases node, 0
  {
    PostAll(node.body) + [KeyOf(node)]
  }

  function PostAll(body: seq<Part>): seq<Key>
    decreases body, 1
  {
    if body == [] then [] else PostAll(body[..|body| - 1]) + PostOne(body[|body| - 1])
  }

  function PostOne(p: Part): seq<Key>
    decreases p, 2
  {
    if p.Expr? then Post(p) else []
  }

  function CallKeys(calls: seq<Call>): (r: seq<Key>)
    ensures |r| == |calls| && forall i :: 0 <= i < |r| ==> r[i] == calls[i].key
  {
    seq(|calls|, i requires 0 <= i < |calls| => calls[i].key)
  }

  lemma {:induction false} CallKeysAppend(a: seq<Call>, b: seq<Call>)
    ensures CallKeys(a + b) == CallKeys(a) + CallKeys(b)
  {
  }

  /** The calls made are the first blocks in that order, and all of them when nothing raises. */
  ghost predicate InOrder(calls: seq<Call>, order: seq<Key>, complete: bool)
  {
    CallKeys(calls) <= order && (complete ==> CallKeys(calls) == order)
  }

  lemma {:induction false} InOrderThen(a: seq<Call>, p: seq<Key>, b: seq<Call>, q: seq<Key>, complete: bool)
    requires InOrder(a, p, true) && InOrder(b, q, complete)
    ensures InOrder(a + b, p + q, complete)
  {
    CallKeysAppend(a, b);
  }

  lemma {:induction false} InOrderStops(a: seq<Call>, p: seq<Key>, q: seq<Key>, was: bool)
    requires InOrder(a, p, was)
    ensures InOrder(a, p + q, false)
  {
  }

  lemma {:induction false} KeysInOrder<V, E>(bs: Backends<V, E>, envs: Envs<E>, scope: Scope<V>, node: Part)
    requires node.Expr?
    ensures var r := EvalExpr(bs, envs, scope, node); InOrder(r.calls, Post(node), r.value.Some?)
    decreases node, 0
  {
    var key := KeyOf(node);
    if key.language in bs {
      var b := bs[key.language];
      var kids := Splice(bs, Entered(envs, key, b.initial), scope, b.render, node.body);
      SpliceInOrder(bs, Entered(envs, key, b.initial), scope, b.render, node.body);
      hide Splice, PostAll;
      if kids.text.None? {
        InOrderStops(kids.calls, PostAll(node.body), [key], false);
      } else {
        var own := [Call(key, kids.text.value)];
        InOrderThen(kids.calls, PostAll(node.body), own, [key], true);
      }
    }
  }

  lemma {:induction false} SpliceInOrder<V, E>(bs: Backends<V, E>, envs: Envs<E>, scope: Scope<V>, render: V -> string,
                                               body: seq<Part>)
    ensures var r := Splice(bs, envs, scope, render, body); InOrder(r.calls, PostAll(body), r.text.Some?)
    decreases body, 1
  {
    if body != [] {
      var init, last := body[..|body| - 1], body[|body| - 1];
      var so := Splice(bs, envs, scope, render, init);
      SpliceInOrder(bs, envs, scope, render, init);
      if so.text.None? {
        hide Splice, PostOne;
        InOrderStops(so.calls, PostAll(init), PostOne(last), false);
        SpliceStops(bs, envs, scope, render, body);
      } else if last.Expr? {
        var out := EvalExpr(bs, so.envs, scope, last);
        KeysInOrder(bs, so.envs, scope, last);
        hide EvalExpr, Post;
        InOrderThen(so.calls, PostAll(init), out.calls, Post(last), out.value.Some?);
      } else {
        assert PostAll(body) == PostAll(init);
      }
    }
  }

  lemma {:induction false} SpliceStops<V, E>(bs: Backends<V, E>, envs: Envs<E>, scope: Scope<V>, render: V -> string,
                                             body: seq<Part>)
    requires body != [] && Splice(bs, envs, scope, render, body[..|body| - 1]).text.None?
    ensures Splice(bs, envs, scope, render, body) == Splice(bs, envs, scope, render, body[..|body| - 1])
  {
  }

  // --------------------------------------------------------- environments are replayed

  /** The bodies given to one environment, in order. */
  function BodiesOf(calls: seq<Call>, key: Key): seq<string>
  {
    if calls == [] then []
    else
      var init, last := BodiesOf(calls[..|calls| - 1], key), calls[|calls| - 1];
      if last.key == key then init + [last.body] else init
  }

  /** An environment after running bodies in order. */
  function Feed<V, E>(b: Backend<V, E>, env: E, bodies: seq<string>): E
  {
    if bodies == [] then env else b.run(bodies[|bodies| - 1], Feed(b, env, bodies[..|bodies| - 1])).env
  }

  lemma {:induction false} BodiesAppend(a: seq<Call>, b: seq<Call>, key: Key)
    ensures BodiesOf(a + b, key) == BodiesOf(a, key) + BodiesOf(b, key)
  {
    if b == [] {
      assert a + b == a;
    } else {
      assert (a + b)[..|a + b| - 1] == a + b[..|b| - 1];
      BodiesAppend(a, b[..|b| - 1], key);
    }
  }

  lemma {:induction false} FeedAppend<V, E>(b: Backend<V, E>, env: E, x: seq<string>, y: seq<string>)
    ensures Feed(b, env, x + y) == Feed(b, Feed(b, env, x), y)
  {
    if y == [] {
      assert x + y == x;
    } else {
      assert (x + y)[..|x + y| - 1] == x + y[..|y| - 1];
      FeedAppend(b, env, x, y[..|y| - 1]);
    }
  }

  /** One environment from `before` to `after`: reserved ids are never stored; a stored one is
      created once, from its backend's initial environment, and fed exactly its own bodies. */
  ghost predicate Evolves<V, E>(bs: Backends<V, E>, before: Envs<E>, after: Envs<E>, calls: seq<Call>, key: Key)
  {
    if !Persistent(key) then
      && (key in after <==> key in before)
      && (key in before && key in after ==> after[key] == before[key])
    else if key !in after then key !in before && BodiesOf(calls, key) == []
    else if key.language !in bs then key in before && after[key] == before[key] && BodiesOf(calls, key) == []
    else
      var b := bs[key.language];
      after[key] == Feed(b, if key in before then before[key] else b.initial, BodiesOf(calls, key))
  }

  lemma {:induction false} EvolvesThen<V, E>(bs: Backends<V, E>, a: Envs<E>, b: Envs<E>, c: Envs<E>, x: seq<Call>,
                                             y: seq<Call>, key: Key)
    requires Evolves(bs, a, b, x, key) && Evolves(bs, b, c, y, key) && a.Keys <= b.Keys <= c.Keys
    ensures Evolves(bs, a, c, x + y, key)
  {
    BodiesAppend(x, y, key);
    if Persistent(key) && key in c && key.language in bs {
      var env := if key in a then a[key] else bs[key.language].initial;
      FeedAppend(bs[key.language], env, BodiesOf(x, key), BodiesOf(y, key));
      assert key !in b ==> BodiesOf(x, key) + BodiesOf(y, key) == BodiesOf(y, key);
    }
  }

  lemma {:induction false} EnvsReplay<V, E>(bs: Backends<V, E>, envs: Envs<E>, scope: Scope<V>, node: Part, key: Key)
    requires node.Expr?
    ensures var r := EvalExpr(bs, envs, scope, node); Evolves(bs, envs, r.envs, r.calls, key)
    decreases node, 0
  {
    var own := KeyOf(node);
    if own.language in bs {
      var b := bs[own.language];
      var start := Entered(envs, own, b.initial);
      var kids := Splice(bs, start, scope, b.render, node.body);
      SpliceReplay(bs, start, scope, b.render, node.body, key);
      hide Splice;
      assert Evolves(bs, envs, start, [], key);
      EvolvesThen(bs, envs, start, kids.envs, [], kids.calls, key);
      assert [] + kids.calls == kids.calls;
      if kids.text.Some? {
        var r := EvalExpr(bs, envs, scope, node);
        CallEvolves(bs, kids.envs, own, kids.text.value, key);
        EvolvesThen(bs, envs, kids.envs, r.envs, kids.calls, [Call(own, kids.text.value)], key);
      }
    }
  }

  lemma {:induction false} CallEvolves<V, E>(bs: Backends<V, E>, envs: Envs<E>, own: Key, body: string, key: Key)
    requires own.language in bs && (Persistent(own) ==> own in envs)
    ensures Evolves(bs, envs, RunIn(bs[own.language], envs, own, body).envs, [Call(own, body)], key)
  {
    var calls := [Call(own, body)];
    assert calls[..0] == [] && BodiesOf([], key) == [];
    if own == key {
      assert BodiesOf(calls, key) == [body];
      assert [body][..0] == [];
      assert Feed(bs[own.language], if key in envs then envs[key] else bs[own.language].initial, []) ==
        if key in envs then envs[key] else bs[own.language].initial;
    }
  }

  lemma {:induction false} SpliceReplay<V, E>(bs: Backends<V, E>, envs: Envs<E>, scope: Scope<V>, render: V -> string,
                                              body: seq<Part>, key: Key)
    ensures var r := Splice(bs, envs, scope, render, body); Evolves(bs, envs, r.envs, r.calls, key)
    decreases body, 1
  {
    if body != [] {
      var init, last := body[..|body| - 1], body[|body| - 1];
      var so := Splice(bs, envs, scope, render, init);
      SpliceReplay(bs, envs, scope, render, init, key);
      if so.text.Some? && last.Expr? {
        var out := EvalExpr(bs, so.envs, scope, last);
        EnvsReplay(bs, so.envs, scope, last, key);
        EvolvesThen(bs, envs, so.envs, out.envs, so.calls, out.calls, key);
      }
    }
  }

  // ---------------------------------------------------------------- which are created

  function Stored(order: seq<Key>): set<Key> { set k | k in order && Persistent(k) }

  /** The registry gains at most the numbered blocks' environments, and all of them when nothing raises. */
  ghost predicate Grows<E>(before: Envs<E>, after: Envs<E>, order: seq<Key>, complete: bool)
  {
    && before.Keys <= after.Keys <= before.Keys + Stored(order)
    && (complete ==> after.Keys == before.Keys + Stored(order))
  }

  lemma {:induction false} GrowsThen<E>(a: Envs<E>, b: Envs<E>, c: Envs<E>, p: seq<Key>, q: seq<Key>, complete: bool)
    requires Grows(a, b, p, true) && Grows(b, c, q, complete)
    ensures Grows(a, c, p + q, complete)
  {
    assert Stored(p + q) == Stored(p) + Stored(q);
  }

  lemma {:induction false} GrowsStops<E>(a: Envs<E>, b: Envs<E>, p: seq<Key>, q: seq<Key>, was: bool)
    requires Grows(a, b, p, was)
    ensures Grows(a, b, p + q, false)
  {
    assert Stored(p + q) == Stored(p) + Stored(q);
  }

  lemma {:induction false} RegistryGrows<V, E>(bs: Backends<V, E>, envs: Envs<E>, scope: Scope<V>, node: Part)
    requires node.Expr?
    ensures var r := EvalExpr(bs, envs, scope, node); Grows(envs, r.envs, Post(node), r.value.Some?)
    decreases node, 0
  {
    var own := KeyOf(node);
    if own.language in bs {
      var b := bs[own.language];
      var start := Entered(envs, own, b.initial);
      var kids := Splice(bs, start, scope, b.render, node.body);
      SpliceGrows(bs, start, scope, b.render, node.body);
      hide Splice, PostAll;
      assert Stored(Post(node)) == Stored(PostAll(node.body)) + Stored([own]);
      assert start.Keys == envs.Keys + Stored([own]);
    }
  }

  lemma {:induction false} SpliceGrows<V, E>(bs: Backends<V, E>, envs: Envs<E>, scope: Scope<V>, render: V -> string,
                                             body: seq<Part>)
    ensures var r := Splice(bs, envs, scope, render, body); Grows(envs, r.envs, PostAll(body), r.text.Some?)
    decreases body, 1
  {
    if body != [] {
      var init, last := body[..|body| - 1], body[|body| - 1];
      var so := Splice(bs, envs, scope, render, init);
      SpliceGrows(bs, envs, scope, render, init);
      if so.text.None? {
        hide Splice, PostOne, Grows;
        GrowsStops(envs, so.envs, PostAll(init), PostOne(last), false);
        SpliceStops(bs, envs, scope, render, body);
      } else if last.Expr? {
        var out := EvalExpr(bs, so.envs, scope, last);
        RegistryGrows(bs, so.envs, scope, last);
        hide EvalExpr, Post, Grows;
        GrowsThen(envs, so.envs, out.envs, PostAll(init), Post(last), out.value.Some?);
      } else {
        assert PostAll(body) == PostAll(init);
      }
    }
  }

  // --------------------------------------------------------------------- isolation

  /** Two registries agree on the given environments. */
  ghost predicate Agree<E>(x: Envs<E>, y: Envs<E>, keys: set<Key>)
  {
    forall k :: k in keys ==> (k in x <==> k in y) && (k in x && k in y ==> x[k] == y[k])
  }

  /** An expression's value and calls depend only on the environments its own blocks name. */
  lemma {:induction false} Isolated<V, E>(bs: Backends<V, E>, x: Envs<E>, y: Envs<E>, scope: Scope<V>, node: Part,
                                          keys: set<Key>)
    requires node.Expr? && Stored(Post(node)) <= keys && Agree(x, y, keys)
    ensures var r, q := EvalExpr(bs, x, scope, node), EvalExpr(bs, y, scope, node);
      r.value == q.value && r.calls == q.calls && Agree(r.envs, q.envs, keys)
    decreases node, 0
  {
    var own := KeyOf(node);
    assert Stored(Post(node)) == Stored(PostAll(node.body)) + Stored([own]);
    assert Persistent(own) ==> own in Stored([own]);
    hide Stored, Post, Agree, RunIn, Entered, KeyOf;
    if own.language in bs {
      var b := bs[own.language];
      var x', y' := Entered(x, own, b.initial), Entered(y, own, b.initial);
      EnteredAgree(x, y, own, b.initial, keys);
      SpliceIsolated(bs, x', y', scope, b.render, node.body, keys);
      var kx, ky := Splice(bs, x', scope, b.render, node.body), Splice(bs, y', scope, b.render, node.body);
      hide Splice;
      if kx.text.Some? { RunIsolated(b, kx.envs, ky.envs, own, kx.text.value, keys); }
    }
  }

  lemma {:induction false} EnteredAgree<E>(x: Envs<E>, y: Envs<E>, own: Key, initial: E, keys: set<Key>)
    requires Agree(x, y, keys) && (Persistent(own) ==> own in keys)
    ensures Agree(Entered(x, own, initial), Entered(y, own, initial), keys)
    ensures Persistent(own) ==> own in Entered(x, own, initial) && own in Entered(y, own, initial)
  {
  }

  lemma {:induction false} RunIsolated<V, E>(b: Backend<V, E>, x: Envs<E>, y: Envs<E>, own: Key, body: string,
                                             keys: set<Key>)
    requires Agree(x, y, keys) && (Persistent(own) ==> own in keys && own in x && own in y)
    ensures var r, q := RunIn(b, x, own, body), RunIn(b, y, own, body);
      r.value == q.value && r.calls == q.calls && Agree(r.envs, q.envs, keys)
  {
  }

  lemma {:induction false} SpliceIsolated<V, E>(bs: Backends<V, E>, x: Envs<E>, y: Envs<E>, scope: Scope<V>,
                                                render: V -> string, body: seq<Part>, keys: set<Key>)
    requires Stored(PostAll(body)) <= keys && Agree(x, y, keys)
    ensures var r, q := Splice(bs, x, scope, render, body), Splice(bs, y, scope, render, body);
      r.text == q.text && r.calls == q.calls && Agree(r.envs, q.envs, keys)
    decreases body, 1
  {
    hide Splice, SpliceChild, Agree, Stored, PostAll, PostOne;
    if body == [] {
      SpliceNone(bs, x, scope, render);
      SpliceNone(bs, y, scope, render);
    } else {
      var init, last := body[..|body| - 1], body[|body| - 1];
      StoredLast(body);
      SpliceIsolated(bs, x, y, scope, render, init, keys);
      SpliceLast(bs, x, scope, render, body);
      SpliceLast(bs, y, scope, render, body);
      var so, to := Splice(bs, x, scope, render, init), Splice(bs, y, scope, render, init);
      if so.text.Some? { ChildIsolated(bs, so, to, scope, render, last, keys); }
    }
  }

  lemma {:induction false} SpliceNone<V, E>(bs: Backends<V, E>, envs: Envs<E>, scope: Scope<V>, render: V -> string)
    ensures Splice(bs, envs, scope, render, []) == Spliced(Some(""), envs, [])
  {
  }

  lemma {:induction false} StoredLast(body: seq<Part>)
    requires body != []
    ensures Stored(PostAll(body)) == Stored(PostAll(body[..|body| - 1])) + Stored(PostOne(body[|body| - 1]))
  {
  }

  lemma {:induction false} ChildIsolated<V, E>(bs: Backends<V, E>, so: Spliced<E>, to: Spliced<E>, scope: Scope<V>,
                                               render: V -> string, child: Part, keys: set<Key>)
    requires so.text.Some? && so.text == to.text && so.calls == to.calls && Agree(so.envs, to.envs, keys)
    requires Stored(PostOne(child)) <= keys
    ensures var r, q := SpliceChild(bs, so, scope, render, child), SpliceChild(bs, to, scope, render, child);
      r.text == q.text && r.calls == q.calls && Agree(r.envs, q.envs, keys)
    decreases child, 2
  {
    hide EvalExpr, Agree, Stored;
    if child.Expr? { Isolated(bs, so.envs, to.envs, scope, child, keys); }
  }

  /** An environment that none of an expression's blocks names is left as it was. */
  lemma {:induction false} Untouched<V, E>(bs: Backends<V, E>, envs: Envs<E>, scope: Scope<V>, node: Part, key: Key)
    requires node.Expr? && key !in Stored(Post(node))
    ensures var r := EvalExpr(bs, envs, scope, node);
      (key in r.envs <==> key in envs) && (key in envs && key in r.envs ==> r.envs[key] == envs[key])
  {
    var r := EvalExpr(bs, envs, scope, node);
    EnvsReplay(bs, envs, scope, node, key);
    RegistryGrows(bs, envs, scope, node);
    KeysInOrder(bs, envs, scope, node);
    hide EvalExpr, Post, Evolves;
    if Persistent(key) {
      assert key !in Post(node);
      NotCalled(r.calls, Post(node), r.value.Some?, key);
      hide InOrder;
    }
    EvolvesIdle(bs, envs, r.envs, r.calls, key);
  }

  lemma {:induction false} NotCalled(calls: seq<Call>, order: seq<Key>, complete: bool, key: Key)
    requires InOrder(calls, order, complete) && key !in order
    ensures BodiesOf(calls, key) == []
  {
    assert forall i :: 0 <= i < |calls| ==> calls[i].key == order[i];
    NoBodies(calls, key);
  }

  lemma {:induction false} EvolvesIdle<V, E>(bs: Backends<V, E>, before: Envs<E>, after: Envs<E>, calls: seq<Call>,
                                             key: Key)
    requires Evolves(bs, before, after, calls, key) && before.Keys <= after.Keys
    requires Persistent(key) ==> BodiesOf(calls, key) == [] && (key in after ==> key in before)
    ensures (key in after <==> key in before) && (key in before && key in after ==> after[key] == before[key])
  {
  }

  lemma {:induction false} NoBodies(calls: seq<Call>, key: Key)
    requires forall i :: 0 <= i < |calls| ==> calls[i].key != key
    ensures BodiesOf(calls, key) == []
  {
    if calls != [] { NoBodies(calls[..|calls| - 1], key); }
  }

  // ------------------------------------------------------------------------ aliases

  /** The same tree with every language under its canonical name. */
  function Renamed(p: Part): (r: Part)
    ensures r.Expr? <==> p.Expr?
    decreases p, 0
  {
    match p
    case Text(_) => p
    case Var(_) => p
    case Let(name, expr) => Let(name, Renamed(expr))
    case Expr(language, env, body) => Expr(Canonical(language), env, RenamedAll(body))
  }

  function RenamedAll(ps: seq<Part>): (r: seq<Part>)
    ensures |r| == |ps|
    decreases ps, 1
  {
    if ps == [] then [] else RenamedAll(ps[..|ps| - 1]) + [Renamed(ps[|ps| - 1])]
  }

  lemma {:induction false} CanonicalTwice(language: string)
    ensures Canonical(Canonical(language)) == Canonical(language)
  {
    assert "python"[0] == 'p' && "python"[1] == 'y' && |"python"| == 6 && |"markdown"| == 8 && |"latex"| == 5;
    assert |"text"| == 4;
    assert "text"[0] == 't' && "O"[0] == 'O' && "latex"[0] == 'l' && "markdown"[0] == 'm';
  }

  /** Aliases of a language name the same environments: spelling a language canonically changes nothing. */
  lemma {:induction false} AliasesShare<V, E>(bs: Backends<V, E>, envs: Envs<E>, scope: Scope<V>, node: Part)
    requires node.Expr?
    ensures EvalExpr(bs, envs, scope, Renamed(node)) == EvalExpr(bs, envs, scope, node)
    decreases node, 0
  {
    CanonicalTwice(node.language);
    var key := KeyOf(node);
    assert KeyOf(Renamed(node)) == key;
    hide Canonical;
    if key.language in bs {
      var b := bs[key.language];
      SpliceRenamed(bs, Entered(envs, key, b.initial), scope, b.render, node.body);
      hide Splice, RenamedAll;
    }
  }

  lemma {:induction false} SpliceRenamed<V, E>(bs: Backends<V, E>, envs: Envs<E>, scope: Scope<V>, render: V -> string,
                                               body: seq<Part>)
    ensures Splice(bs, envs, scope, render, RenamedAll(body)) == Splice(bs, envs, scope, render, body)
    decreases body, 1
  {
    hide SpliceChild, Splice;
    if body == [] {
      assert RenamedAll(body) == body;
    } else {
      var init, last := body[..|body| - 1], body[|body| - 1];
      SpliceRenamed(bs, envs, scope, render, init);
      RenamedLast(body);
      SpliceLast(bs, envs, scope, render, body);
      SpliceLast(bs, envs, scope, render, RenamedAll(body));
      var so := Splice(bs, envs, scope, render, init);
      if so.text.Some? { ChildRenamed(bs, so, scope, render, last); }
    }
  }

  lemma {:induction false} RenamedLast(body: seq<Part>)
    requires body != []
    ensures RenamedAll(body)[..|body| - 1] == RenamedAll(body[..|body| - 1])
    ensures |RenamedAll(body)| == |body| && RenamedAll(body)[|body| - 1] == Renamed(body[|body| - 1])
  {
    hide Renamed;
  }

  lemma {:induction false} SpliceLast<V, E>(bs: Backends<V, E>, envs: Envs<E>, scope: Scope<V>, render: V -> string,
                                            body: seq<Part>)
    requires body != []
    ensures
      var init := Splice(bs, envs, scope, render, body[..|body| - 1]);
      Splice(bs, envs, scope, render, body)
      == if init.text.None? then init else SpliceChild(bs, init, scope, render, body[|body| - 1])
  {
    hide SpliceChild;
  }

  lemma {:induction false} ChildRenamed<V, E>(bs: Backends<V, E>, so: Spliced<E>, scope: Scope<V>, render: V -> string,
                                              child: Part)
    requires so.text.Some?
    ensures SpliceChild(bs, so, scope, render, Renamed(child)) == SpliceChild(bs, so, scope, render, child)
    decreases child, 2
  {
    hide EvalExpr;
    if child.Expr? { AliasesShare(bs, so.envs, scope, child); }
  }

  // ------------------------------------------------------------ what a body consists of

  /** A body is spliced part by part: its text is that of its first parts followed by that of the
      rest, spliced where the first parts left the environments. */
  lemma {:induction false} SpliceAppend<V, E>(bs: Backends<V, E>, envs: Envs<E>, scope: Scope<V>, render: V -> string,
                                              a: seq<Part>, b: seq<Part>)
    ensures
      var x, r := Splice(bs, envs, scope, render, a), Splice(bs, envs, scope, render, a + b);
      var y := Splice(bs, x.envs, scope, render, b);
      if x.text.None? then r == x
      else
        && r.text == (if y.text.None? then None else Some(x.text.value + y.text.value))
        && r.envs == y.envs && r.calls == x.calls + y.calls
    decreases |b|
  {
    hide Splice, SpliceChild;
    var x := Splice(bs, envs, scope, render, a);
    if b == [] {
      assert a + b == a;
      SpliceNone(bs, x.envs, scope, render);
      if x.text.Some? { assert x.text.value + "" == x.text.value && x.calls + [] == x.calls; }
    } else {
      var init, last := b[..|b| - 1], b[|b| - 1];
      assert (a + b)[..|a + b| - 1] == a + init;
      SpliceAppend(bs, envs, scope, render, a, init);
      SpliceLast(bs, envs, scope, render, a + b);
      SpliceLast(bs, x.envs, scope, render, b);
      var y := Splice(bs, x.envs, scope, render, init);
      if x.text.Some? && y.text.Some? {
        ChildAfter(bs, Splice(bs, envs, scope, render, a + init), y, x.text.value, x.calls, scope, render, last);
      }
    }
  }

  lemma {:induction false} ChildAfter<V, E>(bs: Backends<V, E>, so: Spliced<E>, to: Spliced<E>, text: string,
                                            calls: seq<Call>, scope: Scope<V>, render: V -> string, child: Part)
    requires so.text.Some? && to.text.Some? && so.text.value == text + to.text.value
    requires so.envs == to.envs && so.calls == calls + to.calls
    ensures
      var r, q := SpliceChild(bs, so, scope, render, child), SpliceChild(bs, to, scope, render, child);
      && r.text == (if q.text.None? then None else Some(text + q.text.value))
      && r.envs == q.envs && r.calls == calls + q.calls
  {
    hide EvalExpr;
    forall t: string ensures so.text.value + t == text + (to.text.value + t) { }
    forall cs: seq<Call> ensures so.calls + cs == calls + (to.calls + cs) { }
  }

  /** Text goes into a body as it stands. */
  lemma {:induction false} SpliceText<V, E>(bs: Backends<V, E>, envs: Envs<E>, scope: Scope<V>, render: V -> string,
                                            text: string)
    ensures Splice(bs, envs, scope, render, [Text(text)]) == Spliced(Some(text), envs, [])
  {
    assert [Text(text)][..0] == [];
    assert "" + text == text;
  }

  /** A bound name goes in as the parent's backend renders its value, an unbound one as it is written. */
  lemma {:induction false} SpliceName<V, E>(bs: Backends<V, E>, envs: Envs<E>, scope: Scope<V>, render: V -> string,
                                            name: string)
    ensures Splice(bs, envs, scope, render, [Var(name)]) ==
      Spliced(Some(if name in scope then render(scope[name]) else "$" + name), envs, [])
  {
    assert [Var(name)][..0] == [];
    var t := if name in scope then render(scope[name]) else "$" + name;
    assert "" + t == t;
  }

  /** A child goes in as the parent's backend renders the child's own value; one that raises stops the body. */
  lemma {:induction false} SpliceBlock<V, E>(bs: Backends<V, E>, envs: Envs<E>, scope: Scope<V>, render: V -> string,
                                             child: Part)
    requires child.Expr?
    ensures
      var out := EvalExpr(bs, envs, scope, child);
      Splice(bs, envs, scope, render, [child]) ==
        Spliced(if out.value.Some? then Some(render(out.value.value)) else None, out.envs, out.calls)
  {
    hide EvalExpr;
    assert [child][..0] == [];
    SpliceNone(bs, envs, scope, render);
    SpliceLast(bs, envs, scope, render, [child]);
    var out := EvalExpr(bs, envs, scope, child);
    assert [] + out.calls == out.calls;
    if out.value.Some? { assert "" + render(out.value.value) == render(out.value.value); }
  }

  /** A body of text and of names that are not bound reaches its backend as it is written. */
  lemma {:induction false} PlainBody<V, E>(bs: Backends<V, E>, envs: Envs<E>, scope: Scope<V>, render: V -> string,
                                           body: seq<Part>)
    requires forall p :: p in body ==> p.Text? || (p.Var? && p.name !in scope)
    ensures Splice(bs, envs, scope, render, body) == Spliced(Some(ReconstructAll(body)), envs, [])
    decreases |body|
  {
    hide Splice;
    if body == [] {
      SpliceNone(bs, envs, scope, render);
    } else {
      assert body == [body[0]] + body[1..] && body[0] in body;
      SpliceAppend(bs, envs, scope, render, [body[0]], body[1..]);
      if body[0].Text? {
        SpliceText(bs, envs, scope, render, body[0].text);
      } else {
        SpliceName(bs, envs, scope, render, body[0].name);
      }
      PlainBody(bs, envs, scope, render, body[1..]);
    }
  }

  // -------------------------------------------------------------- a run, call by call

  /** The blocks of an expression, leaves first and left to right. */
  function Blocks(node: Part): (r: seq<Part>)
    requires node.Expr?
    ensures r != []
    decreases node, 0
  {
    BlocksAll(node.body) + [node]
  }

  function BlocksAll(body: seq<Part>): seq<Part>
    decreases body, 1
  {
    if body == [] then [] else BlocksAll(body[..|body| - 1]) + BlocksOne(body[|body| - 1])
  }

  function BlocksOne(p: Part): seq<Part>
    decreases p, 2
  {
    if p.Expr? then Blocks(p) else []
  }

  /** What a call returned: its body run in its own environment, which is a new one or the stored
      one after the bodies given to it before. */
  ghost function ValueAt<V, E>(bs: Backends<V, E>, before: Envs<E>, calls: seq<Call>, i: int): Option<V>
  {
    if !(0 <= i < |calls|) || calls[i].key.language !in bs then None
    else
      var key := calls[i].key;
      var b := bs[key.language];
      var env := if key in before then before[key] else b.initial;
      b.run(calls[i].body, if Persistent(key) then Feed(b, env, BodiesOf(calls[..i], key)) else b.initial).value
  }

  /** What the children of a body returned, when the calls of the body start at `start`. */
  ghost function ChildValues<V, E>(bs: Backends<V, E>, before: Envs<E>, calls: seq<Call>, body: seq<Part>,
                                   start: nat): seq<Option<V>>
    decreases |body|
  {
    if body == [] then []
    else
      ChildValues(bs, before, calls, body[..|body| - 1], start)
      + if body[|body| - 1].Expr? then [ValueAt(bs, before, calls, start + |BlocksAll(body)| - 1)] else []
  }

  /** The text of a body: its texts, its references as bound, and its children's values rendered. */
  function TextOf<V>(render: V -> string, scope: Scope<V>, body: seq<Part>, values: seq<Option<V>>): Option<string>
    decreases |body|
  {
    if body == [] then Some("")
    else
      var init, last := body[..|body| - 1], body[|body| - 1];
      if last.Expr? && (values == [] || values[|values| - 1].None?) then None
      else
        var text := TextOf(render, scope, init, if last.Expr? then values[..|values| - 1] else values);
        if text.None? then None
        else
          match last
          case Text(t) => Some(text.value + t)
          case Var(name) => Some(text.value + if name in scope then render(scope[name]) else "$" + name)
          case Let(_, _) => None
          case Expr(_, _, _) => Some(text.value + render(values[|values| - 1].value))
  }

  /** Call `i` is the call of `block`: under the block's key, with the text of the block's own body. */
  ghost predicate Explains<V, E>(bs: Backends<V, E>, before: Envs<E>, scope: Scope<V>, block: Part, calls: seq<Call>,
                                 i: nat)
  {
    && i < |calls| && block.Expr? && calls[i].key == KeyOf(block) && calls[i].key.language in bs
    && i >= |BlocksAll(block.body)|
    && TextOf(bs[calls[i].key.language].render, scope, block.body,
              ChildValues(bs, before, calls, block.body, i - |BlocksAll(block.body)|)) == Some(calls[i].body)
  }

  /** Every call from `from` on is the call of its block. */
  ghost predicate Explained<V, E>(bs: Backends<V, E>, before: Envs<E>, scope: Scope<V>, blocks: seq<Part>,
                                  calls: seq<Call>, from: nat)
  {
    forall k :: 0 <= k < |blocks| && from + k < |calls| ==> Explains(bs, before, scope, blocks[k], calls, from + k)
  }

  lemma {:induction false} ValueKept<V, E>(bs: Backends<V, E>, before: Envs<E>, x: seq<Call>, y: seq<Call>, i: int)
    requires i < |x|
    ensures ValueAt(bs, before, x + y, i) == ValueAt(bs, before, x, i)
  {
    if 0 <= i { assert (x + y)[..i] == x[..i] && (x + y)[i] == x[i]; }
  }

  lemma {:induction false} ChildrenKept<V, E>(bs: Backends<V, E>, before: Envs<E>, x: seq<Call>, y: seq<Call>,
                                              body: seq<Part>, start: nat)
    requires start + |BlocksAll(body)| <= |x|
    ensures ChildValues(bs, before, x + y, body, start) == ChildValues(bs, before, x, body, start)
    decreases |body|
  {
    hide ValueAt, BlocksOne;
    if body != [] {
      ChildrenKept(bs, before, x, y, body[..|body| - 1], start);
      ValueKept(bs, before, x, y, start + |BlocksAll(body)| - 1);
    }
  }

  /** What was said of calls still holds when more follow. */
  lemma {:induction false} ExplainedKept<V, E>(bs: Backends<V, E>, before: Envs<E>, scope: Scope<V>,
                                               blocks: seq<Part>, x: seq<Call>, y: seq<Call>, from: nat)
    requires Explained(bs, before, scope, blocks, x, from) && |x| >= from + |blocks|
    ensures Explained(bs, before, scope, blocks, x + y, from)
  {
    hide ChildValues, TextOf, BlocksAll;
    forall k | 0 <= k < |blocks| && from + k < |x + y| ensures Explains(bs, before, scope, blocks[k], x + y, from + k) {
      assert Explains(bs, before, scope, blocks[k], x, from + k);
      assert (x + y)[from + k] == x[from + k];
      ChildrenKept(bs, before, x, y, blocks[k].body, from + k - |BlocksAll(blocks[k].body)|);
    }
  }

  /** A call returns the same whether its run is told from its start or from a later point. */
  lemma {:induction false} ValueShift<V, E>(bs: Backends<V, E>, before: Envs<E>, mid: Envs<E>, x: seq<Call>,
                                            y: seq<Call>, i: nat)
    requires before.Keys <= mid.Keys && forall key :: Evolves(bs, before, mid, x, key)
    requires i < |y|
    ensures ValueAt(bs, before, x + y, |x| + i) == ValueAt(bs, mid, y, i)
  {
    var key := y[i].key;
    assert (x + y)[|x| + i] == y[i] && (x + y)[..|x| + i] == x + y[..i];
    assert Evolves(bs, before, mid, x, key);
    if key.language in bs && Persistent(key) {
      var b := bs[key.language];
      BodiesAppend(x, y[..i], key);
      FeedAppend(b, if key in before then before[key] else b.initial, BodiesOf(x, key), BodiesOf(y[..i], key));
      if key !in mid { assert BodiesOf(x, key) + BodiesOf(y[..i], key) == BodiesOf(y[..i], key); }
    }
  }

  lemma {:induction false} ChildrenShift<V, E>(bs: Backends<V, E>, before: Envs<E>, mid: Envs<E>, x: seq<Call>,
                                               y: seq<Call>, body: seq<Part>, start: nat)
    requires before.Keys <= mid.Keys && forall key :: Evolves(bs, before, mid, x, key)
    requires start + |BlocksAll(body)| <= |y|
    ensures ChildValues(bs, before, x + y, body, |x| + start) == ChildValues(bs, mid, y, body, start)
    decreases |body|
  {
    hide ValueAt, Evolves;
    if body != [] {
      ChildrenShift(bs, before, mid, x, y, body[..|body| - 1], start);
      if body[|body| - 1].Expr? {
        BlocksLast(body);
        ValueShift(bs, before, mid, x, y, start + |BlocksAll(body)| - 1);
        assert |x| + (start + |BlocksAll(body)| - 1) == |x| + start + |BlocksAll(body)| - 1;
      }
    }
  }

  lemma {:induction false} BlocksLast(body: seq<Part>)
    requires body != [] && body[|body| - 1].Expr?
    ensures BlocksAll(body) == BlocksAll(body[..|body| - 1]) + Blocks(body[|body| - 1]) && |BlocksAll(body)| > 0
  {
  }

  lemma {:induction false} ExplainedShift<V, E>(bs: Backends<V, E>, before: Envs<E>, mid: Envs<E>, scope: Scope<V>,
                                                blocks: seq<Part>, x: seq<Call>, y: seq<Call>)
    requires before.Keys <= mid.Keys && forall key :: Evolves(bs, before, mid, x, key)
    requires Explained(bs, mid, scope, blocks, y, 0)
    ensures Explained(bs, before, scope, blocks, x + y, |x|)
  {
    hide ChildValues, TextOf, BlocksAll, Evolves;
    forall k | 0 <= k < |blocks| && |x| + k < |x + y| ensures Explains(bs, before, scope, blocks[k], x + y, |x| + k) {
      var block := blocks[k];
      assert Explains(bs, mid, scope, block, y, 0 + k);
      assert (x + y)[|x| + k] == y[k];
      ChildrenShift(bs, before, mid, x, y, block.body, k - |BlocksAll(block.body)|);
      assert |x| + (k - |BlocksAll(block.body)|) == |x| + k - |BlocksAll(block.body)|;
    }
  }

  lemma {:induction false} ExplainedJoin<V, E>(bs: Backends<V, E>, before: Envs<E>, scope: Scope<V>, a: seq<Part>,
                                               b: seq<Part>, calls: seq<Call>)
    requires Explained(bs, before, scope, a, calls, 0) && Explained(bs, before, scope, b, calls, |a|)
    ensures Explained(bs, before, scope, a + b, calls, 0)
  {
    hide Explains;
    forall i | 0 <= i < |a + b| && 0 + i < |calls| ensures Explains(bs, before, scope, (a + b)[i], calls, 0 + i) {
      if i < |a| {
        assert Explains(bs, before, scope, a[i], calls, 0 + i);
      } else {
        assert Explains(bs, before, scope, b[i - |a|], calls, |a| + (i - |a|));
      }
    }
  }

  /** The calls of an expression are its blocks, leaves first and left to right, and all of them when
      nothing raises. Each call is given the text of its own block's body, into which go the values
      that the block's children returned; the value of the expression is what the last call returned. */
  lemma {:induction false} CallsInOrder<V, E>(bs: Backends<V, E>, envs: Envs<E>, scope: Scope<V>, node: Part)
    requires node.Expr?
    ensures var r := EvalExpr(bs, envs, scope, node); InOrder(r.calls, Post(node), r.value.Some?)
    ensures
      var r := EvalExpr(bs, envs, scope, node);
      && |r.calls| <= |Blocks(node)| && Explained(bs, envs, scope, Blocks(node), r.calls, 0)
      && (r.value.Some? ==> |r.calls| == |Blocks(node)|)
      && (|r.calls| == |Blocks(node)| ==> r.value == ValueAt(bs, envs, r.calls, |r.calls| - 1))
    decreases node, 0
  {
    KeysInOrder(bs, envs, scope, node);
    var key := KeyOf(node);
    if key.language in bs {
      var b := bs[key.language];
      var start := Entered(envs, key, b.initial);
      SpliceRuns(bs, start, scope, b.render, node.body);
      EnteredEvolves(bs, envs, key);
      var kids := Splice(bs, start, scope, b.render, node.body);
      hide Splice, Evolves, Post, BlocksAll;
      ExplainedShift(bs, envs, start, scope, BlocksAll(node.body), [], kids.calls);
      assert [] + kids.calls == kids.calls;
      if kids.text.Some? {
        ChildrenShift(bs, envs, start, [], kids.calls, node.body, 0);
        OwnCall(bs, envs, scope, node, kids);
      } else {
        ExplainedMore(bs, envs, scope, BlocksAll(node.body), [node], kids.calls);
      }
    }
  }

  lemma {:induction false} ExplainedMore<V, E>(bs: Backends<V, E>, before: Envs<E>, scope: Scope<V>, a: seq<Part>,
                                               b: seq<Part>, calls: seq<Call>)
    requires Explained(bs, before, scope, a, calls, 0) && |calls| <= |a|
    ensures Explained(bs, before, scope, a + b, calls, 0)
  {
    hide Explains;
    forall i | 0 <= i < |a + b| && 0 + i < |calls| ensures Explains(bs, before, scope, (a + b)[i], calls, 0 + i) {
      assert Explains(bs, before, scope, a[i], calls, 0 + i);
    }
  }

  lemma {:induction false} EnteredEvolves<V, E>(bs: Backends<V, E>, envs: Envs<E>, own: Key)
    requires own.language in bs
    ensures var start := Entered(envs, own, bs[own.language].initial);
      envs.Keys <= start.Keys && forall key :: Evolves(bs, envs, start, [], key)
  {
    var start := Entered(envs, own, bs[own.language].initial);
    forall key ensures Evolves(bs, envs, start, [], key) { assert BodiesOf([], key) == []; }
  }

  /** The block's own call, after those of its children. */
  lemma {:induction false} OwnCall<V, E>(bs: Backends<V, E>, envs: Envs<E>, scope: Scope<V>, node: Part,
                                         kids: Spliced<E>)
    requires node.Expr? && KeyOf(node).language in bs && kids.text.Some?
    requires
      var b := bs[KeyOf(node).language];
      && kids == Splice(bs, Entered(envs, KeyOf(node), b.initial), scope, b.render, node.body)
      && |kids.calls| == |BlocksAll(node.body)|
      && Explained(bs, envs, scope, BlocksAll(node.body), kids.calls, 0)
      && TextOf(b.render, scope, node.body, ChildValues(bs, envs, kids.calls, node.body, 0)) == kids.text
    ensures
      var r := EvalExpr(bs, envs, scope, node);
      && |r.calls| == |Blocks(node)| && Explained(bs, envs, scope, Blocks(node), r.calls, 0)
      && r.value == ValueAt(bs, envs, r.calls, |r.calls| - 1)
  {
    hide Splice, TextOf, ChildValues, BlocksAll;
    var key, n := KeyOf(node), |kids.calls|;
    var own := [Call(key, kids.text.value)];
    var calls := kids.calls + own;
    assert calls[n] == own[0] && calls[..n] == kids.calls;
    ExplainedKept(bs, envs, scope, BlocksAll(node.body), kids.calls, own, 0);
    ChildrenKept(bs, envs, kids.calls, own, node.body, 0);
    assert Explains(bs, envs, scope, node, calls, n);
    forall k | 0 <= k < 1 && n + k < |calls| ensures Explains(bs, envs, scope, [node][k], calls, n + k) {
      assert k == 0;
    }
    hide Explains;
    ExplainedJoin(bs, envs, scope, BlocksAll(node.body), [node], calls);
    KidsReplay(bs, envs, scope, node, key);
  }

  lemma {:induction false} KidsReplay<V, E>(bs: Backends<V, E>, envs: Envs<E>, scope: Scope<V>, node: Part, key: Key)
    requires node.Expr? && KeyOf(node).language in bs
    ensures
      var b := bs[KeyOf(node).language];
      var start := Entered(envs, KeyOf(node), b.initial);
      Evolves(bs, envs, Splice(bs, start, scope, b.render, node.body).envs,
              Splice(bs, start, scope, b.render, node.body).calls, key)
  {
    var b := bs[KeyOf(node).language];
    var start := Entered(envs, KeyOf(node), b.initial);
    var kids := Splice(bs, start, scope, b.render, node.body);
    SpliceReplay(bs, start, scope, b.render, node.body, key);
    EnteredEvolves(bs, envs, KeyOf(node));
    hide Splice, Evolves;
    EvolvesThen(bs, envs, start, kids.envs, [], kids.calls, key);
    assert [] + kids.calls == kids.calls;
  }

  /** The calls a body makes, and the text it comes to. */
  lemma {:induction false} SpliceRuns<V, E>(bs: Backends<V, E>, envs: Envs<E>, scope: Scope<V>, render: V -> string,
                                            body: seq<Part>)
    ensures
      var r := Splice(bs, envs, scope, render, body);
      && |r.calls| <= |BlocksAll(body)| && Explained(bs, envs, scope, BlocksAll(body), r.calls, 0)
      && (r.text.Some? ==>
            && |r.calls| == |BlocksAll(body)|
            && TextOf(render, scope, body, ChildValues(bs, envs, r.calls, body, 0)) == r.text)
    decreases body, 1
  {
    hide Splice, SpliceChild, Explained, BlocksAll, Evolves;
    if body == [] {
      SpliceNone(bs, envs, scope, render);
      NoBlocks(bs, envs, scope);
    } else {
      var init, last := body[..|body| - 1], body[|body| - 1];
      SpliceRuns(bs, envs, scope, render, init);
      SpliceLast(bs, envs, scope, render, body);
      BlocksSplit(body);
      var so := Splice(bs, envs, scope, render, init);
      if so.text.None? {
        ExplainedMore(bs, envs, scope, BlocksAll(init), BlocksOne(last), so.calls);
      } else if last.Expr? {
        forall key ensures Evolves(bs, envs, so.envs, so.calls, key) {
          SpliceReplay(bs, envs, scope, render, init, key);
        }
        CallsInOrder(bs, so.envs, scope, last);
        ChildRuns(bs, envs, scope, render, body, so);
      } else {
        LeafRuns(bs, envs, scope, render, body, so);
      }
    }
  }

  lemma {:induction false} NoBlocks<V, E>(bs: Backends<V, E>, envs: Envs<E>, scope: Scope<V>)
    ensures BlocksAll([]) == [] && Explained(bs, envs, scope, [], [], 0)
  {
  }

  lemma {:induction false} BlocksSplit(body: seq<Part>)
    requires body != []
    ensures BlocksAll(body) == BlocksAll(body[..|body| - 1]) + BlocksOne(body[|body| - 1])
    ensures !body[|body| - 1].Expr? ==> BlocksAll(body) == BlocksAll(body[..|body| - 1])
  {
    hide Blocks;
  }

  lemma {:induction false} LeafRuns<V, E>(bs: Backends<V, E>, envs: Envs<E>, scope: Scope<V>, render: V -> string,
                                          body: seq<Part>, so: Spliced<E>)
    requires body != [] && !body[|body| - 1].Expr? && so.text.Some?
    requires |so.calls| == |BlocksAll(body)| && Explained(bs, envs, scope, BlocksAll(body), so.calls, 0)
    requires
      var init := body[..|body| - 1];
      TextOf(render, scope, init, ChildValues(bs, envs, so.calls, init, 0)) == so.text
    ensures
      var r := SpliceChild(bs, so, scope, render, body[|body| - 1]);
      && r.calls == so.calls
      && (r.text.Some? ==> TextOf(render, scope, body, ChildValues(bs, envs, r.calls, body, 0)) == r.text)
  {
    hide Explained, BlocksAll, EvalExpr, ValueAt;
    var vs := ChildValues(bs, envs, so.calls, body[..|body| - 1], 0);
    assert vs + [] == vs;
  }

  lemma {:induction false} ChildRuns<V, E>(bs: Backends<V, E>, envs: Envs<E>, scope: Scope<V>, render: V -> string,
                                           body: seq<Part>, so: Spliced<E>)
    requires body != [] && body[|body| - 1].Expr? && so.text.Some?
    requires envs.Keys <= so.envs.Keys && forall key :: Evolves(bs, envs, so.envs, so.calls, key)
    requires
      var init, last := body[..|body| - 1], body[|body| - 1];
      var out := EvalExpr(bs, so.envs, scope, last);
      && BlocksAll(body) == BlocksAll(init) + Blocks(last)
      && |so.calls| == |BlocksAll(init)| && Explained(bs, envs, scope, BlocksAll(init), so.calls, 0)
      && TextOf(render, scope, init, ChildValues(bs, envs, so.calls, init, 0)) == so.text
      && |out.calls| <= |Blocks(last)| && Explained(bs, so.envs, scope, Blocks(last), out.calls, 0)
      && (out.value.Some? ==> |out.calls| == |Blocks(last)|)
      && (|out.calls| == |Blocks(last)| ==> out.value == ValueAt(bs, so.envs, out.calls, |out.calls| - 1))
    ensures
      var r := SpliceChild(bs, so, scope, render, body[|body| - 1]);
      && |r.calls| <= |BlocksAll(body)| && Explained(bs, envs, scope, BlocksAll(body), r.calls, 0)
      && (r.text.Some? ==>
            && |r.calls| == |BlocksAll(body)|
            && TextOf(render, scope, body, ChildValues(bs, envs, r.calls, body, 0)) == r.text)
  {
    hide Explained, BlocksAll, EvalExpr, ValueAt, Evolves, Blocks, TextOf, ChildValues;
    var init, last := body[..|body| - 1], body[|body| - 1];
    var out := EvalExpr(bs, so.envs, scope, last);
    ExplainedKept(bs, envs, scope, BlocksAll(init), so.calls, out.calls, 0);
    ExplainedShift(bs, envs, so.envs, scope, Blocks(last), so.calls, out.calls);
    ExplainedJoin(bs, envs, scope, BlocksAll(init), Blocks(last), so.calls + out.calls);
    if out.value.Some? {
      ChildrenKept(bs, envs, so.calls, out.calls, init, 0);
      ValueShift(bs, envs, so.envs, so.calls, out.calls, |out.calls| - 1);
      ChildText(bs, envs, scope, render, body, so.calls + out.calls, so.text.value, out.value.value);
    }
  }

  lemma {:induction false} ChildText<V, E>(bs: Backends<V, E>, envs: Envs<E>, scope: Scope<V>, render: V -> string,
                                           body: seq<Part>, calls: seq<Call>, text: string, value: V)
    requires body != [] && body[|body| - 1].Expr?
    requires
      var init := body[..|body| - 1];
      TextOf(render, scope, init, ChildValues(bs, envs, calls, init, 0)) == Some(text)
    requires ValueAt(bs, envs, calls, |BlocksAll(body)| - 1) == Some(value)
    ensures TextOf(render, scope, body, ChildValues(bs, envs, calls, body, 0)) == Some(text + render(value))
  {
    hide BlocksAll, ValueAt;
    var vs := ChildValues(bs, envs, calls, body[..|body| - 1], 0);
    var all := ChildValues(bs, envs, calls, body, 0);
    assert all == vs + [Some(value)];
    assert all[..|all| - 1] == vs;
  }

  // ---------------------------------------------------------------------- documents

  function PostLets(lets: seq<Part>): seq<Key>
    requires Bindings(lets)
  {
    if lets == [] then [] else PostLets(lets[..|lets| - 1]) + PostOne(lets[|lets| - 1].expr)
  }

  /** The blocks of a document: those of its bindings, then those of its root. */
  function DocumentOrder(u: Unicode, body: seq<Part>): seq<Key>
  {
    PostLets(LetsOf(body)) + Post(Root(u, OthersOf(body)))
  }

  /** What holds of any stretch of evaluation. */
  ghost predicate Disciplined<V, E>(bs: Backends<V, E>, before: Envs<E>, after: Envs<E>, calls: seq<Call>,
                                    order: seq<Key>, complete: bool, key: Key)
  {
    InOrder(calls, order, complete) && Grows(before, after, order, complete) && Evolves(bs, before, after, calls, key)
  }

  lemma {:induction false} DisciplinedThen<V, E>(bs: Backends<V, E>, a: Envs<E>, b: Envs<E>, c: Envs<E>, x: seq<Call>,
                                                 y: seq<Call>, p: seq<Key>, q: seq<Key>, complete: bool, key: Key)
    requires Disciplined(bs, a, b, x, p, true, key) && Disciplined(bs, b, c, y, q, complete, key)
    ensures Disciplined(bs, a, c, x + y, p + q, complete, key)
  {
    InOrderThen(x, p, y, q, complete);
    GrowsThen(a, b, c, p, q, complete);
    EvolvesThen(bs, a, b, c, x, y, key);
  }

  lemma {:induction false} DisciplinedStops<V, E>(bs: Backends<V, E>, a: Envs<E>, b: Envs<E>, x: seq<Call>, p: seq<Key>,
                                                  q: seq<Key>, was: bool, key: Key)
    requires Disciplined(bs, a, b, x, p, was, key)
    ensures Disciplined(bs, a, b, x, p + q, false, key)
  {
    InOrderStops(x, p, q, was);
    GrowsStops(a, b, p, q, was);
  }

  lemma {:induction false} DisciplinedNow<V, E>(bs: Backends<V, E>, envs: Envs<E>, key: Key)
    ensures Disciplined(bs, envs, envs, [], [], true, key)
  {
    assert Stored([]) == {};
  }

  lemma {:induction false} ExprDisciplined<V, E>(bs: Backends<V, E>, envs: Envs<E>, scope: Scope<V>, node: Part,
                                                 key: Key)
    requires node.Expr?
    ensures var r := EvalExpr(bs, envs, scope, node);
      Disciplined(bs, envs, r.envs, r.calls, Post(node), r.value.Some?, key)
  {
    KeysInOrder(bs, envs, scope, node);
    RegistryGrows(bs, envs, scope, node);
    EnvsReplay(bs, envs, scope, node, key);
    hide EvalExpr, Post, InOrder, Grows, Evolves;
  }

  lemma {:induction false} BindingsDisciplined<V, E>(bs: Backends<V, E>, envs: Envs<E>, lets: seq<Part>, key: Key)
    requires Bindings(lets)
    ensures var r := BindAll(bs, envs, lets); Disciplined(bs, envs, r.envs, r.calls, PostLets(lets), r.scope.Some?, key)
    decreases |lets|
  {
    DisciplinedNow(bs, envs, key);
    if lets != [] {
      var init, last := lets[..|lets| - 1], lets[|lets| - 1];
      var so := BindAll(bs, envs, init);
      BindingsDisciplined(bs, envs, init, key);
      hide Disciplined, BindOne, PostOne;
      if so.scope.None? {
        DisciplinedStops(bs, envs, so.envs, so.calls, PostLets(init), PostOne(last.expr), false, key);
      } else {
        var one := BindOne(bs, so.envs, so.scope.value, last);
        OneDisciplined(bs, so.envs, so.scope.value, last, key);
        DisciplinedThen(bs, envs, so.envs, one.envs, so.calls, one.calls, PostLets(init), PostOne(last.expr),
          one.scope.Some?, key);
      }
    }
  }

  lemma {:induction false} OneDisciplined<V, E>(bs: Backends<V, E>, envs: Envs<E>, scope: Scope<V>, binding: Part,
                                                key: Key)
    requires binding.Let?
    ensures var r := BindOne(bs, envs, scope, binding);
      Disciplined(bs, envs, r.envs, r.calls, PostOne(binding.expr), r.scope.Some?, key)
  {
    if binding.expr.Expr? {
      ExprDisciplined(bs, envs, scope, binding.expr, key);
      hide Disciplined, EvalExpr, Post;
    } else {
      DisciplinedNow(bs, envs, key);
    }
  }

  function LetBlocks(lets: seq<Part>): seq<Part>
    requires Bindings(lets)
  {
    if lets == [] then [] else LetBlocks(lets[..|lets| - 1]) + BlocksOne(lets[|lets| - 1].expr)
  }

  /** The names bound by bindings: each to what the last call of its expression returned, a later
      binding of a name in place of an earlier one. */
  ghost function ScopeAfter<V, E>(bs: Backends<V, E>, before: Envs<E>, lets: seq<Part>, calls: seq<Call>): Scope<V>
    requires Bindings(lets)
    decreases |lets|
  {
    if lets == [] then map[]
    else
      var scope := ScopeAfter(bs, before, lets[..|lets| - 1], calls);
      var value := ValueAt(bs, before, calls, |LetBlocks(lets)| - 1);
      if lets[|lets| - 1].expr.Expr? && value.Some? then scope[lets[|lets| - 1].name := value.value] else scope
  }

  /** Every call of a binding is the call of its block, under the names bound before it. */
  ghost predicate BindingsExplained<V, E>(bs: Backends<V, E>, before: Envs<E>, lets: seq<Part>, calls: seq<Call>)
    requires Bindings(lets)
    decreases |lets|
  {
    lets == []
    || var init, last := lets[..|lets| - 1], lets[|lets| - 1];
       && BindingsExplained(bs, before, init, calls)
       && Explained(bs, before, ScopeAfter(bs, before, init, calls), BlocksOne(last.expr), calls, |LetBlocks(init)|)
  }

  lemma {:induction false} ScopeKept<V, E>(bs: Backends<V, E>, before: Envs<E>, lets: seq<Part>, x: seq<Call>,
                                           y: seq<Call>)
    requires Bindings(lets) && |x| >= |LetBlocks(lets)|
    ensures ScopeAfter(bs, before, lets, x + y) == ScopeAfter(bs, before, lets, x)
    decreases |lets|
  {
    hide ValueAt, BlocksOne;
    if lets != [] {
      ScopeKept(bs, before, lets[..|lets| - 1], x, y);
      ValueKept(bs, before, x, y, |LetBlocks(lets)| - 1);
    }
  }

  lemma {:induction false} BindingsKept<V, E>(bs: Backends<V, E>, before: Envs<E>, lets: seq<Part>, x: seq<Call>,
                                              y: seq<Call>)
    requires Bindings(lets) && |x| >= |LetBlocks(lets)| && BindingsExplained(bs, before, lets, x)
    ensures BindingsExplained(bs, before, lets, x + y)
    decreases |lets|
  {
    hide Explained, ScopeAfter, BlocksOne;
    if lets != [] {
      var init, last := lets[..|lets| - 1], lets[|lets| - 1];
      BindingsKept(bs, before, init, x, y);
      ScopeKept(bs, before, init, x, y);
      ExplainedKept(bs, before, ScopeAfter(bs, before, init, x), BlocksOne(last.expr), x, y, |LetBlocks(init)|);
    }
  }

  lemma {:induction false} ExplainedNone<V, E>(bs: Backends<V, E>, before: Envs<E>, scope: Scope<V>,
                                               blocks: seq<Part>, calls: seq<Call>, from: nat)
    requires |calls| <= from
    ensures Explained(bs, before, scope, blocks, calls, from)
  {
  }

  lemma {:induction false} BindingsReplay<V, E>(bs: Backends<V, E>, envs: Envs<E>, lets: seq<Part>)
    requires Bindings(lets)
    ensures
      var r := BindAll(bs, envs, lets);
      envs.Keys <= r.envs.Keys && forall key :: Evolves(bs, envs, r.envs, r.calls, key)
  {
    var r := BindAll(bs, envs, lets);
    forall key ensures envs.Keys <= r.envs.Keys && Evolves(bs, envs, r.envs, r.calls, key) {
      BindingsDisciplined(bs, envs, lets, key);
    }
    BindingsDisciplined(bs, envs, lets, Key("", 0));
  }

  /** The calls of bindings, and the names they leave bound. */
  lemma {:induction false} BindingsRun<V, E>(bs: Backends<V, E>, envs: Envs<E>, lets: seq<Part>)
    requires Bindings(lets)
    ensures
      var r := BindAll(bs, envs, lets);
      && |r.calls| <= |LetBlocks(lets)| && BindingsExplained(bs, envs, lets, r.calls)
      && (r.scope.Some? ==>
            |r.calls| == |LetBlocks(lets)| && r.scope.value == ScopeAfter(bs, envs, lets, r.calls))
    decreases |lets|
  {
    hide Explained, Evolves, EvalExpr, Blocks, ValueAt;
    if lets != [] {
      var init, last := lets[..|lets| - 1], lets[|lets| - 1];
      var so := BindAll(bs, envs, init);
      BindingsRun(bs, envs, init);
      if so.scope.None? {
        ExplainedNone(bs, envs, ScopeAfter(bs, envs, init, so.calls), BlocksOne(last.expr), so.calls,
                      |LetBlocks(init)|);
      } else if !last.expr.Expr? {
        ExplainedNone(bs, envs, ScopeAfter(bs, envs, init, so.calls), BlocksOne(last.expr), so.calls,
                      |LetBlocks(init)|);
        assert so.calls + [] == so.calls;
      } else {
        BindingsReplay(bs, envs, init);
        OneRun(bs, envs, init, last, so);
      }
    }
  }

  lemma {:induction false} OneRun<V, E>(bs: Backends<V, E>, envs: Envs<E>, init: seq<Part>, last: Part,
                                        so: Bound<V, E>)
    requires Bindings(init) && last.Let? && last.expr.Expr? && so.scope.Some?
    requires envs.Keys <= so.envs.Keys && forall key :: Evolves(bs, envs, so.envs, so.calls, key)
    requires |so.calls| == |LetBlocks(init)| && BindingsExplained(bs, envs, init, so.calls)
    requires so.scope.value == ScopeAfter(bs, envs, init, so.calls)
    ensures
      var out := EvalExpr(bs, so.envs, so.scope.value, last.expr);
      var calls := so.calls + out.calls;
      && |out.calls| <= |Blocks(last.expr)| && BindingsExplained(bs, envs, init, calls)
      && ScopeAfter(bs, envs, init, calls) == so.scope.value
      && Explained(bs, envs, so.scope.value, Blocks(last.expr), calls, |so.calls|)
      && (out.value.Some? ==> |out.calls| == |Blocks(last.expr)|)
      && (|out.calls| == |Blocks(last.expr)| ==> out.value == ValueAt(bs, envs, calls, |calls| - 1))
  {
    hide Explained, Evolves, EvalExpr, Blocks, ValueAt, BindingsExplained, ScopeAfter, Post, InOrder, LetBlocks;
    var out := EvalExpr(bs, so.envs, so.scope.value, last.expr);
    CallsInOrder(bs, so.envs, so.scope.value, last.expr);
    BindingsKept(bs, envs, init, so.calls, out.calls);
    ScopeKept(bs, envs, init, so.calls, out.calls);
    ExplainedShift(bs, envs, so.envs, so.scope.value, Blocks(last.expr), so.calls, out.calls);
    if |out.calls| == |Blocks(last.expr)| {
      ValueShift(bs, envs, so.envs, so.calls, out.calls, |out.calls| - 1);
      assert |so.calls| + (|out.calls| - 1) == |so.calls + out.calls| - 1;
    }
  }

  /** A run of a document, call by call: those of its bindings and then those of its root, each given
      the text of its own block's body under the names bound by then; and the document's value. */
  ghost predicate DocumentExplained<V, E>(u: Unicode, bs: Backends<V, E>, before: Envs<E>, body: seq<Part>,
                                          r: Out<V, E>)
  {
    var lets, root := LetsOf(body), Root(u, OthersOf(body));
    var n := |LetBlocks(lets)| + |Blocks(root)|;
    && |r.calls| <= n && BindingsExplained(bs, before, lets, r.calls)
    && Explained(bs, before, ScopeAfter(bs, before, lets, r.calls), Blocks(root), r.calls, |LetBlocks(lets)|)
    && (r.value.Some? ==> |r.calls| == n)
    && (|r.calls| == n ==> r.value == ValueAt(bs, before, r.calls, n - 1))
  }

  lemma {:induction false} DocumentRuns<V, E>(u: Unicode, bs: Backends<V, E>, envs: Envs<E>, body: seq<Part>)
    ensures DocumentExplained(u, bs, envs, body, EvalDocument(u, bs, envs, body))
  {
    hide Explained, Evolves, EvalExpr, Blocks, ValueAt, BindingsExplained, ScopeAfter, LetBlocks, BindAll, LetsOf,
         OthersOf, Root;
    var lets, root := LetsOf(body), Root(u, OthersOf(body));
    var bound := BindAll(bs, envs, lets);
    BindingsRun(bs, envs, lets);
    if bound.scope.None? {
      ExplainedNone(bs, envs, ScopeAfter(bs, envs, lets, bound.calls), Blocks(root), bound.calls, |LetBlocks(lets)|);
    } else {
      BindingsReplay(bs, envs, lets);
      OneRun(bs, envs, lets, Let("", root), bound);
    }
  }

  /** A document's backend calls are its blocks leaves first and left to right, bindings before the
      root, each given the text of its own block's body; the registry gains exactly the numbered
      blocks' environments; and every environment starts from its backend's initial one and is fed
      exactly its own blocks' bodies in that order. */
  lemma {:induction false} DocumentDisciplined<V, E>(u: Unicode, bs: Backends<V, E>, envs: Envs<E>, body: seq<Part>,
                                                     key: Key)
    ensures var r := EvalDocument(u, bs, envs, body);
      Disciplined(bs, envs, r.envs, r.calls, DocumentOrder(u, body), r.value.Some?, key)
    ensures DocumentExplained(u, bs, envs, body, EvalDocument(u, bs, envs, body))
  {
    DocumentRuns(u, bs, envs, body);
    var lets, root := LetsOf(body), Root(u, OthersOf(body));
    var bound := BindAll(bs, envs, lets);
    BindingsDisciplined(bs, envs, lets, key);
    hide Disciplined, EvalExpr, Post, BindAll, Root, LetsOf, OthersOf, PostLets, DocumentExplained;
    if bound.scope.None? {
      DisciplinedStops(bs, envs, bound.envs, bound.calls, PostLets(lets), Post(root), false, key);
    } else {
      var out := EvalExpr(bs, bound.envs, bound.scope.value, root);
      ExprDisciplined(bs, bound.envs, bound.scope.value, root, key);
      DisciplinedThen(bs, envs, bound.envs, out.envs, bound.calls, out.calls, PostLets(lets), Post(root),
        out.value.Some?, key);
    }
  }

  lemma {:induction false} SplitAppend(a: seq<Part>, b: seq<Part>)
    ensures LetsOf(a + b) == LetsOf(a) + LetsOf(b) && OthersOf(a + b) == OthersOf(a) + OthersOf(b)
  {
    hide LetsOf, OthersOf;
    if a == [] {
      assert a + b == b;
      SplitNone();
    } else {
      assert (a + b)[0] == a[0] && (a + b)[1..] == a[1..] + b;
      SplitAppend(a[1..], b);
      SplitFirst(a);
      SplitFirst(a + b);
      var l, o := if a[0].Let? then [a[0]] else [], if a[0].Let? then [] else [a[0]];
      assert l + LetsOf(a[1..]) + LetsOf(b) == l + (LetsOf(a[1..]) + LetsOf(b));
      assert o + OthersOf(a[1..]) + OthersOf(b) == o + (OthersOf(a[1..]) + OthersOf(b));
    }
  }

  lemma {:induction false} SplitNone()
    ensures LetsOf([]) == [] && OthersOf([]) == []
  {
  }

  lemma {:induction false} SplitFirst(body: seq<Part>)
    requires body != []
    ensures LetsOf(body) == (if body[0].Let? then [body[0]] else []) + LetsOf(body[1..])
    ensures OthersOf(body) == (if body[0].Let? then [] else [body[0]]) + OthersOf(body[1..])
  {
  }

  lemma {:induction false} AllLets(a: seq<Part>)
    requires forall p :: p in a ==> p.Let?
    ensures LetsOf(a) == a && OthersOf(a) == []
  {
    if a != [] { AllLets(a[1..]); }
  }

  lemma {:induction false} NoLets(a: seq<Part>)
    requires forall p :: p in a ==> !p.Let?
    ensures LetsOf(a) == [] && OthersOf(a) == a
  {
    if a != [] { NoLets(a[1..]); }
  }

  /** Moving a document's bindings to its front, in order, changes nothing. */
  lemma {:induction false} BindingsFirst<V, E>(u: Unicode, bs: Backends<V, E>, envs: Envs<E>, body: seq<Part>)
    ensures EvalDocument(u, bs, envs, LetsOf(body) + OthersOf(body)) == EvalDocument(u, bs, envs, body)
  {
    var a, b := LetsOf(body), OthersOf(body);
    SplitAppend(a, b);
    AllLets(a);
    NoLets(b);
    assert a + [] == a && [] + b == b;
  }

  // -------------------------------------------------------------------------- the root

  /** Part `i` is an expression and everything else is white space. */
  ghost predicate StandsAlone(u: Unicode, others: seq<Part>, i: nat)
  {
    i < |others| && others[i].Expr? && forall j :: 0 <= j < |others| && j != i ==> Blank(u, others[j])
  }

  lemma {:induction false} MeaningfulKept(u: Unicode, body: seq<Part>)
    ensures |Meaningful(u, body)| <= |body|
    ensures Meaningful(u, body) == [] <==> forall i :: 0 <= i < |body| ==> Blank(u, body[i])
  {
    hide Blank;
    if body != [] {
      MeaningfulKept(u, body[1..]);
      assert forall i :: 0 < i < |body| ==> body[i] == body[1..][i - 1];
    }
  }

  lemma {:induction false} MeaningfulOne(u: Unicode, body: seq<Part>) returns (i: nat)
    requires |Meaningful(u, body)| == 1
    ensures i < |body| && Meaningful(u, body) == [body[i]] && !Blank(u, body[i])
    ensures forall j :: 0 <= j < |body| && j != i ==> Blank(u, body[j])
  {
    hide Blank;
    if Blank(u, body[0]) {
      i := MeaningfulOne(u, body[1..]);
      assert body[1..][i] == body[i + 1];
      forall j | 0 <= j < |body| && j != i + 1 ensures Blank(u, body[j]) {
        if j > 0 { assert body[j] == body[1..][j - 1]; }
      }
      i := i + 1;
    } else {
      i := 0;
      MeaningfulKept(u, body[1..]);
      assert Meaningful(u, body[1..]) == [];
      forall j | 0 < j < |body| ensures Blank(u, body[j]) { assert body[j] == body[1..][j - 1]; }
    }
  }

  lemma {:induction false} AloneMeaningful(u: Unicode, body: seq<Part>, i: nat)
    requires StandsAlone(u, body, i)
    ensures Meaningful(u, body) == [body[i]]
    decreases |body|
  {
    var rest := body[1..];
    assert forall j :: 0 < j < |body| ==> body[j] == rest[j - 1];
    if i == 0 {
      MeaningfulKept(u, rest);
      forall j | 0 <= j < |rest| ensures Blank(u, rest[j]) { assert rest[j] == body[j + 1]; }
    } else {
      assert Blank(u, body[0]);
      forall j | 0 <= j < |rest| && j != i - 1 ensures Blank(u, rest[j]) { assert rest[j] == body[j + 1]; }
      AloneMeaningful(u, rest, i - 1);
    }
  }

  /** The value of a document is that of the one expression that stands alone in it, bindings and white
      space aside; of any other document it is that of one bare text block around everything. */
  lemma {:induction false} RootExactly(u: Unicode, others: seq<Part>)
    ensures forall i: nat :: StandsAlone(u, others, i) ==> Root(u, others) == others[i]
    ensures (forall i: nat :: !StandsAlone(u, others, i)) ==>
      Root(u, others) == Expr("text", Env(0xFFFF_FFFF, false), others)
  {
    hide Meaningful, Blank;
    forall i: nat | StandsAlone(u, others, i) ensures Root(u, others) == others[i] { AloneMeaningful(u, others, i); }
    var main := Meaningful(u, others);
    if |main| == 1 && main[0].Expr? {
      var i := MeaningfulOne(u, others);
      assert StandsAlone(u, others, i);
    }
  }

  predicate Alias(a: string, b: string)
  {
    || (a == "py" && b == "python") || (a == "md" && b == "markdown") || (a == "tex" && b == "latex")
    || (a == "plain" && b == "text") || (a == "o" && b == "O")
  }

  /** Languages share environments exactly when they are one, or one is the alias of the other. */
  lemma {:induction false} AliasesExactly(a: string, b: string)
    ensures Canonical(a) == Canonical(b) <==> a == b || Alias(a, b) || Alias(b, a)
  {
    assert |"py"| == 2 && |"md"| == 2 && |"tex"| == 3 && |"plain"| == 5 && |"o"| == 1;
    assert |"python"| == 6 && |"markdown"| == 8 && |"latex"| == 5 && |"text"| == 4 && |"O"| == 1;
    assert "py"[0] == 'p' && "md"[0] == 'm' && "plain"[0] == 'p' && "latex"[0] == 'l' && "o"[0] == 'o' && "O"[0] == 'O';
  }
}
