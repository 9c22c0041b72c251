/** The evaluator itself: a registry that evaluation changes. */
module Evaluator {
  import opened Wrappers
  import opened Syntax
  import opened Evaluation
  import opened EvaluationTheorems

  /** The environment a block was given: a stored one, shared by name, or one of its own. */
  datatype Given<E> = Shared(key: Key) | Own(env: E)

  class EvalContext<V(!new), E(!new)> {
    const backends: Backends<V, E>
    var envs: Envs<E>
    ghost var calls: seq<Call>

    constructor (backends: Backends<V, E>)
      ensures this.backends == backends && envs == map[] && calls == []
    {
      this.backends, envs, calls := backends, map[], [];
    }

    /** `env_for`. */
    method EnvFor(key: Key) returns (env: Given<E>)
      requires key.language in backends
      modifies this
      ensures envs == Entered(old(envs), key, backends[key.language].initial) && calls == old(calls)
      ensures env == if Persistent(key) then Shared(key) else Own(backends[key.language].initial)
    {
      if !Persistent(key) { return Own(backends[key.language].initial); }
      if key !in envs { envs := envs[key := backends[key.language].initial]; }
      env := Shared(key);
    }

    /** The loop of `_eval_expression` over a body's children. */
    method SpliceBody(body: seq<Part>, scope: Scope<V>, render: V -> string) returns (text: Option<string>)
      modifies this
      ensures var r := Splice(backends, old(envs), scope, render, body);
        text == r.text && envs == r.envs && calls == old(calls) + r.calls
      decreases body, 1
    {
      ghost var start := envs;
      hide Splice, EvalExpr;
      ghost var so := Splice(backends, start, scope, render, body[..0]);
      SpliceNothing(backends, start, scope, render, body);
      var buf := "";
      var i := 0;
      while i < |body|
        invariant 0 <= i <= |body|
        invariant so == Splice(backends, start, scope, render, body[..i])
        invariant so == Spliced(Some(buf), envs, so.calls) && calls == old(calls) + so.calls
      {
        var child := body[i];
        SpliceNext(backends, start, scope, render, body, i);
        so := Splice(backends, start, scope, render, body[..i + 1]);
        match child {
          case Text(chunk) => buf := buf + chunk;
          case Var(name) =>
            if name in scope { buf := buf + render(scope[name]); } else { buf := buf + ("$" + name); }
          case Let(_, _) => return None;
          case Expr(_, _, _) => {
            var value := EvalExpression(child, scope);
            if value.None? { return None; }
            buf := buf + render(value.value);
          }
        }
        i := i + 1;
      }
      assert body[..i] == body;
      text := Some(buf);
    }

    /** `_eval_expression`. */
    method EvalExpression(node: Part, scope: Scope<V>) returns (value: Option<V>)
      requires node.Expr?
      modifies this
      ensures var r := EvalExpr(backends, old(envs), scope, node);
        value == r.value && envs == r.envs && calls == old(calls) + r.calls
      decreases node, 0
    {
      hide Splice;
      var key := KeyOf(node);
      if key.language !in backends { return None; }
      var b := backends[key.language];
      var env := EnvFor(key);
      var body := SpliceBody(node.body, scope, b.render);
      if body.None? { return None; }
      var ran := b.run(body.value, if env.Shared? then envs[env.key] else env.env);
      if env.Shared? { envs := envs[env.key := ran.env]; }
      calls := calls + [Call(key, body.value)];
      value := ran.value;
    }

    /** One binding added to a scope. */
    method Bind(scope: Scope<V>, binding: Part) returns (r: Option<Scope<V>>)
      requires binding.Let?
      modifies this
      ensures var one := BindOne(backends, old(envs), scope, binding);
        r == one.scope && envs == one.envs && calls == old(calls) + one.calls
    {
      hide EvalExpr;
      if !binding.expr.Expr? { return None; }
      var value := EvalExpression(binding.expr, scope);
      r := if value.Some? then Some(scope[binding.name := value.value]) else None;
    }

    /** The loop of `evaluate_document`: bindings as they come, everything else kept for the root. */
    method BindLets(body: seq<Part>) returns (scope: Option<Scope<V>>, others: seq<Part>)
      modifies this
      ensures var r := BindAll(backends, old(envs), LetsOf(body));
        scope == r.scope && envs == r.envs && calls == old(calls) + r.calls
      ensures scope.Some? ==> others == OthersOf(body)
    {
      hide EvalExpr, BindOne, BindAll, LetsOf, OthersOf, Bindings;
      var known: Scope<V> := map[];
      others := [];
      ghost var start := envs;
      ghost var so := BindAll(backends, start, LetsOf(body[..0]));
      assert body[..0] == [];
      NoParts(backends, start);
      var i := 0;
      while i < |body|
        invariant 0 <= i <= |body| && others == OthersOf(body[..i])
        invariant so == BindAll(backends, start, LetsOf(body[..i]))
        invariant so == Bound(Some(known), envs, so.calls) && calls == old(calls) + so.calls
      {
        NextPart(backends, start, body, i);
        so := BindAll(backends, start, LetsOf(body[..i + 1]));
        if body[i].Let? {
          var bound := Bind(known, body[i]);
          if bound.None? { return None, others; }
          known := bound.value;
        } else {
          others := others + [body[i]];
        }
        i := i + 1;
      }
      assert body[..i] == body;
      scope := Some(known);
    }

    /** `evaluate_document`. */
    method EvaluateDocument(u: Unicode, body: seq<Part>) returns (value: Option<V>)
      modifies this
      ensures var r := EvalDocument(u, backends, old(envs), body);
        value == r.value && envs == r.envs && calls == old(calls) + r.calls
    {
      hide EvalExpr, BindAll, Root, LetsOf, OthersOf;
      var scope, others := BindLets(body);
      if scope.None? { return None; }
      var root := FindRoot(u, others);
      value := EvalExpression(root, scope.value);
    }

    /** The node whose value the document has. */
    method FindRoot(u: Unicode, others: seq<Part>) returns (root: Part)
      ensures root == Root(u, others)
    {
      hide Meaningful, Blank;
      var main: seq<Part> := [];
      var i := 0;
      assert others[0..] == others;
      while i < |others|
        invariant 0 <= i <= |others| && main + Meaningful(u, others[i..]) == Meaningful(u, others)
      {
        MeaningfulStep(u, others, i);
        if !Blank(u, others[i]) { main := main + [others[i]]; }
        i := i + 1;
      }
      MeaningfulEnd(u, others);
      assert main + [] == main;
      root := if |main| == 1 && main[0].Expr? then main[0] else Expr("text", Env(EPHEMERAL_ENV_ID, false), others);
    }
  }

  lemma {:induction false} MeaningfulStep(u: Unicode, body: seq<Part>, i: nat)
    requires i < |body|
    ensures Meaningful(u, body[i..]) == (if Blank(u, body[i]) then [] else [body[i]]) + Meaningful(u, body[i + 1..])
  {
    hide Blank;
    assert body[i..][1..] == body[i + 1..];
  }

  lemma {:induction false} MeaningfulEnd(u: Unicode, body: seq<Part>)
    ensures Meaningful(u, body[|body|..]) == []
  {
  }

  lemma {:induction false} NoParts<V, E>(bs: Backends<V, E>, envs: Envs<E>)
    ensures LetsOf([]) == [] && OthersOf([]) == [] && BindAll(bs, envs, []) == Bound(Some(map[]), envs, [])
  {
  }

  /** One more part of a document: a binding, or one more part of its root. */
  lemma {:induction false} NextPart<V, E>(bs: Backends<V, E>, envs: Envs<E>, body: seq<Part>, i: nat)
    requires i < |body|
    ensures var so := BindAll(bs, envs, LetsOf(body[..i]));
      && (body[i].Let? && so.scope.Some? ==>
            var one := BindOne(bs, so.envs, so.scope.value, body[i]);
            BindAll(bs, envs, LetsOf(body[..i + 1])) == Bound(one.scope, one.envs, so.calls + one.calls))
      && (!body[i].Let? ==> LetsOf(body[..i + 1]) == LetsOf(body[..i]))
      && OthersOf(body[..i + 1]) == OthersOf(body[..i]) + (if body[i].Let? then [] else [body[i]])
      && (BindAll(bs, envs, LetsOf(body[..i + 1])).scope.None? ==>
            BindAll(bs, envs, LetsOf(body)) == BindAll(bs, envs, LetsOf(body[..i + 1])))
  {
    hide LetsOf, OthersOf, BindAll, BindOne;
    assert body[..i + 1] == body[..i] + [body[i]];
    SplitAppend(body[..i], [body[i]]);
    OnePart(body[i]);
    var a, b := LetsOf(body[..i + 1]), LetsOf(body[i + 1..]);
    assert body == body[..i + 1] + body[i + 1..];
    SplitAppend(body[..i + 1], body[i + 1..]);
    if body[i].Let? {
      assert a[..|a| - 1] == LetsOf(body[..i]);
      BindLast(bs, envs, a);
    }
    if BindAll(bs, envs, a).scope.None? { BindingStopped(bs, envs, a, b); }
  }

  lemma {:induction false} BindLast<V, E>(bs: Backends<V, E>, envs: Envs<E>, lets: seq<Part>)
    requires Bindings(lets) && lets != []
    ensures Bindings(lets[..|lets| - 1])
    ensures var so := BindAll(bs, envs, lets[..|lets| - 1]);
      so.scope.Some? ==>
        var one := BindOne(bs, so.envs, so.scope.value, lets[|lets| - 1]);
        BindAll(bs, envs, lets) == Bound(one.scope, one.envs, so.calls + one.calls)
  {
    hide BindOne;
  }

  lemma {:induction false} OnePart(p: Part)
    ensures LetsOf([p]) == (if p.Let? then [p] else []) && OthersOf([p]) == (if p.Let? then [] else [p])
  {
    assert [p][1..] == [] && LetsOf([]) == [] && OthersOf([]) == [];
  }

  lemma {:induction false} BindingStopped<V, E>(bs: Backends<V, E>, envs: Envs<E>, a: seq<Part>, b: seq<Part>)
    requires Bindings(a + b) && Bindings(a) && BindAll(bs, envs, a).scope.None?
    ensures BindAll(bs, envs, a + b) == BindAll(bs, envs, a)
    decreases |b|
  {
    if b == [] {
      assert a + b == a;
    } else {
      var c := b[..|b| - 1];
      assert (a + b)[..|a + b| - 1] == a + c;
      assert forall p :: p in a + c ==> p in a + b;
      BindingStopped(bs, envs, a, c);
    }
  }

  lemma {:induction false} SpliceNothing<V, E>(bs: Backends<V, E>, envs: Envs<E>, scope: Scope<V>, render: V -> string,
                                               body: seq<Part>)
    ensures Splice(bs, envs, scope, render, body[..0]) == Spliced(Some(""), envs, [])
  {
  }

  lemma {:induction false} SpliceNext<V, E>(bs: Backends<V, E>, envs: Envs<E>, scope: Scope<V>, render: V -> string,
                                            body: seq<Part>, i: nat)
    requires i < |body|
    ensures var so := Splice(bs, envs, scope, render, body[..i]);
      && (so.text.Some? ==>
            Splice(bs, envs, scope, render, body[..i + 1]) == SpliceChild(bs, so, scope, render, body[i]))
      && (Splice(bs, envs, scope, render, body[..i + 1]).text.None? ==>
            Splice(bs, envs, scope, render, body) == Splice(bs, envs, scope, render, body[..i + 1]))
  {
    assert body[..i + 1][..i] == body[..i];
    if Splice(bs, envs, scope, render, body[..i + 1]).text.None? { StaysStopped(bs, envs, scope, render, body, i + 1); }
  }

  lemma {:induction false} StaysStopped<V, E>(bs: Backends<V, E>, envs: Envs<E>, scope: Scope<V>, render: V -> string,
                                              body: seq<Part>, i: nat)
    requires i <= |body| && Splice(bs, envs, scope, render, body[..i]).text.None?
    ensures Splice(bs, envs, scope, render, body) == Splice(bs, envs, scope, render, body[..i])
    decreases |body| - i
  {
    if i < |body| {
      assert body[..i + 1][..i] == body[..i];
      StaysStopped(bs, envs, scope, render, body, i + 1);
    } else {
      assert body[..i] == body;
    }
  }
}
