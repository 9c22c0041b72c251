/** Evaluation of a parsed document (o_lang/evaluator.py) over language backends given as functions. */
module Evaluation {
  import opened Wrappers
  import opened Syntax

  /** An environment's name: a canonical language and an environment id. */
  datatype Key = Key(language: string, id: nat)

  type Envs<E> = map<Key, E>
  type Scope<V> = map<string, V>

  /** What a backend makes of a body: a value unless it raises, and the changed environment. */
  datatype Ran<V, E> = Ran(value: Option<V>, env: E)

  /** A backend: the environment it starts from, what running a body does, how a value is spliced in. */
  datatype Backend<!V, !E> = Backend(initial: E, run: (string, E) -> Ran<V, E>, render: V -> string)

  type Backends<!V, !E> = map<string, Backend<V, E>>

  /** One call of a backend. */
  datatype Call = Call(key: Key, body: string)

  /** A value unless something raised, the registry afterwards, and the backend calls made. */
  datatype Out<V, E> = Out(value: Option<V>, envs: Envs<E>, calls: seq<Call>)

  /** The text of a body, unless a child raised. */
  datatype Spliced<E> = Spliced(text: Option<string>, envs: Envs<E>, calls: seq<Call>)

  function Canonical(language: string): string
  {
    if language == "py" then "python"
    else if language == "md" then "markdown"
    else if language == "tex" then "latex"
    else if language == "plain" then "text"
    else if language == "o" then "O"
    else language
  }

  /** Bare and `[*]` blocks have the two reserved ids. */
  predicate Persistent(key: Key) { key.id != EPHEMERAL_ENV_ID && key.id != LINKER_ISOLATED_ENV_ID }

  function KeyOf(node: Part): Key
    requires node.Expr?
  {
    Key(Canonical(node.language), node.env.id)
  }

  /** The registry once a node has asked for its environment. */
  function Entered<E>(envs: Envs<E>, key: Key, initial: E): Envs<E>
  {
    if Persistent(key) && key !in envs then envs[key := initial] else envs
  }

  function Reference<V>(render: V -> string, scope: Scope<V>, name: string): string
  {
    if name in scope then render(scope[name]) else "$" + name
  }

  /** One body run in the environment its block names: the stored one, or a new one. */
  function RunIn<V, E>(b: Backend<V, E>, envs: Envs<E>, key: Key, body: string): (r: Out<V, E>)
    requires Persistent(key) ==> key in envs
    ensures r.envs.Keys == envs.Keys
  {
    var ran := b.run(body, if Persistent(key) then envs[key] else b.initial);
    Out(ran.value, if Persistent(key) then envs[key := ran.env] else envs, [Call(key, body)])
  }

  function EvalExpr<V, E>(bs: Backends<V, E>, envs: Envs<E>, scope: Scope<V>, node: Part): (r: Out<V, E>)
    requires node.Expr?
    ensures envs.Keys <= r.envs.Keys
    decreases node, 0
  {
    var key := KeyOf(node);
    if key.language !in bs then Out(None, envs, [])
    else
      var b := bs[key.language];
      var kids := Splice(bs, Entered(envs, key, b.initial), scope, b.render, node.body);
      if kids.text.None? then Out(None, kids.envs, kids.calls)
      else
        var own := RunIn(b, kids.envs, key, kids.text.value);
        Out(own.value, own.envs, kids.calls + own.calls)
  }

  /** The children of a body, from left to right. */
  function Splice<V, E>(bs: Backends<V, E>, envs: Envs<E>, scope: Scope<V>, render: V -> string,
                        body: seq<Part>): (r: Spliced<E>)
    ensures envs.Keys <= r.envs.Keys
    decreases body, 1
  {
    if body == [] then Spliced(Some(""), envs, [])
    else
      var init := Splice(bs, envs, scope, render, body[..|body| - 1]);
      if init.text.None? then init else SpliceChild(bs, init, scope, render, body[|body| - 1])
  }

  function SpliceChild<V, E>(bs: Backends<V, E>, so: Spliced<E>, scope: Scope<V>, render: V -> string,
                             child: Part): (r: Spliced<E>)
    requires so.text.Some?
    ensures so.envs.Keys <= r.envs.Keys
    decreases child, 2
  {
    match child
    case Text(text) => Spliced(Some(so.text.value + text), so.envs, so.calls)
    case Var(name) => Spliced(Some(so.text.value + Reference(render, scope, name)), so.envs, so.calls)
    case Let(_, _) => Spliced(None, so.envs, so.calls)
    case Expr(_, _, _) =>
      var out := EvalExpr(bs, so.envs, scope, child);
      Spliced(if out.value.Some? then Some(so.text.value + render(out.value.value)) else None, out.envs,
          so.calls + out.calls)
  }

  // ---------------------------------------------------------------------- documents

  predicate Blank(u: Unicode, p: Part) { p.Text? && forall i :: 0 <= i < |p.text| ==> Space(u, p.text[i]) }

  predicate Bindings(parts: seq<Part>) { forall p :: p in parts ==> p.Let? }

  function LetsOf(body: seq<Part>): (r: seq<Part>)
    ensures Bindings(r)
  {
    if body == [] then [] else (if body[0].Let? then [body[0]] else []) + LetsOf(body[1..])
  }

  function OthersOf(body: seq<Part>): (r: seq<Part>)
    ensures forall p :: p in r ==> !p.Let?
  {
    if body == [] then [] else (if body[0].Let? then [] else [body[0]]) + OthersOf(body[1..])
  }

  function Meaningful(u: Unicode, body: seq<Part>): seq<Part>
  {
    if body == [] then [] else (if Blank(u, body[0]) then [] else [body[0]]) + Meaningful(u, body[1..])
  }

  /** The single expression of a document, or an implicit text block around everything. */
  function Root(u: Unicode, others: seq<Part>): (r: Part)
    ensures r.Expr?
  {
    var main := Meaningful(u, others);
    if |main| == 1 && main[0].Expr? then main[0] else Expr("text", Env(EPHEMERAL_ENV_ID, false), others)
  }

  /** The bindings so far, unless one raised. */
  datatype Bound<V, E> = Bound(scope: Option<Scope<V>>, envs: Envs<E>, calls: seq<Call>)

  /** Top-level bindings, each seeing those before it. A binding of anything but an expression raises. */
  function BindAll<V, E>(bs: Backends<V, E>, envs: Envs<E>, lets: seq<Part>): (r: Bound<V, E>)
    requires Bindings(lets)
    decreases |lets|
  {
    if lets == [] then Bound(Some(map[]), envs, [])
    else
      var init := BindAll(bs, envs, lets[..|lets| - 1]);
      if init.scope.None? then init
      else
        var one := BindOne(bs, init.envs, init.scope.value, lets[|lets| - 1]);
        Bound(one.scope, one.envs, init.calls + one.calls)
  }

  function BindOne<V, E>(bs: Backends<V, E>, envs: Envs<E>, scope: Scope<V>, binding: Part): (r: Bound<V, E>)
    requires binding.Let?
  {
    if !binding.expr.Expr? then Bound(None, envs, [])
    else
      var out := EvalExpr(bs, envs, scope, binding.expr);
      Bound(if out.value.Some? then Some(scope[binding.name := out.value.value]) else None, out.envs, out.calls)
  }

  function EvalDocument<V, E>(u: Unicode, bs: Backends<V, E>, envs: Envs<E>, body: seq<Part>): Out<V, E>
  {
    var bound := BindAll(bs, envs, LetsOf(body));
    if bound.scope.None? then Out(None, bound.envs, bound.calls)
    else
      var out := EvalExpr(bs, bound.envs, bound.scope.value, Root(u, OthersOf(body)));
      Out(out.value, out.envs, bound.calls + out.calls)
  }
}
