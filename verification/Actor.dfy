/** Checkpoint and restore of a whole Python actor: `_user_globals_are_clean`,
    `_encode_python_globals`, `_decode_python_globals` and the environment change of
    `handle_restore` in backends/python_shim.py. */
module Actor {
  import opened Wrappers
  import opened Ordering
  import opened PyHeap
  import opened GraphEncoder
  import opened GraphDecoder
  import GraphTheorems
  import GraphTables
  import GraphCodec

  const BUILTINS := "__builtins__"
  const PROFILE := "constrained-python-graph"

  type Env = map<string, Value>

  datatype Global = Global(name: string, value: Enc)

  datatype Payload = Payload(
    profile: string, ambient: string, globals: seq<Global>, deleted: seq<string>, nodes: seq<Node>)

  datatype Refusal =
    | WrongProfile | WrongAmbient | BadGlobals | BadDeleted | Graph(reject: Reject) | RestoreConflict

  // --------------------------------------------------------------- checkpoint

  ghost predicate EnvClosed(h: Heap, env: Env) { forall n :: n in env ==> InHeap(h, env[n]) }

  predicate IsBaseline(env: Env, base: Env, n: string)
    requires n in env
  {
    n in base && env[n] == base[n]
  }

  /** Names the checkpoint carries: all but `__builtins__` and untouched baseline names. */
  function Own(env: Env, base: Env): set<string>
  {
    set n | n in env && n != BUILTINS && !IsBaseline(env, base, n)
  }

  function Lookup(env: Env, names: seq<string>): (r: seq<Value>)
    requires forall n :: n in names ==> n in env
    ensures |r| == |names|
    ensures forall i :: 0 <= i < |names| ==> r[i] == env[names[i]]
  {
    seq(|names|, i requires 0 <= i < |names| => env[names[i]])
  }

  function Named(names: seq<string>, es: seq<Enc>): (r: seq<Global>)
    requires |names| == |es|
    ensures |r| == |es|
  {
    seq(|es|, i requires 0 <= i < |es| => Global(names[i], es[i]))
  }

  /** The values to checkpoint, in name order. */
  ghost function Roots(env: Env, base: Env): (r: seq<Value>)
    ensures |r| == |SortedNames(Own(env, base))|
  {
    Lookup(env, SortedNames(Own(env, base)))
  }

  lemma {:induction false} RootAt(env: Env, base: Env, i: nat)
    requires i < |Roots(env, base)|
    ensures var n := SortedNames(Own(env, base))[i];
      n in Own(env, base) && n in env && n != BUILTINS && Roots(env, base)[i] == env[n]
  {
    hide SortedNames, Ascending;
    assert SortedNames(Own(env, base))[i] in Own(env, base);
  }

  lemma {:induction false} RootOf(env: Env, base: Env, n: string) returns (i: nat)
    requires n in Own(env, base)
    ensures i < |Roots(env, base)| && SortedNames(Own(env, base))[i] == n && n in env && Roots(env, base)[i] == env[n]
  {
    hide SortedNames, Ascending;
    assert n in SortedNames(Own(env, base));
    i :| 0 <= i < |SortedNames(Own(env, base))| && SortedNames(Own(env, base))[i] == n;
  }

  lemma {:induction false} RootsClosed(h: Heap, env: Env, base: Env)
    requires EnvClosed(h, env)
    ensures Closed(h, Roots(env, base))
  {
    forall i | 0 <= i < |Roots(env, base)| ensures InHeap(h, Roots(env, base)[i]) { RootAt(env, base, i); }
  }

  /** `_encode_python_globals`; nothing when an unsupported object pins the session. */
  ghost function Checkpoint(h: Heap, env: Env, base: Env, ambient: string): Option<Payload>
    requires ClosedHeap(h) && EnvClosed(h, env)
  {
    RootsClosed(h, env, base);
    var r := EncodeGraph(h, Roots(env, base));
    if r.None? then None
    else Some(Payload(PROFILE, ambient, Named(SortedNames(Own(env, base)), r.value.0),
                      SortedNames(base.Keys - env.Keys), r.value.1))
  }

  // ------------------------------------------------------------------ restore

  predicate Clean(env: Env, base: Env)
  {
    && (forall n :: n in env && n != BUILTINS ==> IsBaseline(env, base, n))
    && (forall n :: n in base ==> n in env && env[n] == base[n])
  }

  predicate GoodNames(gs: seq<Global>)
  {
    && (forall i :: 0 <= i < |gs| ==> gs[i].name != BUILTINS)
    && (forall i, j :: 0 <= i < j < |gs| ==> gs[i].name != gs[j].name)
  }

  function Encs(gs: seq<Global>): (r: seq<Enc>)
    ensures |r| == |gs| && forall i :: 0 <= i < |gs| ==> r[i] == gs[i].value
  {
    seq(|gs|, i requires 0 <= i < |gs| => gs[i].value)
  }

  function Bindings(gs: seq<Global>, vs: seq<Value>): (m: Env)
    requires |gs| == |vs|
    ensures m.Keys == set i | 0 <= i < |gs| :: gs[i].name
  {
    if gs == [] then map[]
    else
      var rest := Bindings(gs[..|gs| - 1], vs[..|vs| - 1]);
      assert forall i :: 0 <= i < |gs| - 1 ==> gs[..|gs| - 1][i] == gs[i];
      rest[gs[|gs| - 1].name := vs[|vs| - 1]]
  }

  function NameSet(names: seq<string>): set<string> { set n | n in names }

  /** `_decode_python_globals` and the replacement environment of `handle_restore`. */
  function Restored(p: Payload, base: Env, ambient: string, eq: Equality): Result<(Env, Heap), Refusal>
  {
    if p.profile != PROFILE then Err(WrongProfile)
    else if p.ambient != ambient then Err(WrongAmbient)
    else if BadNode in p.nodes then Err(Graph(Malformed))
    else if !GoodNames(p.globals) then Err(BadGlobals)
    else
      var r := DecodeGraph(p.nodes, eq, Encs(p.globals));
      if r.Err? then Err(Graph(r.error))
      else if exists i :: 0 <= i < |p.deleted| && p.deleted[i] !in base then Err(BadDeleted)
      else Ok(((base - NameSet(p.deleted)) + Bindings(p.globals, r.value.1), r.value.0))
  }

  // ------------------------------------------------------ which payloads are restored

  ghost predicate NamesGlobal(gs: seq<Global>, n: string) { exists i :: 0 <= i < |gs| && gs[i].name == n }

  /** A payload that can be restored onto a baseline, under an ambient fingerprint. */
  ghost predicate Restorable(p: Payload, base: Env, ambient: string)
  {
    && p.profile == "constrained-python-graph" && p.ambient == ambient
    && !NamesGlobal(p.globals, "__builtins__")
    && (forall i, j :: 0 <= i < j < |p.globals| ==> p.globals[i].name != p.globals[j].name)
    && (forall i :: 0 <= i < |p.deleted| ==> p.deleted[i] in base)
    && GraphTables.Faultless(p.nodes, Encs(p.globals))
  }

  /** What is wrong with a payload that is refused, and which checks come first. */
  ghost predicate RefusedFor(p: Payload, base: Env, ambient: string, e: Refusal)
  {
    match e
    case WrongProfile => p.profile != "constrained-python-graph"
    case WrongAmbient => p.profile == "constrained-python-graph" && p.ambient != ambient
    case BadGlobals =>
      && p.profile == "constrained-python-graph" && p.ambient == ambient
      && (NamesGlobal(p.globals, "__builtins__")
          || exists i, j :: 0 <= i < j < |p.globals| && p.globals[i].name == p.globals[j].name)
    case Graph(reject) =>
      && p.profile == "constrained-python-graph" && p.ambient == ambient
      && GraphTables.Fault(p.nodes, Encs(p.globals), reject)
    case BadDeleted =>
      && p.profile == "constrained-python-graph" && p.ambient == ambient && GoodNames(p.globals)
      && GraphTables.Faultless(p.nodes, Encs(p.globals))
      && exists i :: 0 <= i < |p.deleted| && p.deleted[i] !in base
    case RestoreConflict => false
  }

  /** The environment a payload is restored to: its globals, and the baseline without what it deleted. */
  ghost predicate RestoredTo(p: Payload, base: Env, eq: Equality, env: Env, h: Heap)
  {
    && (forall n :: n in env <==> NamesGlobal(p.globals, n) || (n in base && n !in p.deleted))
    && (forall i :: 0 <= i < |p.globals| ==>
          p.globals[i].name in env && Denote(p.nodes, p.globals[i].value) == Some(env[p.globals[i].name]))
    && (forall n :: n in env && !NamesGlobal(p.globals, n) ==> n in base && env[n] == base[n])
    && |h| == |p.nodes|
    && (forall j :: 0 <= j < |h| ==> FillNode(p.nodes, eq, p.nodes[j]) == Ok(h[j]))
  }

  /** For every payload, whoever wrote it: it is restored exactly when nothing is wrong with it, to
      exactly its globals and the baseline without what it deleted; otherwise the reported refusal
      names something that is wrong with it. */
  lemma {:induction false} RestoredExactly(p: Payload, base: Env, ambient: string, eq: Equality)
    ensures Restored(p, base, ambient, eq).Ok? <==> Restorable(p, base, ambient)
    ensures Restored(p, base, ambient, eq).Ok? ==>
      RestoredTo(p, base, eq, Restored(p, base, ambient, eq).value.0, Restored(p, base, ambient, eq).value.1)
    ensures Restored(p, base, ambient, eq).Err? ==>
      RefusedFor(p, base, ambient, Restored(p, base, ambient, eq).error)
  {
    hide DecodeGraph, Bindings, FillNode, Denote, GraphTables.Faultless, GraphTables.Fault, GoodNames, NamesGlobal;
    GraphTables.DecodeExactly(p.nodes, eq, Encs(p.globals));
    NamesExactly(p.globals);
    if p.profile == "constrained-python-graph" && p.ambient == ambient && BadNode in p.nodes {
      BadNodeFault(p.nodes, eq, Encs(p.globals));
    }
    var r := Restored(p, base, ambient, eq);
    if r.Ok? {
      var (h, vs) := DecodeGraph(p.nodes, eq, Encs(p.globals)).value;
      RestoredNames(p.globals, vs, base, p.deleted);
    }
  }

  lemma {:induction false} NamesExactly(gs: seq<Global>)
    ensures GoodNames(gs) <==>
      && !NamesGlobal(gs, "__builtins__")
      && forall i, j :: 0 <= i < j < |gs| ==> gs[i].name != gs[j].name
  {
  }

  lemma {:induction false} BadNodeFault(table: seq<Node>, eq: Equality, roots: seq<Enc>)
    requires BadNode in table
    ensures GraphTables.Fault(table, roots, Malformed) && !GraphTables.Faultless(table, roots)
  {
    assert DecodeGraph(table, eq, roots) == Err(Malformed);
    hide DecodeGraph, GraphTables.Fault, GraphTables.Faultless;
    GraphTables.DecodeExactly(table, eq, roots);
  }

  lemma {:induction false} RestoredNames(gs: seq<Global>, vs: seq<Value>, base: Env, deleted: seq<string>)
    requires |gs| == |vs| && forall i, j :: 0 <= i < j < |gs| ==> gs[i].name != gs[j].name
    ensures
      var env := (base - NameSet(deleted)) + Bindings(gs, vs);
      && (forall n :: n in env <==> NamesGlobal(gs, n) || (n in base && n !in deleted))
      && (forall i :: 0 <= i < |gs| ==> gs[i].name in env && env[gs[i].name] == vs[i])
      && (forall n :: n in env && !NamesGlobal(gs, n) ==> n in base && env[n] == base[n])
  {
    var m := Bindings(gs, vs);
    forall n ensures n in m <==> NamesGlobal(gs, n) { }
    forall i | 0 <= i < |gs| ensures gs[i].name in m && m[gs[i].name] == vs[i] { BindingsAt(gs, vs, i); }
    hide Bindings;
  }

  // ------------------------------------------------------------- the theorems

  lemma {:induction false} BindingsAt(gs: seq<Global>, vs: seq<Value>, i: nat)
    requires |gs| == |vs| && i < |gs|
    requires forall i, j :: 0 <= i < j < |gs| ==> gs[i].name != gs[j].name
    ensures Bindings(gs, vs)[gs[i].name] == vs[i]
  {
    if i < |gs| - 1 { BindingsAt(gs[..|gs| - 1], vs[..|vs| - 1], i); }
  }

  /** A clean actor is one whose environment is the baseline, `__builtins__` aside. */
  lemma {:induction false} CleanIsBaseline(env: Env, base: Env)
    requires BUILTINS !in base
    ensures Clean(env, base) <==> env - {BUILTINS} == base
    ensures Clean(env, base) ==> Own(env, base) == {}
  {
    if env - {BUILTINS} == base {
      forall n | n in env && n != BUILTINS ensures IsBaseline(env, base, n) {
        assert n in env - {BUILTINS} && (env - {BUILTINS})[n] == env[n];
      }
      forall n | n in base ensures n in env && env[n] == base[n] {
        assert n in env - {BUILTINS} && (env - {BUILTINS})[n] == env[n];
      }
    }
  }

  /** What the codec needs of an actor: a heap Python can hold, and a baseline of classes
      and the `O` namespace, which are not container or scalar values. */
  ghost predicate GoodActor(h: Heap, env: Env, base: Env, eq: Equality)
  {
    && GraphTheorems.GoodHeap(h, eq) && EnvClosed(h, env)
    && (forall n :: n in env && env[n].Leaf? ==> ValidScalar(env[n].scalar))
    && BUILTINS !in base && (forall n :: n in base ==> base[n].Foreign?)
  }

  /** The containers the checkpointed names reach, with their numbers. */
  ghost function Reached(h: Heap, env: Env, base: Env): map<nat, nat>
    requires ClosedHeap(h) && EnvClosed(h, env) && Checkpoint(h, env, base, "").Some?
  {
    RootsClosed(h, env, base);
    MemoOf(h, Roots(env, base))
  }

  lemma {:induction false} CheckpointDefined(h: Heap, env: Env, base: Env, ambient: string)
    requires ClosedHeap(h) && EnvClosed(h, env)
    ensures Closed(h, Roots(env, base))
    ensures Checkpoint(h, env, base, ambient).Some? <==> EncodeGraph(h, Roots(env, base)).Some?
    ensures Checkpoint(h, env, base, "").Some? <==> EncodeGraph(h, Roots(env, base)).Some?
    ensures EncodeGraph(h, Roots(env, base)).Some? ==> Reached(h, env, base) == MemoOf(h, Roots(env, base))
  {
    RootsClosed(h, env, base);
  }

  /** The new environment, name by name. */
  ghost predicate Reproduces(env: Env, base: Env, f: map<nat, nat>, env': Env)
  {
    && env'.Keys == env.Keys - {BUILTINS}
    && forall n :: n in env' ==>
         n in env && env'[n] == (if n in Own(env, base) then Rename(f, env[n]) else env[n])
  }

  lemma {:induction false} NamesOfNamed(names: seq<string>, es: seq<Enc>)
    requires |names| == |es| && Ascending(names, CodePoints) && BUILTINS !in names
    ensures GoodNames(Named(names, es)) && Encs(Named(names, es)) == es
    ensures (set i | 0 <= i < |es| :: Named(names, es)[i].name) == NameSet(names)
  {
    var gs := Named(names, es);
    forall i, j | 0 <= i < j < |gs| ensures gs[i].name != gs[j].name {
      LexIrreflexive(CodePoints(names[i]));
    }
    forall n | n in names ensures n in set i | 0 <= i < |es| :: gs[i].name {
      var i :| 0 <= i < |names| && names[i] == n;
      assert gs[i].name == n;
    }
  }

  lemma {:induction false} BoundNames(env: Env, base: Env, f: map<nat, nat>, es: seq<Enc>)
    requires |es| == |Roots(env, base)|
    ensures
      var bound := Bindings(Named(SortedNames(Own(env, base)), es), RenameAll(f, Roots(env, base)));
      bound.Keys == Own(env, base) && forall n :: n in bound ==> n in env && bound[n] == Rename(f, env[n])
  {
    hide SortedNames, Ascending, Own, Bindings, Roots;
    var names := SortedNames(Own(env, base));
    var gs, vs := Named(names, es), RenameAll(f, Roots(env, base));
    NoBuiltins(env, base);
    NamesOfNamed(names, es);
    assert NameSet(names) == Own(env, base);
    forall n | n in Own(env, base) ensures n in env && Bindings(gs, vs)[n] == Rename(f, env[n]) {
      var i := RootOf(env, base, n);
      BindingsAt(gs, vs, i);
    }
  }

  lemma {:induction false} NoBuiltins(env: Env, base: Env)
    ensures BUILTINS !in SortedNames(Own(env, base)) && Ascending(SortedNames(Own(env, base)), CodePoints)
  {
    hide SortedNames, Ascending;
    assert BUILTINS !in Own(env, base);
  }

  lemma {:induction false} MergedReproduces(env: Env, base: Env, f: map<nat, nat>, bound: Env, gone: set<string>)
    requires BUILTINS !in base && bound.Keys == Own(env, base) && gone == base.Keys - env.Keys
    requires forall n :: n in bound ==> n in env && bound[n] == Rename(f, env[n])
    ensures Reproduces(env, base, f, (base - gone) + bound)
  {
    var env' := (base - gone) + bound;
    forall n | n in env && n != BUILTINS ensures n in env' {
      assert n in bound || IsBaseline(env, base, n);
    }
    assert env'.Keys == env.Keys - {BUILTINS};
  }

  /** Baseline minus deletions plus restored globals is the checkpointed environment. */
  lemma {:induction false} ReplacementReproduces(env: Env, base: Env, f: map<nat, nat>, es: seq<Enc>)
    requires BUILTINS !in base && |es| == |Roots(env, base)|
    ensures Reproduces(env, base, f,
      (base - NameSet(SortedNames(base.Keys - env.Keys)))
      + Bindings(Named(SortedNames(Own(env, base)), es), RenameAll(f, Roots(env, base))))
  {
    BoundNames(env, base, f, es);
    var gone := NameSet(SortedNames(base.Keys - env.Keys));
    assert gone == base.Keys - env.Keys;
    hide Own, Bindings, Reproduces, Named;
    MergedReproduces(env, base, f, Bindings(Named(SortedNames(Own(env, base)), es), RenameAll(f, Roots(env, base))),
      gone);
  }

  /** Checkpointing the restored actor carries the same names and deletions. */
  lemma {:induction false} SameNames(env: Env, base: Env, f: map<nat, nat>, env': Env)
    requires Reproduces(env, base, f, env') && BUILTINS !in base
    requires forall n :: n in base ==> base[n].Foreign?
    requires forall n :: n in Own(env, base) ==> n in env && !env[n].Foreign?
    ensures Own(env', base) == Own(env, base) && base.Keys - env'.Keys == base.Keys - env.Keys
    ensures Roots(env', base) == RenameAll(f, Roots(env, base))
  {
    assert Own(env', base) == Own(env, base);
    hide Own, Roots, SortedNames, Ascending, Reproduces;
    forall i | 0 <= i < |Roots(env, base)| ensures Roots(env', base)[i] == Rename(f, Roots(env, base)[i]) {
      RootAt(env, base, i);
      RootAt(env', base, i);
      ReproducedAt(env, base, f, env', SortedNames(Own(env, base))[i]);
    }
  }

  lemma {:induction false} ReproducedAt(env: Env, base: Env, f: map<nat, nat>, env': Env, n: string)
    requires Reproduces(env, base, f, env') && n in env' && n in Own(env, base)
    ensures env'[n] == Rename(f, env[n])
  {
  }

  lemma {:induction false} RootsValid(h: Heap, env: Env, base: Env, eq: Equality)
    requires GoodActor(h, env, base, eq)
    ensures Closed(h, Roots(env, base)) && GraphTheorems.ValidScalars(Roots(env, base))
  {
    RootsClosed(h, env, base);
    hide Own, Roots, GraphTheorems.GoodHeap;
    forall i | 0 <= i < |Roots(env, base)| && Roots(env, base)[i].Leaf?
      ensures ValidScalar(Roots(env, base)[i].scalar)
    {
      RootAt(env, base, i);
    }
  }

  lemma {:induction false} RootsSupported(h: Heap, env: Env, base: Env)
    requires ClosedHeap(h) && EnvClosed(h, env) && Closed(h, Roots(env, base))
    requires EncodeGraph(h, Roots(env, base)).Some?
    ensures forall n :: n in Own(env, base) ==> n in env && !env[n].Foreign?
  {
    EncodedTable(h, Roots(env, base));
    hide EncodeGraph, Own, Roots;
    forall n | n in Own(env, base) ensures n in env && !env[n].Foreign? {
      var i := RootOf(env, base, n);
    }
  }

  ghost function PayloadOf(env: Env, base: Env, ambient: string, es: seq<Enc>, table: seq<Node>): Payload
    requires |es| == |Roots(env, base)|
  {
    Payload(PROFILE, ambient, Named(SortedNames(Own(env, base)), es), SortedNames(base.Keys - env.Keys), table)
  }

  lemma {:induction false} CheckpointIs(h: Heap, env: Env, base: Env, ambient: string)
    requires ClosedHeap(h) && EnvClosed(h, env) && Checkpoint(h, env, base, ambient).Some?
    ensures Closed(h, Roots(env, base)) && EncodeGraph(h, Roots(env, base)).Some?
    ensures var (es, table) := EncodeGraph(h, Roots(env, base)).value;
      |es| == |Roots(env, base)| && Checkpoint(h, env, base, ambient) == Some(PayloadOf(env, base, ambient, es, table))
  {
    CheckpointDefined(h, env, base, ambient);
    hide EncodeItems, SortedNames;
  }

  lemma {:induction false} NoBadNode(table: seq<Node>, eq: Equality, es: seq<Enc>)
    ensures BadNode in table ==> DecodeGraph(table, eq, es) == Err(Malformed)
  {
  }

  lemma {:induction false} RestoredShape(env: Env, base: Env, ambient: string, eq: Equality, es: seq<Enc>,
                                         table: seq<Node>)
    requires |es| == |Roots(env, base)|
    ensures
      var r := DecodeGraph(table, eq, es);
      Restored(PayloadOf(env, base, ambient, es, table), base, ambient, eq)
      == if r.Err? then Err(Graph(r.error))
         else Ok(((base - NameSet(SortedNames(base.Keys - env.Keys)))
                  + Bindings(Named(SortedNames(Own(env, base)), es), r.value.1), r.value.0))
  {
    NoBuiltins(env, base);
    hide Own, Bindings, DecodeGraph, Named, Encs, SortedNames, Ascending, GoodNames;
    NamesOfNamed(SortedNames(Own(env, base)), es);
    NoBadNode(table, eq, es);
    var gone := SortedNames(base.Keys - env.Keys);
    assert forall i :: 0 <= i < |gone| ==> gone[i] in base.Keys - env.Keys;
  }

  lemma {:induction false} RestoredClosed(h: Heap, env: Env, base: Env, f: map<nat, nat>, env': Env, g: Heap)
    requires Reproduces(env, base, f, env') && Iso(h, g, f) && Covers(f, Roots(env, base))
    requires forall n :: n in base ==> base[n].Foreign?
    ensures EnvClosed(g, env')
  {
    hide Roots, SortedNames, Ascending;
    forall n | n in env' ensures InHeap(g, env'[n]) {
      if n in Own(env, base) {
        var i := RootOf(env, base, n);
      } else {
        assert IsBaseline(env, base, n);
      }
    }
  }

  /** Restoring a checkpoint gives an environment with exactly the checkpointed names, the
      checkpointed values up to a bijection on containers, and the baseline overrides and
      deletions; checkpointing it again gives the identical payload. Only a checkpoint of a
      heap with a cycle of tuples, or of a scope whose bindings are no longer a dict, is refused. */
  lemma {:induction false} RestoreReproduces(h: Heap, env: Env, base: Env, ambient: string, eq: Equality)
    requires GoodActor(h, env, base, eq) && Checkpoint(h, env, base, ambient).Some?
    ensures Checkpoint(h, env, base, "").Some?
    ensures
      var p := Checkpoint(h, env, base, ambient).value;
      var f := Reached(h, env, base);
      var r := Restored(p, base, ambient, eq);
      if GraphTheorems.HeapCycle(h, f.Keys) then r == Err(Graph(TupleCycle))
      else if GraphTheorems.BrokenScope(h, f.Keys) then r == Err(Graph(BadScope))
      else
        && r.Ok?
        && Reproduces(env, base, f, r.value.0)
        && Iso(h, r.value.1, f) && Numbering(f, |r.value.1|)
        && ClosedHeap(r.value.1) && EnvClosed(r.value.1, r.value.0)
        && Checkpoint(r.value.1, r.value.0, base, ambient) == Some(p)
  {
    CheckpointDefined(h, env, base, ambient);
    RootsValid(h, env, base, eq);
    var roots := Roots(env, base);
    var (es, table) := EncodeGraph(h, roots).value;
    var f := MemoOf(h, roots);
    CheckpointIs(h, env, base, ambient);
    GraphTheorems.RoundTrip(h, eq, roots);
    RestoredShape(env, base, ambient, eq, es, table);
    var r := DecodeGraph(table, eq, es);
    hide Restored, DecodeGraph, EncodeGraph, Bindings, Named, Own, MemoOf;
    if r.Ok? {
      RestoredAgain(h, env, base, ambient, r.value.0, f, es, table);
    }
  }

  lemma {:induction false} RestoredAgain(h: Heap, env: Env, base: Env, ambient: string, g: Heap, f: map<nat, nat>,
                                         es: seq<Enc>, table: seq<Node>)
    requires ClosedHeap(h) && EnvClosed(h, env) && Closed(h, Roots(env, base))
    requires BUILTINS !in base && forall n :: n in base ==> base[n].Foreign?
    requires EncodeGraph(h, Roots(env, base)) == Some((es, table)) && |es| == |Roots(env, base)|
    requires ClosedHeap(g) && Iso(h, g, f) && Covers(f, Roots(env, base))
    requires Closed(g, RenameAll(f, Roots(env, base)))
    ensures
      var env' := (base - NameSet(SortedNames(base.Keys - env.Keys)))
                  + Bindings(Named(SortedNames(Own(env, base)), es), RenameAll(f, Roots(env, base)));
      && Reproduces(env, base, f, env') && EnvClosed(g, env')
      && Checkpoint(g, env', base, ambient) == Some(PayloadOf(env, base, ambient, es, table))
  {
    var roots := Roots(env, base);
    var env' := (base - NameSet(SortedNames(base.Keys - env.Keys)))
                + Bindings(Named(SortedNames(Own(env, base)), es), RenameAll(f, roots));
    ReplacementReproduces(env, base, f, es);
    RootsSupported(h, env, base);
    hide EncodeGraph, Bindings, Reproduces, Iso, Own;
    RestoredClosed(h, env, base, f, env', g);
    SameNames(env, base, f, env');
    CanonicalForm(h, g, f, roots);
    CheckpointDefined(g, env', base, ambient);
  }

  // ------------------------------------------------------------ the actor itself

  /** The names among the first `k` that the checkpoint carries, still in order. */
  ghost predicate Kept(kept: seq<string>, names: seq<string>, k: nat, env: Env, base: Env)
    requires k <= |names|
  {
    Ascending(kept, CodePoints) && forall n :: n in kept <==> n in names[..k] && n in Own(env, base)
  }

  lemma {:induction false} KeptNone(names: seq<string>, env: Env, base: Env)
    ensures Kept([], names, 0, env, base)
  {
  }

  lemma {:induction false} KeptStep(kept: seq<string>, names: seq<string>, k: nat, env: Env, base: Env)
    requires Ascending(names, CodePoints) && k < |names| && names[k] in env && Kept(kept, names, k, env, base)
    ensures Kept(if names[k] in Own(env, base) then kept + [names[k]] else kept, names, k + 1, env, base)
    ensures names[k] in Own(env, base) <==> names[k] != BUILTINS && !IsBaseline(env, base, names[k])
  {
    assert names[..k + 1] == names[..k] + [names[k]];
    if names[k] in Own(env, base) { AscendingSnoc(kept, names, k); }
    hide Ascending;
  }

  lemma {:induction false} KeptAll(kept: seq<string>, names: seq<string>, env: Env, base: Env)
    requires names == SortedNames(env.Keys) && Kept(kept, names, |names|, env, base)
    ensures kept == SortedNames(Own(env, base))
  {
    hide SortedNames, Ascending;
    assert names[..|names|] == names;
    AscendingSameNames(kept, SortedNames(Own(env, base)));
  }

  lemma {:induction false} AscendingSnoc(kept: seq<string>, names: seq<string>, k: nat)
    requires Ascending(names, CodePoints) && k < |names|
    requires Ascending(kept, CodePoints) && forall n :: n in kept ==> n in names[..k]
    ensures Ascending(kept + [names[k]], CodePoints)
  {
    hide LexLt;
    forall n | n in kept ensures LexLt(CodePoints(n), CodePoints(names[k])) {
      var i :| 0 <= i < k && names[i] == n;
    }
  }

  lemma {:induction false} RestoredValid(p: Payload, base: Env, ambient: string, eq: Equality)
    requires Restored(p, base, ambient, eq).Ok? && forall n :: n in base ==> !base[n].Ref?
    ensures var (env, h) := Restored(p, base, ambient, eq).value; ClosedHeap(h) && EnvClosed(h, env)
  {
    var r := DecodeGraph(p.nodes, eq, Encs(p.globals));
    DecodedClosed(p.nodes, eq, Encs(p.globals));
    hide DecodeGraph;
    BindingsFrom(p.globals, r.value.1, r.value.0);
  }

  lemma {:induction false} BindingsFrom(gs: seq<Global>, vs: seq<Value>, h: Heap)
    requires |gs| == |vs| && Closed(h, vs)
    ensures EnvClosed(h, Bindings(gs, vs))
  {
    if gs != [] { BindingsFrom(gs[..|gs| - 1], vs[..|vs| - 1], h); }
  }

  lemma {:induction false} NothingRemoved(base: Env, names: seq<string>)
    ensures base - NameSet(names[..0]) == base
  {
  }

  lemma {:induction false} OneRemoved(base: Env, names: seq<string>, k: nat)
    requires k < |names|
    ensures base - NameSet(names[..k + 1]) == base - NameSet(names[..k]) - {names[k]}
  {
    assert names[..k + 1] == names[..k] + [names[k]];
  }

  /** The module-level state of python_shim.py: `env`, and the containers it refers to. */
  class PythonActor {
    const base: Env
    const ambient: string
    var env: Env
    var heap: Heap

    ghost predicate Valid()
      reads this
    {
      && ClosedHeap(heap) && EnvClosed(heap, env)
      && forall n :: n in base ==> !base[n].Ref?
    }

    constructor (base: Env, ambient: string)
      requires forall n :: n in base ==> !base[n].Ref?
      ensures Valid() && this.base == base && this.ambient == ambient && env == base && heap == []
    {
      this.base, this.ambient := base, ambient;
      env, heap := base, [];
    }

    /** `_user_globals_are_clean`. */
    method UserGlobalsAreClean() returns (clean: bool)
      ensures clean == Clean(env, base)
    {
      var todo := env.Keys;
      while todo != {}
        invariant todo <= env.Keys
        invariant forall n :: n in env && n !in todo && n != BUILTINS ==> IsBaseline(env, base, n)
        decreases todo
      {
        var n :| n in todo;
        if n != BUILTINS && !IsBaseline(env, base, n) { return false; }
        todo := todo - {n};
      }
      todo := base.Keys;
      while todo != {}
        invariant todo <= base.Keys
        invariant forall n :: n in base && n !in todo ==> n in env && env[n] == base[n]
        decreases todo
      {
        var n :| n in todo;
        if n !in env || env[n] != base[n] { return false; }
        todo := todo - {n};
      }
      clean := true;
    }

    /** The names `_encode_python_globals` does not skip, in order. */
    method KeptNames() returns (kept: seq<string>)
      ensures kept == SortedNames(Own(env, base))
      ensures forall i, j :: 0 <= i < j < |kept| ==> Precedes(kept[i], kept[j])
    {
      hide SortedNames, Kept;
      var names := SortNames(env.Keys);
      kept := [];
      var k := 0;
      KeptNone(names, env, base);
      while k < |names|
        invariant 0 <= k <= |names| && Kept(kept, names, k, env, base)
      {
        assert names[k] in env.Keys;
        KeptStep(kept, names, k, env, base);
        if names[k] != BUILTINS && !IsBaseline(env, base, names[k]) { kept := kept + [names[k]]; }
        k := k + 1;
      }
      KeptAll(kept, names, env, base);
      forall i, j | 0 <= i < j < |kept| ensures Precedes(kept[i], kept[j]) {
        NamesInOrder(Own(env, base), i, j);
      }
    }

    /** `_encode_python_globals`: encode what is not skipped with one encoder, in name order. */
    method EncodeGlobals() returns (p: Option<Payload>)
      requires Valid()
      ensures p == Checkpoint(heap, env, base, ambient)
    {
      hide SortedNames, Ascending, EncodeItems;
      var kept := KeptNames();
      RootsClosed(heap, env, base);
      var encoder := new GraphCodec.Encoder(heap);
      var items := encoder.EncodeAll(Lookup(env, kept));
      if items.None? { return None; }
      var deleted := SortNames(base.Keys - env.Keys);
      p := Some(Payload(PROFILE, ambient, Named(kept, items.value), deleted, Written(encoder.nodes)));
    }

    /** `handle_restore`, once the envelope has been validated: the environment is replaced
        as a whole or left exactly as it was. */
    method Restore(p: Payload, eq: Equality) returns (refusal: Option<Refusal>)
      requires Valid()
      modifies this
      ensures Valid()
      ensures refusal.Some? ==> env == old(env) && heap == old(heap)
      ensures refusal.None? <==> Clean(old(env), base) && Restored(p, base, ambient, eq).Ok?
      ensures refusal.None? ==> (env, heap) == Restored(p, base, ambient, eq).value
      ensures !Clean(old(env), base) ==> refusal == Some(RestoreConflict)
      ensures Clean(old(env), base) && refusal.Some? ==> Restored(p, base, ambient, eq) == Err(refusal.value)
      ensures refusal.None? <==> Clean(old(env), base) && Restorable(p, base, ambient)
      ensures refusal.None? ==> RestoredTo(p, base, eq, env, heap)
    {
      hide Restored, Clean, EnvClosed, ClosedHeap, Restorable, RestoredTo, RefusedFor;
      RestoredExactly(p, base, ambient, eq);
      var clean := UserGlobalsAreClean();
      if !clean { return Some(RestoreConflict); }
      var r := DecodeGlobals(p, eq);
      if r.Err? { return Some(r.error); }
      var (restored, objects) := r.value;
      var replacement := base;
      var k := 0;
      NothingRemoved(base, p.deleted);
      while k < |p.deleted|
        invariant 0 <= k <= |p.deleted|
        invariant replacement == base - NameSet(p.deleted[..k])
      {
        OneRemoved(base, p.deleted, k);
        replacement := replacement - {p.deleted[k]};
        k := k + 1;
      }
      assert p.deleted[..k] == p.deleted;
      RestoredValid(p, base, ambient, eq);
      env := replacement + restored;
      heap := objects;
      refusal := None;
    }

    /** `_decode_python_globals`, with the rebuilt containers. */
    method DecodeGlobals(p: Payload, eq: Equality) returns (r: Result<(Env, Heap), Refusal>)
      ensures r.Ok? <==> Restored(p, base, ambient, eq).Ok?
      ensures r.Ok? ==>
        Restored(p, base, ambient, eq).value == ((base - NameSet(p.deleted)) + r.value.0, r.value.1)
      ensures r.Err? ==> Restored(p, base, ambient, eq) == Err(r.error)
    {
      hide BuildFrom, FillFrom;
      if p.profile != PROFILE { return Err(WrongProfile); }
      if p.ambient != ambient { return Err(WrongAmbient); }
      if BadNode in p.nodes { return Err(Graph(Malformed)); }
      var decoder := new GraphCodec.Decoder(p.nodes);
      if !GoodNames(p.globals) { return Err(BadGlobals); }
      var error := decoder.Finish(eq);
      if error.Some? { return Err(Graph(error.value)); }
      if !AllReadable(p.nodes, Encs(p.globals)) { return Err(Graph(Malformed)); }
      if exists i :: 0 <= i < |p.deleted| && p.deleted[i] !in base { return Err(BadDeleted); }
      var objects := decoder.objects;
      var heap: Heap := seq(|objects|, j requires 0 <= j < |objects| =>
        if objects[j].Some? then objects[j].value else Obj(List, [], []));
      assert heap == FillFrom(p.nodes, eq, 0, []).value;
      r := Ok((Bindings(p.globals, Values(p.nodes, Encs(p.globals))), heap));
    }
  }
}
