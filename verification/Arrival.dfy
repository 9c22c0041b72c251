/** What an actor is after one trip over the wire. The only content the trip changes is that
    of opaque wire values: their dicts arrive in wire order and their byte strings as lists. */
module Arrival {
  import opened Wrappers
  import opened Ordering
  import opened PyHeap
  import opened GraphEncoder
  import opened GraphDecoder
  import GraphTheorems
  import Actor
  import C = Cbor
  import CborTheorems

  // ------------------------------------------------------------ what arrives

  function ArrivedScalar(s: Scalar): Scalar { if s.Opaque? then Opaque(C.Norm(s.wire)) else s }

  function ArrivedValue(v: Value): Value { if v.Leaf? then Leaf(ArrivedScalar(v.scalar)) else v }

  function ArrivedValues(vs: seq<Value>): (r: seq<Value>)
    ensures |r| == |vs| && forall i :: 0 <= i < |vs| ==> r[i] == ArrivedValue(vs[i])
  {
    seq(|vs|, i requires 0 <= i < |vs| => ArrivedValue(vs[i]))
  }

  function ArrivedObj(o: Obj): Obj { Obj(o.kind, ArrivedValues(o.items), o.data) }

  function ArrivedHeap(h: Heap): (r: Heap)
    ensures |r| == |h| && forall i :: 0 <= i < |h| ==> r[i] == ArrivedObj(h[i])
  {
    seq(|h|, i requires 0 <= i < |h| => ArrivedObj(h[i]))
  }

  function ArrivedEnv(env: Actor.Env): (r: Actor.Env)
    ensures r.Keys == env.Keys
  {
    map n | n in env :: ArrivedValue(env[n])
  }

  function ArrivedEnc(e: Enc): Enc
  {
    if e.Plain? && e.code.Copied? then Plain(Copied(ArrivedScalar(e.code.scalar))) else e
  }

  function ArrivedEncs(es: seq<Enc>): (r: seq<Enc>)
    ensures |r| == |es| && forall i :: 0 <= i < |es| ==> r[i] == ArrivedEnc(es[i])
  {
    seq(|es|, i requires 0 <= i < |es| => ArrivedEnc(es[i]))
  }

  function ArrivedNode(n: Node): Node { if n.BadNode? then n else Node(n.kind, ArrivedEncs(n.items), n.data) }

  function ArrivedNodes(ns: seq<Node>): (r: seq<Node>)
    ensures |r| == |ns| && forall i :: 0 <= i < |ns| ==> r[i] == ArrivedNode(ns[i])
  {
    seq(|ns|, i requires 0 <= i < |ns| => ArrivedNode(ns[i]))
  }

  function ArrivedGlobals(gs: seq<Actor.Global>): (r: seq<Actor.Global>)
    ensures |r| == |gs|
    ensures forall i :: 0 <= i < |gs| ==> r[i] == Actor.Global(gs[i].name, ArrivedEnc(gs[i].value))
  {
    seq(|gs|, i requires 0 <= i < |gs| => Actor.Global(gs[i].name, ArrivedEnc(gs[i].value)))
  }

  function ArrivedPayload(p: Actor.Payload): Actor.Payload
  {
    Actor.Payload(p.profile, p.ambient, ArrivedGlobals(p.globals), p.deleted, ArrivedNodes(p.nodes))
  }

  // ------------------------------------------ encoding what arrived, step by step

  function ArrivedState(st: State): (r: State)
    ensures |r.nodes| == |st.nodes| && r.memo == st.memo
  {
    State(seq(|st.nodes|, i requires 0 <= i < |st.nodes| =>
            if st.nodes[i].None? then None else Some(ArrivedNode(st.nodes[i].value))), st.memo)
  }

  lemma {:induction false} ArrivedClosed(h: Heap)
    requires ClosedHeap(h)
    ensures ClosedHeap(ArrivedHeap(h))
    ensures forall vs :: Closed(h, vs) ==> Closed(ArrivedHeap(h), ArrivedValues(vs))
    ensures forall v :: InHeap(h, v) ==> InHeap(ArrivedHeap(h), ArrivedValue(v))
  {
    var g := ArrivedHeap(h);
    forall vs | Closed(h, vs) ensures Closed(g, ArrivedValues(vs)) {
      forall i | 0 <= i < |vs| ensures InHeap(g, ArrivedValues(vs)[i]) { assert InHeap(h, vs[i]); }
    }
    forall i | 0 <= i < |g| ensures Closed(g, g[i].items) { assert Closed(h, h[i].items); }
  }

  /** The encoder takes the same steps on the arrived heap, and writes the arrived records. */
  lemma {:induction false} EncodeArrivedValue(h: Heap, v: Value, st: State)
    requires ClosedHeap(h) && InHeap(h, v) && ClosedHeap(ArrivedHeap(h)) && InHeap(ArrivedHeap(h), ArrivedValue(v))
    ensures
      var a := EncodeValue(h, v, st);
      EncodeValue(ArrivedHeap(h), ArrivedValue(v), ArrivedState(st))
      == if a.None? then None else Some((ArrivedEnc(a.value.0), ArrivedState(a.value.1)))
    decreases Unseen(h, st.memo), 0, 0
  {
    hide EncodeItems;
    if v.Ref? && v.id !in st.memo {
      var i := v.id;
      assert i in Unseen(h, st.memo) && i !in Unseen(h, Enter(st, i).memo);
      ArrivedEnter(st, i);
      EncodeArrivedItems(h, h[i].items, Enter(st, i));
      var inner := EncodeItems(h, h[i].items, Enter(st, i));
      if inner.Some? { ArrivedLeave(inner.value.1, |st.nodes|, Node(h[i].kind, inner.value.0, h[i].data)); }
    }
  }

  lemma {:induction false} ArrivedEnter(st: State, i: nat)
    ensures ArrivedState(Enter(st, i)) == Enter(ArrivedState(st), i)
  {
    assert ArrivedState(Enter(st, i)).nodes == Enter(ArrivedState(st), i).nodes;
  }

  lemma {:induction false} ArrivedLeave(st: State, id: nat, n: Node)
    requires id < |st.nodes|
    ensures ArrivedState(st.(nodes := st.nodes[id := Some(n)]))
         == ArrivedState(st).(nodes := ArrivedState(st).nodes[id := Some(ArrivedNode(n))])
  {
    assert ArrivedState(st.(nodes := st.nodes[id := Some(n)])).nodes
        == ArrivedState(st).nodes[id := Some(ArrivedNode(n))];
  }

  lemma {:induction false} EncodeArrivedItems(h: Heap, vs: seq<Value>, st: State)
    requires ClosedHeap(h) && Closed(h, vs) && ClosedHeap(ArrivedHeap(h)) && Closed(ArrivedHeap(h), ArrivedValues(vs))
    ensures
      var a := EncodeItems(h, vs, st);
      EncodeItems(ArrivedHeap(h), ArrivedValues(vs), ArrivedState(st))
      == if a.None? then None else Some((ArrivedEncs(a.value.0), ArrivedState(a.value.1)))
    decreases Unseen(h, st.memo), 1, |vs|
  {
    hide EncodeValue, ArrivedState, ArrivedValue, ArrivedHeap, ArrivedEnc;
    if vs != [] {
      assert ArrivedValues(vs)[1..] == ArrivedValues(vs[1..]);
      EncodeArrivedValue(h, vs[0], st);
      var first := EncodeValue(h, vs[0], st);
      if first.Some? {
        var st1 := first.value.1;
        assert Unseen(h, st1.memo) <= Unseen(h, st.memo);
        EncodeArrivedItems(h, vs[1..], st1);
        var rest := EncodeItems(h, vs[1..], st1);
        if rest.Some? {
          assert ArrivedEncs([first.value.0] + rest.value.0) == [ArrivedEnc(first.value.0)] + ArrivedEncs(rest.value.0);
        }
      }
    } else {
      assert ArrivedEncs([]) == [];
    }
  }

  lemma {:induction false} EncodeArrivedGraph(h: Heap, roots: seq<Value>)
    requires ClosedHeap(h) && Closed(h, roots) && ClosedHeap(ArrivedHeap(h))
    requires Closed(ArrivedHeap(h), ArrivedValues(roots))
    ensures
      var a := EncodeGraph(h, roots);
      var b := EncodeGraph(ArrivedHeap(h), ArrivedValues(roots));
      && b == (if a.None? then None else Some((ArrivedEncs(a.value.0), ArrivedNodes(a.value.1))))
      && (a.Some? ==> MemoOf(ArrivedHeap(h), ArrivedValues(roots)) == MemoOf(h, roots))
  {
    hide EncodeItems, ArrivedHeap, ArrivedValues, ArrivedEncs;
    assert ArrivedState(Fresh) == Fresh;
    EncodeArrivedItems(h, roots, Fresh);
    var a := EncodeItems(h, roots, Fresh);
    if a.Some? {
      assert Written(ArrivedState(a.value.1).nodes) == ArrivedNodes(Written(a.value.1.nodes));
    }
  }

  // ------------------------------------------------------ the arrived actor

  lemma {:induction false} ArrivedRoots(env: Actor.Env, base: Actor.Env)
    requires forall n :: n in base ==> base[n].Foreign?
    ensures Actor.Own(ArrivedEnv(env), base) == Actor.Own(env, base)
    ensures Actor.Roots(ArrivedEnv(env), base) == ArrivedValues(Actor.Roots(env, base))
    ensures base.Keys - ArrivedEnv(env).Keys == base.Keys - env.Keys
  {
    hide SortedNames;
    assert Actor.Own(ArrivedEnv(env), base) == Actor.Own(env, base);
  }

  /** Checkpointing the arrived actor gives the arrived payload, with the same numbering. */
  lemma {:induction false} CheckpointArrived(h: Heap, env: Actor.Env, base: Actor.Env, ambient: string,
                                             p: Actor.Payload)
    requires ClosedHeap(h) && Actor.EnvClosed(h, env) && forall n :: n in base ==> base[n].Foreign?
    requires Actor.Checkpoint(h, env, base, ambient) == Some(p)
    ensures ClosedHeap(ArrivedHeap(h)) && Actor.EnvClosed(ArrivedHeap(h), ArrivedEnv(env))
    ensures Actor.Checkpoint(ArrivedHeap(h), ArrivedEnv(env), base, ambient) == Some(ArrivedPayload(p))
    ensures Actor.Checkpoint(h, env, base, "").Some?
    ensures Actor.Checkpoint(ArrivedHeap(h), ArrivedEnv(env), base, "").Some?
    ensures Actor.Reached(ArrivedHeap(h), ArrivedEnv(env), base) == Actor.Reached(h, env, base)
  {
    hide Actor.Checkpoint, EncodeGraph, MemoOf, Actor.Own, SortedNames, Ascending, Actor.Roots, Actor.Reached,
         ArrivedHeap;
    var roots := Actor.Roots(env, base);
    ArrivedClosed(h);
    assert Actor.EnvClosed(ArrivedHeap(h), ArrivedEnv(env));
    ArrivedRoots(env, base);
    Actor.CheckpointIs(h, env, base, ambient);
    Actor.CheckpointDefined(h, env, base, ambient);
    EncodeArrivedGraph(h, roots);
    Actor.CheckpointDefined(ArrivedHeap(h), ArrivedEnv(env), base, ambient);
    Actor.CheckpointIs(ArrivedHeap(h), ArrivedEnv(env), base, ambient);
    var es := EncodeGraph(h, roots).value.0;
    var names := SortedNames(Actor.Own(env, base));
    assert Actor.Named(names, ArrivedEncs(es)) == ArrivedGlobals(Actor.Named(names, es));
  }

  // ------------------------------------------------ it is an actor like any other

  /** Opaque values are compared by identity, and each record decodes to a new object. */
  ghost predicate OpaqueApart(eq: Equality)
  {
    forall wire: C.Value, s: Scalar :: !eq(Opaque(wire), s) && !eq(s, Opaque(wire))
  }

  lemma {:induction false} ArrivedHashable(h: Heap, n: nat, v: Value)
    requires ClosedHeap(h) && InHeap(h, v) && ClosedHeap(ArrivedHeap(h)) && InHeap(ArrivedHeap(h), ArrivedValue(v))
    ensures UnhashableWithin(ArrivedHeap(h), n, ArrivedValue(v)) == UnhashableWithin(h, n, v)
    decreases n
  {
    if n > 0 && v.Ref? && h[v.id].kind == Tuple {
      var items := h[v.id].items;
      forall i | 0 <= i < |items|
        ensures UnhashableWithin(ArrivedHeap(h), n - 1, ArrivedHeap(h)[v.id].items[i]) ==
          UnhashableWithin(h, n - 1, items[i])
      {
        ArrivedHashable(h, n - 1, items[i]);
      }
    }
  }

  lemma {:induction false} ArrivedEqual(h: Heap, eq: Equality, n: nat, a: Value, b: Value)
    requires OpaqueApart(eq) && ClosedHeap(h) && InHeap(h, a) && InHeap(h, b) && ClosedHeap(ArrivedHeap(h))
    requires InHeap(ArrivedHeap(h), ArrivedValue(a)) && InHeap(ArrivedHeap(h), ArrivedValue(b))
    ensures EqualWithin(ArrivedHeap(h), eq, n, ArrivedValue(a), ArrivedValue(b)) == EqualWithin(h, eq, n, a, b)
    decreases n
  {
    if a.Ref? && b.Ref? && a.id != b.id && n > 0 && |h[a.id].items| == |h[b.id].items| {
      var x, y := h[a.id].items, h[b.id].items;
      forall i | 0 <= i < |x|
        ensures EqualWithin(ArrivedHeap(h), eq, n - 1, ArrivedHeap(h)[a.id].items[i], ArrivedHeap(h)[b.id].items[i])
             == EqualWithin(h, eq, n - 1, x[i], y[i])
      {
        ArrivedEqual(h, eq, n - 1, x[i], y[i]);
      }
    }
  }

  lemma {:induction false} ArrivedValid(s: Scalar)
    requires ValidScalar(s)
    ensures ValidScalar(ArrivedScalar(s))
  {
    if s.Opaque? {
      hide C.Norm;
      var es := s.wire.entries;
      var i :| 0 <= i < |es| && es[i].key == "t";
      var r := NormalKey(es, i);
    }
  }

  lemma {:induction false} NormalKey(es: seq<C.Entry>, i: nat) returns (j: nat)
    requires i < |es|
    ensures var r := C.Norm(C.Map(es)); r.Map? && j < |r.entries| && r.entries[j].key == es[i].key
  {
    var n := C.NormEntries(es);
    var s := Sort(n, C.EntryKey);
    CborTheorems.NormOfMap(es);
    hide Sort, C.NormEntries, C.Norm;
    assert n[i] in multiset(n) && multiset(n) == multiset(s);
    j :| 0 <= j < |s| && s[j] == n[i];
  }

  lemma {:induction false} ArrivedKeys(h: Heap, eq: Equality, items: seq<Value>)
    requires OpaqueApart(eq) && ClosedHeap(h) && Closed(h, items) && GraphTheorems.GoodKeys(h, eq, items)
    requires ClosedHeap(ArrivedHeap(h)) && Closed(ArrivedHeap(h), ArrivedValues(items))
    ensures GraphTheorems.GoodKeys(ArrivedHeap(h), eq, ArrivedValues(items))
  {
    hide ArrivedHeap, UnhashableWithin, EqualWithin, OpaqueApart;
    var g, vs := ArrivedHeap(h), ArrivedValues(items);
    forall n: nat, i | 0 <= i < |vs| && i % 2 == 0 ensures !UnhashableWithin(g, n, vs[i]) {
      ArrivedHashable(h, n, items[i]);
    }
    forall n: nat, i, j | 0 <= i < j < |vs| && i % 2 == 0 && j % 2 == 0 ensures !EqualWithin(g, eq, n, vs[i], vs[j]) {
      ArrivedEqual(h, eq, n, items[i], items[j]);
    }
  }

  lemma {:induction false} ArrivedObject(h: Heap, eq: Equality, o: Obj)
    requires OpaqueApart(eq) && ClosedHeap(h) && Closed(h, o.items) && GraphTheorems.GoodObject(h, eq, o)
    requires ClosedHeap(ArrivedHeap(h)) && Closed(ArrivedHeap(h), ArrivedObj(o).items)
    ensures GraphTheorems.GoodObject(ArrivedHeap(h), eq, ArrivedObj(o))
  {
    hide GraphTheorems.GoodKeys, ValidScalar, OpaqueApart;
    forall i | 0 <= i < |o.items| && o.items[i].Leaf? ensures ValidScalar(ArrivedValue(o.items[i]).scalar) {
      ArrivedValid(o.items[i].scalar);
    }
    if o.kind == Dict { ArrivedKeys(h, eq, o.items); }
  }

  lemma {:induction false} ArrivedActor(h: Heap, env: Actor.Env, base: Actor.Env, eq: Equality)
    requires OpaqueApart(eq) && Actor.GoodActor(h, env, base, eq)
    ensures Actor.GoodActor(ArrivedHeap(h), ArrivedEnv(env), base, eq)
  {
    hide GraphTheorems.GoodObject, ValidScalar, OpaqueApart;
    ArrivedClosed(h);
    forall i | 0 <= i < |h| ensures GraphTheorems.GoodObject(ArrivedHeap(h), eq, ArrivedHeap(h)[i]) {
      ArrivedObject(h, eq, h[i]);
    }
    forall n | n in env && ArrivedEnv(env)[n].Leaf? ensures ValidScalar(ArrivedEnv(env)[n].scalar) {
      ArrivedValid(env[n].scalar);
    }
  }

  /** Tuples of the arrived heap lie in a cycle exactly when they did before. */
  lemma {:induction false} ArrivedCycle(h: Heap, s: set<nat>)
    ensures GraphTheorems.HeapCycle(ArrivedHeap(h), s) <==> GraphTheorems.HeapCycle(h, s)
  {
    forall p: seq<nat> ensures GraphTheorems.HeapPath(ArrivedHeap(h), s, p) <==> GraphTheorems.HeapPath(h, s, p) {
      ArrivedPath(h, s, p);
    }
  }

  /** A scope of the arrived heap holds dicts exactly when it did before. */
  lemma {:induction false} ArrivedScopes(h: Heap, s: set<nat>)
    ensures GraphTheorems.BrokenScope(ArrivedHeap(h), s) <==> GraphTheorems.BrokenScope(h, s)
  {
    forall i | 0 <= i < |h|
      ensures GraphTheorems.ScopeHoldsDicts(ArrivedHeap(h), ArrivedHeap(h)[i]) <==>
        GraphTheorems.ScopeHoldsDicts(h, h[i])
    {
      ArrivedScope(h, h[i]);
    }
  }

  lemma {:induction false} ArrivedScope(h: Heap, o: Obj)
    ensures GraphTheorems.ScopeHoldsDicts(ArrivedHeap(h), ArrivedObj(o)) <==> GraphTheorems.ScopeHoldsDicts(h, o)
  {
  }

  lemma {:induction false} ArrivedPath(h: Heap, s: set<nat>, p: seq<nat>)
    ensures GraphTheorems.HeapPath(ArrivedHeap(h), s, p) <==> GraphTheorems.HeapPath(h, s, p)
  {
    forall i, j: nat | 0 <= i < |h| ensures Ref(j) in ArrivedHeap(h)[i].items <==> Ref(j) in h[i].items {
      ArrivedRefs(h[i].items, j);
    }
  }

  lemma {:induction false} ArrivedRefs(vs: seq<Value>, j: nat)
    ensures Ref(j) in ArrivedValues(vs) <==> Ref(j) in vs
  {
    if Ref(j) in vs {
      var i :| 0 <= i < |vs| && vs[i] == Ref(j);
      assert ArrivedValues(vs)[i] == Ref(j);
    }
    if Ref(j) in ArrivedValues(vs) {
      var i :| 0 <= i < |vs| && ArrivedValues(vs)[i] == Ref(j);
      assert vs[i] == Ref(j);
    }
  }
}
