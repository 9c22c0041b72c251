/** `_lossless_native_witness` itself: a recursion that fills one set of identities. */
module NativeWitness {
  import opened Wrappers
  import opened PyHeap
  import opened PlainData
  import C = Cbor

  /** The witness and the identities met, as the observed tree and set say. */
  predicate Matches(observed: Option<(Tree, set<nat>)>, r: Option<C.Value>, seen: set<nat>)
  {
    match observed
    case None => r == None
    case Some((tree, met)) => r == Some(WireOf(tree)) && seen == met
  }

  predicate MatchesAll(observed: Option<(seq<Tree>, set<nat>)>, r: Option<seq<C.Value>>, seen: set<nat>)
  {
    match observed
    case None => r == None
    case Some((trees, met)) => r == Some(WireItems(trees)) && seen == met
  }

  function WrapPairs(o: Obj, ws: seq<C.Value>): (r: seq<C.Entry>)
    requires o.kind == Dict && Children(o).Some? && |ws| == |Children(o).value|
    ensures |r| == |ws| && forall i :: 0 <= i < |r| ==> r[i] == C.Entry(o.items[2 * i].scalar.s, ws[i])
  {
    seq(|ws|, i requires 0 <= i < |ws| => C.Entry(o.items[2 * i].scalar.s, ws[i]))
  }

  /** The record of a container whose children have these witnesses. */
  function Wrap(o: Obj, ws: seq<C.Value>): C.Value
    requires Children(o).Some? && |ws| == |Children(o).value|
  {
    if o.kind == List then Tagged("list", C.List(ws)) else Tagged("map", C.Map(WrapPairs(o, ws)))
  }

  lemma {:induction false} WrapIs(o: Obj, ts: seq<Tree>)
    requires Children(o).Some? && |ts| == |Children(o).value|
    ensures Wrap(o, WireItems(ts)) == WireOf(Rebuild(o, ts))
  {
    hide WireItems, WirePairs, WrapPairs, Tagged;
    if o.kind != List {
      var a, b := WrapPairs(o, WireItems(ts)), WirePairs(Rebuild(o, ts).entries);
      assert |a| == |b| && forall i :: 0 <= i < |a| ==> a[i] == b[i];
      assert a == b;
    }
  }

  lemma {:induction false} KidsClosed(h: Heap, i: nat)
    requires ClosedHeap(h) && i < |h| && Children(h[i]).Some?
    ensures Closed(h, Children(h[i]).value)
  {
    assert forall k :: 0 <= k < |Children(h[i]).value| ==> Children(h[i]).value[k] in h[i].items;
  }

  lemma {:induction false} ObserveStep(h: Heap, v: Value, seen: set<nat>, d: nat)
    requires ClosedHeap(h) && InHeap(h, v) && d <= MAX_DEPTH && v.Ref?
    ensures var o := h[v.id];
      if (o.kind != List && o.kind != Dict) || v.id in seen || Children(o).None? then Observe(h, v, seen, d) == None
      else
        && Closed(h, Children(o).value)
        && var r := ObserveAll(h, Children(o).value, seen + {v.id}, d + 1);
        Observe(h, v, seen, d) == if r.None? then None else Some((Rebuild(o, r.value.0), r.value.1))
  {
    hide ObserveAll, Rebuild, Children;
    if Children(h[v.id]).Some? { KidsClosed(h, v.id); }
  }

  lemma {:induction false} ObserveNext(h: Heap, vs: seq<Value>, k: nat, seen: set<nat>, d: nat)
    requires ClosedHeap(h) && Closed(h, vs) && d <= MAX_DEPTH + 1 && k < |vs|
    ensures Closed(h, vs[k..]) && Closed(h, vs[k + 1..])
    ensures var first := Observe(h, vs[k], seen, d);
      ObserveAll(h, vs[k..], seen, d) ==
        if first.None? then None
        else
          var rest := ObserveAll(h, vs[k + 1..], first.value.1, d);
          if rest.None? then None else Some(([first.value.0] + rest.value.0, rest.value.1))
  {
    hide Observe;
    assert vs[k..][0] == vs[k] && vs[k..][1..] == vs[k + 1..];
  }

  function Prefixed(ts: seq<Tree>, r: Option<(seq<Tree>, set<nat>)>): Option<(seq<Tree>, set<nat>)>
  {
    if r.None? then None else Some((ts + r.value.0, r.value.1))
  }

  class Witness {
    var seen: set<nat>

    constructor ()
      ensures seen == {}
    {
      seen := {};
    }

    method Observed(h: Heap, v: Value, depth: nat) returns (r: Option<C.Value>)
      requires ClosedHeap(h) && InHeap(h, v)
      modifies this
      ensures Matches(Observe(h, v, old(seen), depth), r, seen)
      decreases MAX_DEPTH + 1 - depth, 0
    {
      hide ObserveAll, Rebuild, WireItems, Children;
      if depth > MAX_DEPTH { return None; }
      match v {
        case Foreign(_) => return None;
        case Leaf(s) => {
          var leaf := LeafTree(s);
          if leaf.None? { return None; }
          r := Some(WireOf(leaf.value));
        }
        case Ref(id) => {
          ObserveStep(h, v, seen, depth);
          var o := h[id];
          if (o.kind != List && o.kind != Dict) || id in seen { return None; }
          seen := seen + {id};
          var kids := Children(o);
          if kids.None? { return None; }
          ghost var found := ObserveAll(h, kids.value, seen, depth + 1);
          var ws := ObservedAll(h, kids.value, depth + 1);
          if ws.None? { return None; }
          WrapIs(o, found.value.0);
          r := Some(Wrap(o, ws.value));
        }
      }
    }

    method ObservedAll(h: Heap, vs: seq<Value>, depth: nat) returns (r: Option<seq<C.Value>>)
      requires ClosedHeap(h) && Closed(h, vs) && depth <= MAX_DEPTH + 1
      modifies this
      ensures MatchesAll(ObserveAll(h, vs, old(seen), depth), r, seen)
      decreases MAX_DEPTH + 1 - depth, 1
    {
      hide Observe, ObserveAll, WireOf;
      ghost var expected := ObserveAll(h, vs, seen, depth);
      ghost var trees: seq<Tree> := [];
      var ws: seq<C.Value>, k := [], 0;
      assert vs[0..] == vs;
      PrefixNothing(expected);
      while k < |vs|
        invariant 0 <= k <= |vs| && Closed(h, vs[k..])
        invariant ws == WireItems(trees) && expected == Prefixed(trees, ObserveAll(h, vs[k..], seen, depth))
      {
        ObserveNext(h, vs, k, seen, depth);
        ghost var first := Observe(h, vs[k], seen, depth);
        var w := Observed(h, vs[k], depth);
        if w.None? { return None; }
        PrefixOne(trees, first.value.0, ObserveAll(h, vs[k + 1..], seen, depth));
        ws := ws + [w.value];
        trees := trees + [first.value.0];
        k := k + 1;
      }
      NothingLeft(h, vs[k..], seen, depth);
      assert trees + [] == trees;
      r := Some(ws);
    }
  }

  lemma {:induction false} PrefixNothing(r: Option<(seq<Tree>, set<nat>)>)
    ensures Prefixed([], r) == r
  {
    if r.Some? { assert [] + r.value.0 == r.value.0; }
  }

  lemma {:induction false} PrefixOne(ts: seq<Tree>, t: Tree, r: Option<(seq<Tree>, set<nat>)>)
    ensures Prefixed(ts, Prefixed([t], r)) == Prefixed(ts + [t], r)
    ensures WireItems(ts + [t]) == WireItems(ts) + [WireOf(t)]
  {
    if r.Some? { assert ts + ([t] + r.value.0) == ts + [t] + r.value.0; }
  }

  lemma {:induction false} NothingLeft(h: Heap, vs: seq<Value>, seen: set<nat>, d: nat)
    requires ClosedHeap(h) && vs == [] && d <= MAX_DEPTH + 1
    ensures ObserveAll(h, vs, seen, d) == Some(([], seen))
  {
  }
}
