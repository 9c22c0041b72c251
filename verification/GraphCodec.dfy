/** The two codec objects of backends/python_shim.py, with the fields they update in place. */
module GraphCodec {
  import opened Wrappers
  import opened Ordering
  import opened PyHeap
  import opened GraphEncoder
  import opened GraphDecoder
  import Decimal

  /** `_PythonGraphEncoder`. */
  class Encoder {
    const heap: Heap
    var nodes: seq<Option<Node>>
    var memo: map<nat, nat>

    ghost function Now(): State
      reads this
    {
      State(nodes, memo)
    }

    constructor (heap: Heap)
      ensures this.heap == heap && Now() == Fresh
    {
      this.heap := heap;
      nodes, memo := [], map[];
    }

    method Encode(v: Value) returns (r: Option<Enc>)
      requires ClosedHeap(heap) && InHeap(heap, v)
      modifies this
      ensures EncodeValue(heap, v, old(Now())) == (if r.None? then None else Some((r.value, Now())))
      decreases Unseen(heap, memo), 0, 1
    {
      match v
      case Foreign(_) => r := None;
      case Ref(i) => r := EncodeNode(i);
      case Leaf(s) =>
        if s.Integer? {
          var text := Decimal.IntToDecimalText(s.n);
          return Some(Plain(IntText(text)));
        }
        r := Some(Plain(Copied(s)));
    }

    method EncodeNode(i: nat) returns (r: Option<Enc>)
      requires ClosedHeap(heap) && i < |heap|
      modifies this
      ensures EncodeValue(heap, Ref(i), old(Now())) == (if r.None? then None else Some((r.value, Now())))
      decreases Unseen(heap, memo), 0, 0
    {
      if i in memo { return Some(Pointer(memo[i])); }
      ghost var before := Now();
      var id := |nodes|;
      memo := memo[i := id];
      nodes := nodes + [None];
      assert Now() == Enter(before, i);
      assert i in Unseen(heap, before.memo) && i !in Unseen(heap, memo);
      var items := EncodeAll(heap[i].items);
      if items.None? { return None; }
      nodes := nodes[id := Some(Node(heap[i].kind, items.value, heap[i].data))];
      r := Some(Pointer(id));
    }

    /** The comprehensions and loops of `_encode_node`: items in order, sharing one memo. */
    method EncodeAll(vs: seq<Value>) returns (r: Option<seq<Enc>>)
      requires ClosedHeap(heap) && Closed(heap, vs)
      modifies this
      ensures EncodeItems(heap, vs, old(Now())) == (if r.None? then None else Some((r.value, Now())))
      decreases Unseen(heap, memo), 1, |vs|
    {
      hide EncodeValue;
      var out: seq<Enc> := [];
      var k := 0;
      assert vs[0..] == vs;
      assert forall tail: seq<Enc> :: out + tail == tail;
      while k < |vs|
        invariant 0 <= k <= |vs| && Grows(old(Now()), Now()) && Closed(heap, vs[k..])
        invariant EncodeItems(heap, vs, old(Now())) ==
          var rest := EncodeItems(heap, vs[k..], Now());
          if rest.None? then None else Some((out + rest.value.0, rest.value.1))
      {
        assert Unseen(heap, memo) <= Unseen(heap, old(Now()).memo);
        ghost var here := Now();
        assert vs[k..][0] == vs[k] && vs[k..][1..] == vs[k + 1..];
        var e := Encode(vs[k]);
        if e.None? { return None; }
        ghost var rest := EncodeItems(heap, vs[k + 1..], Now());
        assert rest.Some? ==> (out + [e.value]) + rest.value.0 == out + ([e.value] + rest.value.0);
        out := out + [e.value];
        k := k + 1;
      }
      assert vs[k..] == [] && out + [] == out;
      r := Some(out);
    }
  }

  // ------------------------------------------------------------------ decoder

  ghost predicate AllBuilt(table: seq<Node>, log: seq<nat>)
  {
    forall j: nat :: IsTuple(table, j) ==> j in log
  }

  lemma {:induction false} BuildWhenBuilt(table: seq<Node>, e: Enc, log: seq<nat>)
    requires AllBuilt(table, log)
    ensures BuildValue(table, e, log, {}) == (if Denote(table, e).None? then Err(Malformed) else Ok(log))
  {
  }

  /** Once every tuple exists, decoding only reads. */
  lemma {:induction false} ItemsWhenBuilt(table: seq<Node>, es: seq<Enc>, log: seq<nat>)
    requires AllBuilt(table, log)
    ensures BuildItems(table, es, log, {}) == (if AllReadable(table, es) then Ok(log) else Err(Malformed))
  {
    hide BuildValue, AllBuilt, Denote;
    if es != [] {
      BuildWhenBuilt(table, es[0], log);
      ItemsWhenBuilt(table, es[1..], log);
      assert AllReadable(table, es) <==> Denote(table, es[0]).Some? && AllReadable(table, es[1..]) by {
        assert forall i :: 0 < i < |es| ==> es[i] == es[1..][i - 1];
      }
    }
  }

  /** `_PythonGraphDecoder`. `log` records the order in which tuples were built. */
  class Decoder {
    const table: seq<Node>
    var objects: seq<Option<Obj>>
    var building: set<nat>
    ghost var log: seq<nat>

    ghost predicate Valid()
      reads this
    {
      && |objects| == |table|
      && forall j :: 0 <= j < |table| && IsTuple(table, j) ==>
           if j in log
           then objects[j] == Some(Obj(Tuple, Values(table, table[j].items), [])) && AllReadable(table, table[j].items)
           else objects[j] == None
    }

    /** Preallocates every container that is not a tuple. */
    constructor (table: seq<Node>)
      requires BadNode !in table
      ensures this.table == table && Valid() && building == {} && log == []
    {
      this.table := table;
      objects := seq(|table|, j requires 0 <= j < |table| =>
        if IsTuple(table, j) then None
        else Some(Obj(if table[j].Node? then table[j].kind else List, [], [])));
      building, log := {}, [];
    }

    ghost predicate Agrees(r: Result<Value, Reject>, e: Enc, spec: Result<seq<nat>, Reject>)
      reads this
    {
      match spec
      case Err(x) => r == Err(x)
      case Ok(l) => log == l && Denote(table, e).Some? && r == Ok(Denote(table, e).value)
    }

    method Decode(e: Enc) returns (r: Result<Value, Reject>)
      requires Valid()
      modifies this
      ensures Valid() && building == old(building) && old(log) <= log
      ensures forall j :: 0 <= j < |table| && !IsTuple(table, j) ==> objects[j] == old(objects)[j]
      ensures Agrees(r, e, BuildValue(table, e, old(log), old(building)))
      decreases Idle(table, building), 1, 0
    {
      match e
      case BadValue => r := Err(Malformed);
      case Plain(c) =>
        var s := DecodeScalar(c);
        r := if s.None? then Err(Malformed) else Ok(Leaf(s.value));
      case Pointer(n) =>
        if !(0 <= n < |table|) { return Err(Malformed); }
        if IsTuple(table, n) {
          var built := Materialize(n);
          if built.Some? { return Err(built.value); }
        }
        r := Ok(Ref(n));
    }

    /** `_materialize_node` on a tuple; nothing is returned when it succeeds. */
    method Materialize(j: nat) returns (error: Option<Reject>)
      requires Valid() && IsTuple(table, j)
      modifies this
      ensures Valid() && building == old(building) && old(log) <= log
      ensures forall k :: 0 <= k < |table| && !IsTuple(table, k) ==> objects[k] == old(objects)[k]
      ensures BuildTuple(table, j, old(log), old(building)) == (if error.Some? then Err(error.value) else Ok(log))
      decreases Idle(table, building), 0, 0
    {
      if objects[j].Some? { return None; }
      if j in building { return Some(TupleCycle); }
      ghost var before := building;
      building := building + {j};
      assert j in Idle(table, before) && j !in Idle(table, building);
      assert Idle(table, building) <= Idle(table, before);
      var items := DecodeAll(table[j].items);
      building := building - {j};
      assert building == before;
      if items.Err? { return Some(items.error); }
      objects := objects[j := Some(Obj(Tuple, items.value, []))];
      log := log + [j];
      error := None;
    }

    method DecodeAll(es: seq<Enc>) returns (r: Result<seq<Value>, Reject>)
      requires Valid()
      modifies this
      ensures Valid() && building == old(building) && old(log) <= log
      ensures forall j :: 0 <= j < |table| && !IsTuple(table, j) ==> objects[j] == old(objects)[j]
      ensures r.Ok? ==> r.value == Values(table, es) && AllReadable(table, es)
      ensures BuildItems(table, es, old(log), old(building)) == (if r.Err? then Err(r.error) else Ok(log))
      decreases Idle(table, building), 2, |es|
    {
      hide BuildValue;
      var out: seq<Value> := [];
      var k := 0;
      assert es[0..] == es;
      while k < |es|
        invariant 0 <= k <= |es| && Valid() && building == old(building) && old(log) <= log
        invariant forall j :: 0 <= j < |table| && !IsTuple(table, j) ==> objects[j] == old(objects)[j]
        invariant |out| == k && forall i :: 0 <= i < k ==> Denote(table, es[i]) == Some(out[i])
        invariant BuildItems(table, es, old(log), old(building)) == BuildItems(table, es[k..], log, building)
      {
        assert es[k..][0] == es[k] && es[k..][1..] == es[k + 1..];
        var v := Decode(es[k]);
        if v.Err? { return Err(v.error); }
        out := out + [v.value];
        k := k + 1;
      }
      assert out == Values(table, es);
      r := Ok(out);
    }

    /** The two loops of `finish`. */
    method Finish(eq: Equality) returns (error: Option<Reject>)
      requires Valid() && building == {} && log == [] && BadNode !in table
      modifies this
      ensures var built := BuildFrom(table, 0, []);
        if built.Err? then error == Some(built.error)
        else
          var filled := FillFrom(table, eq, 0, []);
          if filled.Err? then error == Some(filled.error)
          else (error == None && |objects| == |filled.value| == |table|
            && forall j :: 0 <= j < |table| ==> objects[j] == Some(filled.value[j]))
    {
      error := FinishTuples();
      if error.Some? { return; }
      BuiltFrom(table, 0, []);
      error := FinishOthers(eq);
    }

    method FinishTuples() returns (error: Option<Reject>)
      requires Valid() && building == {} && log == []
      modifies this
      ensures Valid() && building == {}
      ensures BuildFrom(table, 0, []) == (if error.Some? then Err(error.value) else Ok(log))
    {
      var j := 0;
      while j < |table|
        invariant 0 <= j <= |table| && Valid() && building == {}
        invariant BuildFrom(table, 0, []) == BuildFrom(table, j, log)
      {
        if IsTuple(table, j) {
          error := Materialize(j);
          if error.Some? { return; }
        }
        j := j + 1;
      }
      error := None;
    }

    method FinishOthers(eq: Equality) returns (error: Option<Reject>)
      requires Valid() && building == {} && AllBuilt(table, log) && BadNode !in table
      modifies this
      ensures var filled := FillFrom(table, eq, 0, []);
        if filled.Err? then error == Some(filled.error)
        else (error == None && |objects| == |filled.value| == |table|
          && forall j :: 0 <= j < |table| ==> objects[j] == Some(filled.value[j]))
    {
      hide FillNode, FillDict;
      var j := 0;
      ghost var done: Heap := [];
      while j < |table|
        invariant 0 <= j <= |table| && Valid() && building == {} && AllBuilt(table, log)
        invariant |done| == j && forall i :: 0 <= i < j ==> objects[i] == Some(done[i])
        invariant FillFrom(table, eq, 0, []) == FillFrom(table, eq, j, done)
      {
        assert table[j] != BadNode;
        if IsTuple(table, j) {
          TupleFill(table, eq, table[j]);
          done := done + [objects[j].value];
        } else {
          var filled := FillOne(table[j], eq);
          if filled.Err? { return Some(filled.error); }
          objects := objects[j := Some(filled.value)];
          done := done + [filled.value];
        }
        j := j + 1;
      }
      error := None;
    }

    /** The contents of one list, dict, bytearray or scope. */
    method FillOne(node: Node, eq: Equality) returns (r: Result<Obj, Reject>)
      requires Valid() && building == {} && AllBuilt(table, log) && node.Node? && node.kind != Tuple
      modifies this
      ensures Valid() && building == {} && AllBuilt(table, log) && objects == old(objects)
      ensures r == FillNode(table, eq, node)
    {
      hide FillDict, BuildItems;
      if node.kind == ByteArray { return Ok(Obj(ByteArray, [], node.data)); }
      if node.kind == Dict {
        var items := FillEntries(node.items, eq);
        return if items.Err? then Err(items.error) else Ok(Obj(Dict, items.value, []));
      }
      if node.kind == Scope && |node.items| != 2 { return Err(Malformed); }
      var vs := ReadAll(node.items);
      if vs.Err? { return Err(vs.error); }
      if node.kind == Scope {
        var bindings, wire := vs.value[0], vs.value[1];
        if !IsDict(table, bindings) { return Err(BadScope); }
        if wire != Leaf(Nothing) && !IsDict(table, wire) { return Err(BadScope); }
      }
      r := Ok(Obj(node.kind, vs.value, []));
    }

    method ReadAll(es: seq<Enc>) returns (r: Result<seq<Value>, Reject>)
      requires Valid() && building == {} && AllBuilt(table, log)
      modifies this
      ensures Valid() && building == {} && AllBuilt(table, log) && objects == old(objects)
      ensures r == (if AllReadable(table, es) then Ok(Values(table, es)) else Err(Malformed))
    {
      ItemsWhenBuilt(table, es, log);
      r := DecodeAll(es);
      assert objects == old(objects);
    }

    /** The entry loop of a dict node. */
    method FillEntries(es: seq<Enc>, eq: Equality) returns (r: Result<seq<Value>, Reject>)
      requires Valid() && building == {} && AllBuilt(table, log)
      modifies this
      ensures Valid() && building == {} && AllBuilt(table, log) && objects == old(objects)
      ensures r == FillDict(table, eq, es, [])
    {
      hide DictPut, UnhashableWithin, Skeleton, BuildValue;
      var target: seq<Value> := [];
      var k := 0;
      assert es[0..] == es;
      while k < |es|
        invariant 0 <= k <= |es| && Closed(Skeleton(table), target)
        invariant Valid() && building == {} && AllBuilt(table, log) && objects == old(objects)
        invariant FillDict(table, eq, es, []) == FillDict(table, eq, es[k..], target)
      {
        if k + 1 == |es| { return Err(Malformed); }
        assert es[k..][0] == es[k] && es[k..][1] == es[k + 1] && es[k..][2..] == es[k + 2..];
        BuildWhenBuilt(table, es[k + 1], log);
        var item := Decode(es[k + 1]);
        assert objects == old(objects);
        if item.Err? { return Err(item.error); }
        BuildWhenBuilt(table, es[k], log);
        var key := Decode(es[k]);
        assert objects == old(objects);
        if key.Err? { return Err(key.error); }
        if UnhashableWithin(Skeleton(table), |table|, key.value) { return Err(Unhashable); }
        target := DictPut(Skeleton(table), eq, target, key.value, item.value);
        k := k + 2;
      }
      r := Ok(target);
    }
  }

  lemma {:induction false} TupleFill(table: seq<Node>, eq: Equality, node: Node)
    requires node.Node? && node.kind == Tuple && AllReadable(table, node.items)
    ensures FillNode(table, eq, node) == Ok(Obj(Tuple, Values(table, node.items), []))
  {
  }
}
