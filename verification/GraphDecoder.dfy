/** `_PythonGraphDecoder`: rebuilds a heap from a table of node records. The container
    rebuilt from node `j` is object `j` of the new heap. */
module GraphDecoder {
  import opened Wrappers
  import opened Ordering
  import opened PyHeap
  import opened GraphEncoder
  import Decimal

  datatype Reject = Malformed | TupleCycle | Unhashable | BadScope

  /** What a scalar's record must satisfy to be read back. */
  predicate ValidScalar(s: Scalar)
  {
    match s
    case Float64(bits) => |bits| == 8
    case Complex(re, im) => |re| == 8 && |im| == 8
    case Opaque(wire) => wire.Map? && exists i :: 0 <= i < |wire.entries| && wire.entries[i].key == "t"
    case _ => true
  }

  function DecodeScalar(c: Code): Option<Scalar>
  {
    match c
    case IntText(text) =>
      var n := Decimal.Parse(text);
      if n.None? then None else Some(Integer(n.value))
    case Copied(s) => if ValidScalar(s) && !s.Integer? then Some(s) else None
  }

  /** The value a record stands for, once the tuples it needs exist. */
  function Denote(table: seq<Node>, e: Enc): Option<Value>
  {
    match e
    case Plain(c) =>
      var s := DecodeScalar(c);
      if s.None? then None else Some(Leaf(s.value))
    case Pointer(n) => if 0 <= n < |table| then Some(Ref(n)) else None
    case BadValue => None
  }

  predicate IsTuple(table: seq<Node>, j: int)
  {
    0 <= j < |table| && table[j].Node? && table[j].kind == Tuple
  }

  // ---------------------------------------------------------- building tuples

  function Idle(table: seq<Node>, building: set<nat>): set<nat>
  {
    set j | 0 <= j < |table| && j !in building
  }

  /** `_materialize_node` on a tuple: `log` is the order in which tuples were built so far,
      `building` the tuples whose items are being decoded. */
  function BuildTuple(table: seq<Node>, j: nat, log: seq<nat>, building: set<nat>): Result<seq<nat>, Reject>
    requires IsTuple(table, j)
    decreases Idle(table, building), 0, 0
  {
    if j in log then Ok(log)
    else if j in building then Err(TupleCycle)
    else
      assert j in Idle(table, building) && j !in Idle(table, building + {j});
      var r := BuildItems(table, table[j].items, log, building + {j});
      if r.Err? then r else Ok(r.value + [j])
  }

  /** `decode`, as far as it builds tuples. */
  function BuildValue(table: seq<Node>, e: Enc, log: seq<nat>, building: set<nat>): Result<seq<nat>, Reject>
    decreases Idle(table, building), 1, 0
  {
    if Denote(table, e).None? then Err(Malformed)
    else if e.Pointer? && IsTuple(table, e.node) then BuildTuple(table, e.node, log, building)
    else Ok(log)
  }

  function BuildItems(table: seq<Node>, es: seq<Enc>, log: seq<nat>, building: set<nat>): Result<seq<nat>, Reject>
    decreases Idle(table, building), 2, |es|
  {
    if es == [] then Ok(log)
    else
      var r := BuildValue(table, es[0], log, building);
      if r.Err? then r else BuildItems(table, es[1..], r.value, building)
  }

  /** The first loop of `finish`, from node `j` on. */
  function BuildFrom(table: seq<Node>, j: nat, log: seq<nat>): Result<seq<nat>, Reject>
    requires j <= |table|
    decreases |table| - j
  {
    if j == |table| then Ok(log)
    else if IsTuple(table, j) then
      var r := BuildTuple(table, j, log, {});
      if r.Err? then r else BuildFrom(table, j + 1, r.value)
    else BuildFrom(table, j + 1, log)
  }

  // ------------------------------------------------------ tuple cycles, stated plainly

  ghost predicate Edge(table: seq<Node>, a: nat, b: nat)
  {
    IsTuple(table, a) && IsTuple(table, b) && Pointer(b) in table[a].items
  }

  ghost predicate Path(table: seq<Node>, p: seq<nat>)
  {
    |p| >= 2 && forall k :: 0 <= k < |p| - 1 ==> Edge(table, p[k], p[k + 1])
  }

  ghost predicate Leads(table: seq<Node>, a: nat, b: nat)
  {
    exists p: seq<nat> :: Path(table, p) && p[0] == a && p[|p| - 1] == b
  }

  /** Some reference cycle passes through tuple nodes only. */
  ghost predicate HasTupleCycle(table: seq<Node>) { exists a: nat :: Leads(table, a, a) }

  lemma {:induction false} LeadsStep(table: seq<Node>, a: nat, b: nat, c: nat)
    requires (a == b || Leads(table, a, b)) && Edge(table, b, c)
    ensures Leads(table, a, c)
  {
    if a == b {
      assert Path(table, [a, c]);
      assert [a, c][0] == a && [a, c][|[a, c]| - 1] == c;
    } else {
      var p: seq<nat> :| Path(table, p) && p[0] == a && p[|p| - 1] == b;
      var q := p + [c];
      assert Path(table, q);
      assert q[0] == a && q[|q| - 1] == c;
    }
  }

  /** Every tuple node under construction leads to `j`. */
  ghost predicate AllLead(table: seq<Node>, building: set<nat>, j: nat)
  {
    forall b :: b in building ==> Leads(table, b, j)
  }

  lemma {:induction false} CycleFromTuple(table: seq<Node>, j: nat, log: seq<nat>, building: set<nat>)
    requires IsTuple(table, j) && AllLead(table, building, j)
    requires BuildTuple(table, j, log, building) == Err(TupleCycle)
    ensures HasTupleCycle(table)
    decreases Idle(table, building), 0, 0
  {
    if j in building {
      assert Leads(table, j, j);
    } else {
      assert j in Idle(table, building) && j !in Idle(table, building + {j});
      CycleFromItems(table, j, table[j].items, log, building);
    }
  }

  lemma {:induction false} CycleFromItems(table: seq<Node>, j: nat, es: seq<Enc>, log: seq<nat>, building: set<nat>)
    requires IsTuple(table, j) && AllLead(table, building, j)
    requires forall e :: e in es ==> e in table[j].items
    requires BuildItems(table, es, log, building + {j}) == Err(TupleCycle)
    ensures HasTupleCycle(table)
    decreases Idle(table, building + {j}), 2, |es|
  {
    var r := BuildValue(table, es[0], log, building + {j});
    if r.Err? {
      var n: nat := es[0].node;
      assert es[0] in es;
      assert Edge(table, j, n);
      forall b | b in building + {j} ensures Leads(table, b, n) { LeadsStep(table, b, j, n); }
      CycleFromTuple(table, n, log, building + {j});
    } else {
      CycleFromItems(table, j, es[1..], r.value, building);
    }
  }

  // ------------------------------------------------- a finished log is a build order

  /** Each tuple of the log appears once, after every tuple it holds. */
  ghost predicate BuildOrder(table: seq<Node>, log: seq<nat>)
  {
    && (forall k :: 0 <= k < |log| ==> IsTuple(table, log[k]))
    && (forall k, l :: 0 <= k < l < |log| ==> log[k] != log[l])
    && (forall k, b: nat :: 0 <= k < |log| && Edge(table, log[k], b) ==> b in log[..k])
  }

  ghost predicate NoneIn(log: seq<nat>, building: set<nat>) { forall b :: b in building ==> b !in log }

  lemma {:induction false} OrderKeptByTuple(table: seq<Node>, j: nat, log: seq<nat>, building: set<nat>)
    requires IsTuple(table, j) && BuildOrder(table, log) && NoneIn(log, building)
    requires BuildTuple(table, j, log, building).Ok?
    ensures var log' := BuildTuple(table, j, log, building).value;
      log <= log' && BuildOrder(table, log') && NoneIn(log', building) && j in log'
    decreases Idle(table, building), 0, 0
  {
    if j !in log {
      assert j in Idle(table, building) && j !in Idle(table, building + {j});
      OrderKeptByItems(table, table[j].items, log, building + {j});
      var inner := BuildItems(table, table[j].items, log, building + {j}).value;
      var log' := inner + [j];
      forall k, b: nat | 0 <= k < |log'| && Edge(table, log'[k], b) ensures b in log'[..k] {
        if k < |inner| { assert log'[..k] == inner[..k]; } else { assert log'[..k] == inner; }
      }
    }
  }

  lemma {:induction false} OrderKeptByItems(table: seq<Node>, es: seq<Enc>, log: seq<nat>, building: set<nat>)
    requires BuildOrder(table, log) && NoneIn(log, building)
    requires BuildItems(table, es, log, building).Ok?
    ensures var log' := BuildItems(table, es, log, building).value;
      && log <= log' && BuildOrder(table, log') && NoneIn(log', building)
      && forall b: nat :: Pointer(b) in es && IsTuple(table, b) ==> b in log'
    decreases Idle(table, building), 2, |es|
  {
    hide BuildOrder, NoneIn;
    if es != [] {
      var mid := BuildValue(table, es[0], log, building).value;
      if es[0].Pointer? && IsTuple(table, es[0].node) {
        OrderKeptByTuple(table, es[0].node, log, building);
      }
      OrderKeptByItems(table, es[1..], mid, building);
      var log' := BuildItems(table, es, log, building).value;
      forall b: nat | Pointer(b) in es && IsTuple(table, b) ensures b in log' {
        if es[0] == Pointer(b) { assert b in mid; } else { assert Pointer(b) in es[1..]; }
      }
    }
  }

  lemma {:induction false} BuiltFrom(table: seq<Node>, j: nat, log: seq<nat>)
    requires j <= |table| && BuildOrder(table, log) && BuildFrom(table, j, log).Ok?
    ensures var log' := BuildFrom(table, j, log).value;
      && log <= log' && BuildOrder(table, log')
      && forall b: nat :: j <= b < |table| && IsTuple(table, b) ==> b in log'
    decreases |table| - j
  {
    hide BuildOrder, BuildTuple;
    if j < |table| {
      if IsTuple(table, j) {
        OrderKeptByTuple(table, j, log, {});
        BuiltFrom(table, j + 1, BuildTuple(table, j, log, {}).value);
      } else {
        BuiltFrom(table, j + 1, log);
      }
    }
  }

  lemma {:induction false} PathDescends(table: seq<Node>, log: seq<nat>, p: seq<nat>, k: nat,
                                        at: nat) returns (end: nat)
    requires BuildOrder(table, log) && Path(table, p) && k < |p| && at < |log| && log[at] == p[k]
    requires forall b: nat :: IsTuple(table, b) ==> b in log
    ensures end < |log| && log[end] == p[|p| - 1] && end <= at
    ensures k < |p| - 1 ==> end < at
    decreases |p| - k
  {
    if k == |p| - 1 {
      end := at;
    } else {
      assert Edge(table, p[k], p[k + 1]);
      assert p[k + 1] in log[..at];
      var next :| 0 <= next < at && log[next] == p[k + 1];
      end := PathDescends(table, log, p, k + 1, next);
    }
  }

  lemma {:induction false} BuildOrderAcyclic(table: seq<Node>, log: seq<nat>)
    requires BuildOrder(table, log) && forall b: nat :: IsTuple(table, b) ==> b in log
    ensures !HasTupleCycle(table)
  {
    forall p: seq<nat> | Path(table, p) ensures p[|p| - 1] != p[0] {
      assert Edge(table, p[0], p[1]);
      var at :| 0 <= at < |log| && log[at] == p[0];
      var end := PathDescends(table, log, p, 0, at);
    }
  }

  // ------------------------------------------------------- well-formed tables

  /** Every record is readable and every reference in range. */
  predicate AllReadable(table: seq<Node>, es: seq<Enc>)
  {
    forall i :: 0 <= i < |es| ==> Denote(table, es[i]).Some?
  }

  /** Every record is a container, and what its tuples hold can be read. */
  ghost predicate ReadableTable(table: seq<Node>)
  {
    forall j :: 0 <= j < |table| ==>
      table[j].Node? && (table[j].kind == Tuple ==> AllReadable(table, table[j].items))
  }

  lemma {:induction false} OnlyCycles(table: seq<Node>, j: nat, log: seq<nat>, building: set<nat>)
    requires ReadableTable(table) && IsTuple(table, j)
    ensures var r := BuildTuple(table, j, log, building); r.Ok? || r == Err(TupleCycle)
    decreases Idle(table, building), 0, 0
  {
    if j !in log && j !in building {
      assert j in Idle(table, building) && j !in Idle(table, building + {j});
      OnlyCyclesItems(table, table[j].items, log, building + {j});
    }
  }

  lemma {:induction false} OnlyCyclesItems(table: seq<Node>, es: seq<Enc>, log: seq<nat>, building: set<nat>)
    requires ReadableTable(table) && AllReadable(table, es)
    ensures var r := BuildItems(table, es, log, building); r.Ok? || r == Err(TupleCycle)
    decreases Idle(table, building), 2, |es|
  {
    hide BuildTuple;
    if es != [] {
      if es[0].Pointer? && IsTuple(table, es[0].node) { OnlyCycles(table, es[0].node, log, building); }
      var r := BuildValue(table, es[0], log, building);
      if r.Ok? { OnlyCyclesItems(table, es[1..], r.value, building); }
    }
  }

  lemma {:induction false} BuildFromOutcome(table: seq<Node>, j: nat, log: seq<nat>)
    requires j <= |table| && ReadableTable(table)
    ensures BuildFrom(table, j, log).Err? ==>
      BuildFrom(table, j, log) == Err(TupleCycle) && HasTupleCycle(table)
    decreases |table| - j
  {
    hide BuildTuple, HasTupleCycle;
    if j < |table| {
      if IsTuple(table, j) {
        OnlyCycles(table, j, log, {});
        var r := BuildTuple(table, j, log, {});
        if r.Ok? { BuildFromOutcome(table, j + 1, r.value); } else { CycleFromTuple(table, j, log, {}); }
      } else {
        BuildFromOutcome(table, j + 1, log);
      }
    }
  }

  /** On every readable table the decoder raises the tuple-cycle error exactly when a cycle
      of tuples exists, and otherwise builds every tuple exactly once, after the tuples it holds. */
  lemma {:induction false} TupleCycleExactly(table: seq<Node>)
    requires ReadableTable(table)
    ensures BuildFrom(table, 0, []) == Err(TupleCycle) <==> HasTupleCycle(table)
    ensures !HasTupleCycle(table) ==>
      var r := BuildFrom(table, 0, []);
      && r.Ok?
      && (forall k, l :: 0 <= k < l < |r.value| ==> r.value[k] != r.value[l])
      && (forall b: nat :: b in r.value <==> IsTuple(table, b))
      && (forall k, b: nat :: 0 <= k < |r.value| && Edge(table, r.value[k], b) ==> b in r.value[..k])
  {
    BuildFromOutcome(table, 0, []);
    var r := BuildFrom(table, 0, []);
    if r.Ok? {
      BuiltFrom(table, 0, []);
      BuildOrderAcyclic(table, r.value);
    }
  }

  // --------------------------------------------------- filling the other containers

  function Values(table: seq<Node>, es: seq<Enc>): (r: seq<Value>)
    ensures |r| == |es|
    ensures forall i :: 0 <= i < |es| && Denote(table, es[i]).Some? ==> r[i] == Denote(table, es[i]).value
    ensures forall i :: 0 <= i < |es| ==> r[i].Ref? ==> r[i].id < |table|
  {
    seq(|es|, i requires 0 <= i < |es| =>
      var v := Denote(table, es[i]);
      if v.Some? then v.value else Leaf(Nothing))
  }

  /** The heap after the tuples are built and before anything else is filled. */
  function Skeleton(table: seq<Node>): (h: Heap)
    ensures |h| == |table| && ClosedHeap(h)
  {
    seq(|table|, j requires 0 <= j < |table| =>
      if IsTuple(table, j) then Obj(Tuple, Values(table, table[j].items), [])
      else Obj(if table[j].Node? then table[j].kind else List, [], []))
  }

  type Equality = (Scalar, Scalar) -> bool

  /** `target[key] = value`: an equal key keeps its place and its object, and takes the value. */
  function DictPut(h: Heap, eq: Equality, items: seq<Value>, k: Value, v: Value): (r: seq<Value>)
    requires ClosedHeap(h) && Closed(h, items) && InHeap(h, k) && InHeap(h, v)
    ensures Closed(h, r)
  {
    if |items| < 2 then items + [k, v]
    else if EqualWithin(h, eq, |h|, items[0], k) then [items[0], v] + items[2..]
    else items[..2] + DictPut(h, eq, items[2..], k, v)
  }

  function FillDict(table: seq<Node>, eq: Equality, es: seq<Enc>, acc: seq<Value>): (r: Result<seq<Value>, Reject>)
    requires Closed(Skeleton(table), acc)
    ensures r.Ok? ==> Closed(Skeleton(table), r.value)
    decreases |es|
  {
    if es == [] then Ok(acc)
    else if |es| == 1 then Err(Malformed)
    else
      var k, v := Denote(table, es[0]), Denote(table, es[1]);
      if k.None? || v.None? then Err(Malformed)
      else if UnhashableWithin(Skeleton(table), |table|, k.value) then Err(Unhashable)
      else FillDict(table, eq, es[2..], DictPut(Skeleton(table), eq, acc, k.value, v.value))
  }

  predicate IsDict(table: seq<Node>, v: Value)
  {
    v.Ref? && v.id < |table| && table[v.id].Node? && table[v.id].kind == Dict
  }

  /** The second loop of `finish` on one node. */
  function FillNode(table: seq<Node>, eq: Equality, node: Node): Result<Obj, Reject>
  {
    if node.BadNode? then Err(Malformed)
    else
      var es := node.items;
      match node.kind
      case ByteArray => Ok(Obj(ByteArray, [], node.data))
      case Dict =>
        var r := FillDict(table, eq, es, []);
        if r.Err? then Err(r.error) else Ok(Obj(Dict, r.value, []))
      case Scope =>
        if |es| != 2 || !AllReadable(table, es) then Err(Malformed)
        else
          var vs := Values(table, es);
          if !IsDict(table, vs[0]) || !(vs[1] == Leaf(Nothing) || IsDict(table, vs[1])) then Err(BadScope)
          else Ok(Obj(Scope, vs, []))
      case _ =>
        if !AllReadable(table, es) then Err(Malformed) else Ok(Obj(node.kind, Values(table, es), []))
  }

  function FillFrom(table: seq<Node>, eq: Equality, j: nat, h: Heap): Result<Heap, Reject>
    requires j <= |table|
    decreases |table| - j
  {
    if j == |table| then Ok(h)
    else
      var o := FillNode(table, eq, table[j]);
      if o.Err? then Err(o.error) else FillFrom(table, eq, j + 1, h + [o.value])
  }

  /** The constructor and `finish`, then `decode` on the roots. */
  function DecodeGraph(table: seq<Node>, eq: Equality, roots: seq<Enc>): (r: Result<(Heap, seq<Value>), Reject>)
    ensures r.Ok? ==> |r.value.1| == |roots|
  {
    if BadNode in table then Err(Malformed)
    else
      var log := BuildFrom(table, 0, []);
      if log.Err? then Err(log.error)
      else
        var h := FillFrom(table, eq, 0, []);
        if h.Err? then Err(h.error)
        else if !AllReadable(table, roots) then Err(Malformed)
        else Ok((h.value, Values(table, roots)))
  }

  lemma {:induction false} FillClosed(table: seq<Node>, eq: Equality, node: Node)
    requires FillNode(table, eq, node).Ok?
    ensures Closed(Skeleton(table), FillNode(table, eq, node).value.items)
  {
    hide FillDict, DictPut;
  }

  lemma {:induction false} FillFromClosed(table: seq<Node>, eq: Equality, j: nat, h: Heap)
    requires j <= |table| && |h| == j && FillFrom(table, eq, j, h).Ok?
    requires forall i :: 0 <= i < |h| ==> Closed(Skeleton(table), h[i].items)
    ensures var g := FillFrom(table, eq, j, h).value;
      |g| == |table| && forall i :: 0 <= i < |g| ==> Closed(Skeleton(table), g[i].items)
    decreases |table| - j
  {
    hide FillNode, Skeleton;
    if j < |table| {
      FillClosed(table, eq, table[j]);
      FillFromClosed(table, eq, j + 1, h + [FillNode(table, eq, table[j]).value]);
    }
  }

  /** Whatever the payload, a decoded heap refers only to its own containers. */
  lemma {:induction false} DecodedClosed(table: seq<Node>, eq: Equality, roots: seq<Enc>)
    requires DecodeGraph(table, eq, roots).Ok?
    ensures var (h, vs) := DecodeGraph(table, eq, roots).value;
      |h| == |table| && ClosedHeap(h) && Closed(h, vs) && |vs| == |roots|
      && forall i :: 0 <= i < |vs| ==> !vs[i].Foreign?
  {
    hide BuildFrom, FillFrom;
    FillFromClosed(table, eq, 0, []);
  }
}
