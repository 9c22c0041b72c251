/** Exactly which node tables the decoder accepts, whoever wrote them, and what it makes of them. */
module GraphTables {
  import opened Wrappers
  import opened PyHeap
  import opened GraphEncoder
  import opened GraphDecoder
  import Cbor
  import Decimal

  // ----------------------------------------------------------------- hashable keys

  /** Every value but the last is a tuple that holds the next. */
  ghost predicate TupleChain(h: Heap, p: seq<Value>)
  {
    p != [] && forall k :: 0 <= k < |p| - 1 ==> HoldsNext(h, p, k)
  }

  ghost predicate HoldsNext(h: Heap, p: seq<Value>, k: nat)
    requires k + 1 < |p|
  {
    p[k].Ref? && p[k].id < |h| && h[p[k].id].kind == Tuple && p[k + 1] in h[p[k].id].items
  }

  predicate Mutable(h: Heap, v: Value)
  {
    v.Ref? && v.id < |h| && (h[v.id].kind == List || h[v.id].kind == Dict || h[v.id].kind == ByteArray)
  }

  /** A value that Python cannot hash: a list, dict or bytearray, or a tuple that leads to one. */
  ghost predicate ReachesMutable(h: Heap, v: Value)
  {
    exists p: seq<Value> :: TupleChain(h, p) && p[0] == v && Mutable(h, p[|p| - 1])
  }

  lemma {:induction false} ChainOf(h: Heap, n: nat, v: Value) returns (p: seq<Value>)
    requires ClosedHeap(h) && InHeap(h, v) && UnhashableWithin(h, n, v)
    ensures TupleChain(h, p) && p[0] == v && Mutable(h, p[|p| - 1])
    decreases n
  {
    p := [v];
    if h[v.id].kind == Tuple {
      var items := h[v.id].items;
      var i :| 0 <= i < |items| && UnhashableWithin(h, n - 1, items[i]);
      var q := ChainOf(h, n - 1, items[i]);
      p := [v] + q;
      forall k | 0 <= k < |p| - 1 ensures HoldsNext(h, p, k) {
        assert k > 0 ==> HoldsNext(h, q, k - 1);
      }
    }
  }

  lemma {:induction false} ChainHashes(h: Heap, p: seq<Value>, n: nat)
    requires ClosedHeap(h) && TupleChain(h, p) && InHeap(h, p[0]) && Mutable(h, p[|p| - 1]) && n >= |p|
    ensures UnhashableWithin(h, n, p[0])
    decreases |p|
  {
    if |p| > 1 {
      assert HoldsNext(h, p, 0);
      var items := h[p[0].id].items;
      var i :| 0 <= i < |items| && items[i] == p[1];
      var q := p[1..];
      forall k | 0 <= k < |q| - 1 ensures HoldsNext(h, q, k) { assert HoldsNext(h, p, k + 1); }
      ChainHashes(h, q, n - 1);
    }
  }

  predicate Repeats(p: seq<Value>, i: nat, j: nat) { i < j < |p| && p[i] == p[j] }

  /** A chain that comes back to a value can leave the detour out. */
  lemma {:induction false} ShortChain(h: Heap, p: seq<Value>) returns (q: seq<Value>)
    requires TupleChain(h, p)
    ensures TupleChain(h, q) && q[0] == p[0] && q[|q| - 1] == p[|p| - 1]
    ensures forall i, j :: 0 <= i < j < |q| ==> q[i] != q[j]
    decreases |p|
  {
    if i: nat, j: nat :| Repeats(p, i, j) {
      var r := p[..i] + p[j..];
      forall k | 0 <= k < |r| - 1 ensures HoldsNext(h, r, k) {
        assert HoldsNext(h, p, if k < i then k else k + (j - i));
      }
      q := ShortChain(h, r);
    } else {
      q := p;
      forall i, j | 0 <= i < j < |q| ensures q[i] != q[j] { assert !Repeats(p, i, j); }
    }
  }

  lemma {:induction false} DistinctBelow(p: seq<Value>, n: nat)
    requires forall i :: 0 <= i < |p| ==> p[i].Ref? && p[i].id < n
    requires forall i, j :: 0 <= i < j < |p| ==> p[i] != p[j]
    ensures |p| <= n
  {
    CountIds(p);
    BoundedSize(set v | v in p :: v.id, n);
  }

  lemma {:induction false} CountIds(p: seq<Value>)
    requires forall i :: 0 <= i < |p| ==> p[i].Ref?
    requires forall i, j :: 0 <= i < j < |p| ==> p[i] != p[j]
    ensures |set v | v in p :: v.id| == |p|
  {
    if p != [] {
      var q, last := p[..|p| - 1], p[|p| - 1];
      CountIds(q);
      assert (set v | v in p :: v.id) == (set v | v in q :: v.id) + {last.id};
    }
  }

  lemma {:induction false} BoundedSize(s: set<nat>, n: nat)
    requires forall i :: i in s ==> i < n
    ensures |s| <= n
  {
    if n == 0 {
      assert s == {};
    } else {
      BoundedSize(s - {n - 1}, n - 1);
    }
  }

  /** The decoder refuses a key exactly when Python cannot hash it. */
  lemma {:induction false} UnhashableExactly(h: Heap, v: Value)
    requires ClosedHeap(h) && InHeap(h, v)
    ensures UnhashableWithin(h, |h|, v) <==> ReachesMutable(h, v)
  {
    if UnhashableWithin(h, |h|, v) {
      var p := ChainOf(h, |h|, v);
    }
    if ReachesMutable(h, v) {
      var p: seq<Value> :| TupleChain(h, p) && p[0] == v && Mutable(h, p[|p| - 1]);
      var q := ShortChain(h, p);
      forall i | 0 <= i < |q| ensures q[i].Ref? && q[i].id < |h| {
        if i < |q| - 1 { assert HoldsNext(h, q, i); }
      }
      DistinctBelow(q, |h|);
      ChainHashes(h, q, |h|);
    }
  }

  // ------------------------------------------------------------------ equal keys

  /** The rank of a tuple is its place in the order of building. */
  ghost predicate Ranked(table: seq<Node>, log: seq<nat>, v: Value, n: nat)
  {
    v.Ref? && IsTuple(table, v.id) ==> exists k :: 0 <= k < |log| && k < n && log[k] == v.id
  }

  lemma {:induction false} ItemRanked(table: seq<Node>, log: seq<nat>, v: Value, n: nat, i: nat)
    requires BuildOrder(table, log) && v.Ref? && IsTuple(table, v.id) && Ranked(table, log, v, n)
    requires AllReadable(table, table[v.id].items) && i < |table[v.id].items|
    ensures n > 0 && Ranked(table, log, Skeleton(table)[v.id].items[i], n - 1)
  {
    var k :| 0 <= k < |log| && k < n && log[k] == v.id;
    var w := Skeleton(table)[v.id].items[i];
    var e := table[v.id].items[i];
    assert w == Denote(table, e).value;
    if w.Ref? && IsTuple(table, w.id) {
      assert e == Pointer(w.id) && Edge(table, v.id, w.id);
      assert w.id in log[..k];
    }
  }

  /** Past its rank, how deep equality looks into a tuple makes no difference. */
  lemma {:induction false} EqualStable(table: seq<Node>, eq: Equality, log: seq<nat>, n: nat, m: nat, a: Value,
                                       b: Value)
    requires ReadableTable(table) && BuildOrder(table, log)
    requires InHeap(Skeleton(table), a) && InHeap(Skeleton(table), b)
    requires Ranked(table, log, a, n) && Ranked(table, log, a, m)
    ensures EqualWithin(Skeleton(table), eq, n, a, b) <==> EqualWithin(Skeleton(table), eq, m, a, b)
    decreases n
  {
    var h := Skeleton(table);
    if a.Ref? && b.Ref? && a.id != b.id && h[a.id].kind == Tuple && h[b.id].kind == Tuple {
      KindOf(table, a.id);
      var x, y := h[a.id].items, h[b.id].items;
      assert n > 0 && m > 0;
      forall i | 0 <= i < |x| && i < |y|
        ensures EqualWithin(h, eq, n - 1, x[i], y[i]) <==> EqualWithin(h, eq, m - 1, x[i], y[i])
      {
        ItemRanked(table, log, a, n, i);
        ItemRanked(table, log, a, m, i);
        EqualStable(table, eq, log, n - 1, m - 1, x[i], y[i]);
      }
    }
  }

  lemma {:induction false} KindOf(table: seq<Node>, j: nat)
    requires j < |table| && ReadableTable(table)
    ensures Skeleton(table)[j].kind == table[j].kind
    ensures IsTuple(table, j) ==> |Skeleton(table)[j].items| == |table[j].items|
  {
  }

  predicate Same(table: seq<Node>, eq: Equality, a: Value, b: Value)
    requires InHeap(Skeleton(table), a) && InHeap(Skeleton(table), b)
  {
    EqualWithin(Skeleton(table), eq, |table|, a, b)
  }

  /** Two keys are one: equal scalars, the same container, or tuples of the same length whose
      items are pairwise one. */
  lemma {:induction false} EqualExactly(table: seq<Node>, eq: Equality, a: Value, b: Value)
    requires ReadableTable(table) && !HasTupleCycle(table)
    requires InHeap(Skeleton(table), a) && InHeap(Skeleton(table), b)
    ensures
      var h := Skeleton(table);
      Same(table, eq, a, b) <==>
        if a.Leaf? && b.Leaf? then eq(a.scalar, b.scalar)
        else if a.Ref? && b.Ref? && a.id != b.id && h[a.id].kind == Tuple && h[b.id].kind == Tuple then
          && |h[a.id].items| == |h[b.id].items|
          && forall i :: 0 <= i < |h[a.id].items| ==> Same(table, eq, h[a.id].items[i], h[b.id].items[i])
        else a == b
  {
    hide ReadableTable, HasTupleCycle, Skeleton;
    var h := Skeleton(table);
    if a.Ref? && b.Ref? && a.id != b.id && h[a.id].kind == Tuple && h[b.id].kind == Tuple {
      var x, y := h[a.id].items, h[b.id].items;
      forall i | 0 <= i < |x| && i < |y|
        ensures EqualWithin(h, eq, |table| - 1, x[i], y[i]) <==> Same(table, eq, x[i], y[i])
      {
        OneLevelUp(table, eq, a, i, y[i]);
      }
    }
  }

  /** Looking one level less deep into an item of a tuple makes no difference. */
  lemma {:induction false} OneLevelUp(table: seq<Node>, eq: Equality, a: Value, i: nat, y: Value)
    requires ReadableTable(table) && !HasTupleCycle(table) && a.Ref? && a.id < |table|
    requires Skeleton(table)[a.id].kind == Tuple && i < |Skeleton(table)[a.id].items| && InHeap(Skeleton(table), y)
    ensures InHeap(Skeleton(table), Skeleton(table)[a.id].items[i])
    ensures EqualWithin(Skeleton(table), eq, |table| - 1, Skeleton(table)[a.id].items[i], y) <==>
      Same(table, eq, Skeleton(table)[a.id].items[i], y)
  {
    hide HasTupleCycle, EqualWithin, BuildFrom;
    var x, n := Skeleton(table)[a.id].items[i], |table|;
    KindOf(table, a.id);
    TupleCycleExactly(table);
    var log := BuildFrom(table, 0, []).value;
    LogShort(table, log);
    assert a.id in log;
    ItemRanked(table, log, a, n, i);
    hide Skeleton;
    RankUp(table, log, x, n - 1);
    EqualStable(table, eq, log, n - 1, n, x, y);
  }

  lemma {:induction false} RankUp(table: seq<Node>, log: seq<nat>, v: Value, n: nat)
    requires Ranked(table, log, v, n)
    ensures Ranked(table, log, v, n + 1)
  {
  }

  lemma {:induction false} LogShort(table: seq<Node>, log: seq<nat>)
    requires BuildOrder(table, log)
    ensures |log| <= |table|
  {
    var p: seq<Value> := seq(|log|, i requires 0 <= i < |log| => Ref(log[i]));
    DistinctBelow(p, |table|);
  }

  // -------------------------------------------------------------- dict assignments

  /** The first place of an equal key among alternating keys and values. */
  ghost predicate FirstEqual(h: Heap, eq: Equality, items: seq<Value>, k: Value, s: nat)
    requires ClosedHeap(h) && Closed(h, items) && InHeap(h, k)
  {
    && 2 * s + 1 < |items| && EqualWithin(h, eq, |h|, items[2 * s], k)
    && forall t :: 0 <= t < s ==> !EqualWithin(h, eq, |h|, items[2 * t], k)
  }

  /** Assigning to an equal key replaces its value and leaves the key and its place. */
  lemma {:induction false} PutReplaces(h: Heap, eq: Equality, items: seq<Value>, k: Value, v: Value, s: nat)
    requires ClosedHeap(h) && Closed(h, items) && InHeap(h, k) && InHeap(h, v) && FirstEqual(h, eq, items, k, s)
    ensures DictPut(h, eq, items, k, v) == items[2 * s + 1 := v]
    decreases s
  {
    hide EqualWithin;
    if s == 0 {
      assert items[1 := v] == [items[0], v] + items[2..];
    } else {
      assert !EqualWithin(h, eq, |h|, items[2 * 0], k);
      var rest := items[2..];
      forall t | 0 <= t < s - 1 ensures !EqualWithin(h, eq, |h|, rest[2 * t], k) {
        assert rest[2 * t] == items[2 * (t + 1)];
      }
      PutReplaces(h, eq, rest, k, v, s - 1);
      assert items[2 * s + 1 := v] == items[..2] + rest[2 * (s - 1) + 1 := v];
    }
  }

  /** Assigning to a new key appends it. */
  lemma {:induction false} PutAppends(h: Heap, eq: Equality, items: seq<Value>, k: Value, v: Value)
    requires ClosedHeap(h) && Closed(h, items) && InHeap(h, k) && InHeap(h, v) && |items| % 2 == 0
    requires forall t :: 0 <= 2 * t < |items| ==> !EqualWithin(h, eq, |h|, items[2 * t], k)
    ensures DictPut(h, eq, items, k, v) == items + [k, v]
    decreases |items|
  {
    hide EqualWithin;
    if items != [] {
      assert !EqualWithin(h, eq, |h|, items[2 * 0], k);
      var rest := items[2..];
      forall t | 0 <= 2 * t < |rest| ensures !EqualWithin(h, eq, |h|, rest[2 * t], k) {
        assert rest[2 * t] == items[2 * (t + 1)];
      }
      PutAppends(h, eq, rest, k, v);
      assert items + [k, v] == items[..2] + (rest + [k, v]);
    }
  }

  // ------------------------------------------------------------- accepted tables

  /** A record of the right shape, all of whose parts can be read. */
  ghost predicate WellFormed(table: seq<Node>, n: Node)
  {
    && n.Node?
    && match n.kind
       case ByteArray => true
       case Dict => |n.items| % 2 == 0 && AllReadable(table, n.items)
       case Scope => |n.items| == 2 && AllReadable(table, n.items)
       case _ => AllReadable(table, n.items)
  }

  /** The key at an even place of a dict record leads to something that cannot be hashed. */
  ghost predicate BadKey(table: seq<Node>, n: Node, i: nat)
  {
    n.Node? && n.kind == Dict && i % 2 == 0 && i < |n.items| && Unhashed(table, n.items[i])
  }

  ghost predicate Unhashed(table: seq<Node>, e: Enc)
  {
    Denote(table, e).Some? && ReachesMutable(Skeleton(table), Denote(table, e).value)
  }

  ghost predicate NamesDict(table: seq<Node>, e: Enc)
  {
    e.Pointer? && 0 <= e.node < |table| && table[e.node].Node? && table[e.node].kind == Dict
  }

  /** A scope record that holds something other than its two dicts, of which the second may be nothing. */
  ghost predicate BadScopeNode(table: seq<Node>, n: Node)
  {
    && n.Node? && n.kind == Scope && |n.items| == 2 && AllReadable(table, n.items)
    && !(NamesDict(table, n.items[0])
         && (n.items[1] == Plain(Copied(Nothing)) || NamesDict(table, n.items[1])))
  }

  /** What is wrong with a payload when the decoder reports an error. */
  ghost predicate Fault(table: seq<Node>, roots: seq<Enc>, e: Reject)
  {
    match e
    case Malformed =>
      !AllReadable(table, roots) || exists j :: 0 <= j < |table| && !WellFormed(table, table[j])
    case TupleCycle => HasTupleCycle(table)
    case Unhashable => exists j, i: nat :: 0 <= j < |table| && BadKey(table, table[j], i)
    case BadScope => exists j :: 0 <= j < |table| && BadScopeNode(table, table[j])
  }

  lemma {:induction false} KeyInSkeleton(table: seq<Node>, e: Enc)
    requires Denote(table, e).Some?
    ensures InHeap(Skeleton(table), Denote(table, e).value)
  {
  }

  lemma {:induction false} NothingOnly(table: seq<Node>, e: Enc)
    requires Denote(table, e).Some?
    ensures Denote(table, e).value == Leaf(Nothing) <==> e == Plain(Copied(Nothing))
    ensures IsDict(table, Denote(table, e).value) <==> NamesDict(table, e)
  {
    hide Decimal.Parse;
  }

  predicate HasKey(es: seq<Cbor.Entry>, key: string) { exists i :: 0 <= i < |es| && es[i].key == key }

  /** What each record stands for. */
  lemma {:induction false} DenoteExactly(table: seq<Node>, e: Enc, v: Value)
    ensures Denote(table, e) == Some(v) <==>
      match v
      case Ref(j) => e == Pointer(j) && j < |table|
      case Foreign(_) => false
      case Leaf(Integer(n)) => e.Plain? && e.code.IntText? && Decimal.Parse(e.code.text) == Some(n)
      case Leaf(Float64(bits)) => e == Plain(Copied(Float64(bits))) && |bits| == 8
      case Leaf(Complex(re, im)) => e == Plain(Copied(Complex(re, im))) && |re| == 8 && |im| == 8
      case Leaf(Opaque(w)) => e == Plain(Copied(Opaque(w))) && w.Map? && HasKey(w.entries, "t")
      case Leaf(s) => e == Plain(Copied(s))
  {
    hide Decimal.Parse;
  }

  /** What filling a dict comes to. */
  lemma {:induction false} FillDictExactly(table: seq<Node>, eq: Equality, es: seq<Enc>, acc: seq<Value>)
    requires Closed(Skeleton(table), acc)
    ensures FillDict(table, eq, es, acc).Ok? <==>
      && |es| % 2 == 0 && AllReadable(table, es)
      && forall i :: 0 <= i < |es| && i % 2 == 0 ==> !Unhashed(table, es[i])
    ensures FillDict(table, eq, es, acc) == Err(Malformed) ==> |es| % 2 == 1 || !AllReadable(table, es)
    ensures FillDict(table, eq, es, acc) == Err(Unhashable) ==>
      exists i :: 0 <= i < |es| && i % 2 == 0 && Unhashed(table, es[i])
    ensures FillDict(table, eq, es, acc).Err? ==>
      FillDict(table, eq, es, acc).error == Malformed || FillDict(table, eq, es, acc).error == Unhashable
    decreases |es|
  {
    hide DictPut, Denote, ReachesMutable, UnhashableWithin, Skeleton;
    if |es| >= 2 && Denote(table, es[0]).Some? && Denote(table, es[1]).Some? {
      var k, v, rest := Denote(table, es[0]).value, Denote(table, es[1]).value, es[2..];
      KeyInSkeleton(table, es[0]);
      KeyInSkeleton(table, es[1]);
      UnhashableExactly(Skeleton(table), k);
      if !ReachesMutable(Skeleton(table), k) {
        FillDictExactly(table, eq, rest, DictPut(Skeleton(table), eq, acc, k, v));
        forall i | 0 <= i < |rest| ensures rest[i] == es[i + 2] { }
        forall i | 2 <= i < |es| ensures es[i] == rest[i - 2] { }
      }
    }
  }

  /** What filling one record comes to. */
  lemma {:induction false} FillNodeExactly(table: seq<Node>, eq: Equality, n: Node)
    ensures FillNode(table, eq, n).Ok? <==>
      WellFormed(table, n) && (forall i: nat :: !BadKey(table, n, i)) && !BadScopeNode(table, n)
    ensures FillNode(table, eq, n).Err? ==>
      match FillNode(table, eq, n).error
      case Malformed => !WellFormed(table, n)
      case Unhashable => exists i: nat :: BadKey(table, n, i)
      case BadScope => BadScopeNode(table, n)
      case TupleCycle => false
  {
    hide Denote, Unhashed, FillDict, IsDict, NamesDict;
    if n.Node? {
      var es := n.items;
      if n.kind == Dict {
        EmptyClosed(table);
        FillDictExactly(table, eq, es, []);
        BadKeysOf(table, n);
      } else if n.kind == Scope && |es| == 2 && AllReadable(table, es) {
        NothingOnly(table, es[0]);
        NothingOnly(table, es[1]);
        var vs := Values(table, es);
        assert vs[0] == Denote(table, es[0]).value && vs[1] == Denote(table, es[1]).value;
      }
    }
  }

  lemma {:induction false} EmptyClosed(table: seq<Node>)
    ensures Closed(Skeleton(table), [])
  {
  }

  lemma {:induction false} BadKeysOf(table: seq<Node>, n: Node)
    requires n.Node? && n.kind == Dict
    ensures (exists i: nat :: BadKey(table, n, i)) <==>
      exists i :: 0 <= i < |n.items| && i % 2 == 0 && Unhashed(table, n.items[i])
  {
    hide Unhashed;
    if i :| 0 <= i < |n.items| && i % 2 == 0 && Unhashed(table, n.items[i]) {
      assert BadKey(table, n, i);
    }
  }

  /** Every record from `j` on is filled, in its place, or the first that cannot be is reported. */
  lemma {:induction false} FillFromExactly(table: seq<Node>, eq: Equality, j: nat, h: Heap)
    requires j <= |table| && |h| == j
    ensures
      var r := FillFrom(table, eq, j, h);
      if r.Ok? then
        && |r.value| == |table| && r.value[..j] == h
        && forall i :: j <= i < |table| ==> FillNode(table, eq, table[i]) == Ok(r.value[i])
      else exists i :: j <= i < |table| && FillNode(table, eq, table[i]) == Err(r.error)
    decreases |table| - j
  {
    hide FillNode;
    if j < |table| {
      var o := FillNode(table, eq, table[j]);
      if o.Ok? {
        FillFromExactly(table, eq, j + 1, h + [o.value]);
        var r := FillFrom(table, eq, j + 1, h + [o.value]);
        if r.Ok? {
          assert r.value[..j] == r.value[..j + 1][..j] && r.value[..j + 1][j] == o.value;
        }
      }
    } else {
      assert h[..j] == h;
    }
  }

  /** Building the tuples of any table stops only at a cycle or at something that cannot be read. */
  lemma {:induction false} BuildFaults(table: seq<Node>, j: nat, log: seq<nat>)
    requires j <= |table| && BuildFrom(table, j, log).Err?
    ensures
      var e := BuildFrom(table, j, log).error;
      || (e == TupleCycle && HasTupleCycle(table))
      || (e == Malformed && exists i :: 0 <= i < |table| && !WellFormed(table, table[i]))
    decreases |table| - j
  {
    hide BuildTuple, HasTupleCycle, WellFormed;
    if IsTuple(table, j) {
      var r := BuildTuple(table, j, log, {});
      if r.Ok? {
        BuildFaults(table, j + 1, r.value);
      } else {
        TupleFaults(table, j, log, {});
        if r.error == TupleCycle { CycleFromTuple(table, j, log, {}); }
      }
    } else {
      BuildFaults(table, j + 1, log);
    }
  }

  lemma {:induction false} TupleFaults(table: seq<Node>, j: nat, log: seq<nat>, building: set<nat>)
    requires IsTuple(table, j) && BuildTuple(table, j, log, building).Err?
    ensures
      var e := BuildTuple(table, j, log, building).error;
      e == TupleCycle || (e == Malformed && exists i :: 0 <= i < |table| && !WellFormed(table, table[i]))
    decreases Idle(table, building), 0, 0
  {
    hide Denote, WellFormed;
    if j !in log && j !in building {
      assert j in Idle(table, building) && j !in Idle(table, building + {j});
      ItemFaults(table, table[j].items, log, building + {j});
      TupleForm(table, j);
    }
  }

  lemma {:induction false} TupleForm(table: seq<Node>, j: nat)
    requires IsTuple(table, j)
    ensures WellFormed(table, table[j]) <==> AllReadable(table, table[j].items)
  {
    hide Denote;
  }

  lemma {:induction false} ItemFaults(table: seq<Node>, es: seq<Enc>, log: seq<nat>, building: set<nat>)
    requires BuildItems(table, es, log, building).Err?
    ensures
      var e := BuildItems(table, es, log, building).error;
      || e == TupleCycle
      || (e == Malformed && (!AllReadable(table, es) || exists i :: 0 <= i < |table| && !WellFormed(table, table[i])))
    decreases Idle(table, building), 2, |es|
  {
    hide Denote, WellFormed;
    if Denote(table, es[0]).Some? {
      if es[0].Pointer? && IsTuple(table, es[0].node) {
        if BuildTuple(table, es[0].node, log, building).Err? { TupleFaults(table, es[0].node, log, building); }
      }
      var r := BuildValue(table, es[0], log, building);
      if r.Ok? { ItemFaults(table, es[1..], r.value, building); }
    }
  }

  ghost predicate Faultless(table: seq<Node>, roots: seq<Enc>)
  {
    && AllReadable(table, roots) && !HasTupleCycle(table)
    && forall j :: 0 <= j < |table| ==>
         && WellFormed(table, table[j]) && !BadScopeNode(table, table[j])
         && forall i: nat :: !BadKey(table, table[j], i)
  }

  /** On every node table and every list of roots: the decoder accepts exactly when every record has
      the shape of its kind and can be read, no tuples lie in a cycle, every dict key can be hashed
      and every scope holds its dicts. What it then returns are the records, each in its place; what
      it reports otherwise is a fault the payload has. */
  lemma {:induction false} DecodeExactly(table: seq<Node>, eq: Equality, roots: seq<Enc>)
    ensures DecodeGraph(table, eq, roots).Ok? <==> Faultless(table, roots)
    ensures DecodeGraph(table, eq, roots).Err? ==> Fault(table, roots, DecodeGraph(table, eq, roots).error)
    ensures DecodeGraph(table, eq, roots).Ok? ==>
      var (h, vs) := DecodeGraph(table, eq, roots).value;
      && |h| == |table| && |vs| == |roots|
      && (forall j :: 0 <= j < |table| ==> FillNode(table, eq, table[j]) == Ok(h[j]))
      && (forall i :: 0 <= i < |roots| ==> Denote(table, roots[i]) == Some(vs[i]))
  {
    hide BuildFrom, FillFrom, FillNode, WellFormed, BadKey, BadScopeNode, HasTupleCycle, Denote;
    if BadNode in table {
      var j :| 0 <= j < |table| && table[j] == BadNode;
      BadForm(table);
      assert !WellFormed(table, table[j]);
    } else {
      var log, h := BuildFrom(table, 0, []), FillFrom(table, eq, 0, []);
      if log.Err? { BuildFaults(table, 0, []); }
      FillFromExactly(table, eq, 0, []);
      forall j | 0 <= j < |table| ensures
        && (FillNode(table, eq, table[j]).Ok? <==>
              && WellFormed(table, table[j]) && !BadScopeNode(table, table[j])
              && forall i: nat :: !BadKey(table, table[j], i))
      {
        FillNodeExactly(table, eq, table[j]);
      }
      if h.Ok? {
        AllTuplesReadable(table);
        TupleCycleExactly(table);
      } else {
        var j :| 0 <= j < |table| && FillNode(table, eq, table[j]) == Err(h.error);
        FillNodeExactly(table, eq, table[j]);
      }
    }
  }

  lemma {:induction false} BadForm(table: seq<Node>)
    ensures !WellFormed(table, BadNode)
  {
  }

  lemma {:induction false} AllTuplesReadable(table: seq<Node>)
    requires forall j :: 0 <= j < |table| ==> WellFormed(table, table[j])
    ensures ReadableTable(table)
  {
    hide Denote;
  }

  /** What a list, tuple, bytearray or scope holds once its record is accepted; a dict holds its
      pairs assigned in order. */
  lemma {:induction false} FilledAs(table: seq<Node>, eq: Equality, n: Node)
    requires FillNode(table, eq, n).Ok?
    ensures
      var o := FillNode(table, eq, n).value;
      && n.Node? && o.kind == n.kind
      && (n.kind == ByteArray ==> o.items == [] && o.data == n.data)
      && (n.kind == List || n.kind == Tuple || n.kind == Scope ==>
            && o.data == [] && |o.items| == |n.items|
            && forall i :: 0 <= i < |n.items| ==> Denote(table, n.items[i]) == Some(o.items[i]))
      && (n.kind == Dict ==> o.data == [] && FillDict(table, eq, n.items, []) == Ok(o.items))
  {
    hide Denote, FillDict;
    if n.Node? && (n.kind == List || n.kind == Tuple || n.kind == Scope) {
      forall i | 0 <= i < |n.items| ensures Denote(table, n.items[i]).Some? { }
    }
  }

  /** One pair after another is assigned. */
  lemma {:induction false} FillDictSteps(table: seq<Node>, eq: Equality, es: seq<Enc>, k: Enc, v: Enc, acc: seq<Value>)
    requires Closed(Skeleton(table), acc) && FillDict(table, eq, [k, v] + es, acc).Ok?
    ensures Denote(table, k).Some? && Denote(table, v).Some?
    ensures InHeap(Skeleton(table), Denote(table, k).value) && InHeap(Skeleton(table), Denote(table, v).value)
    ensures FillDict(table, eq, [k, v] + es, acc) ==
      FillDict(table, eq, es, DictPut(Skeleton(table), eq, acc, Denote(table, k).value, Denote(table, v).value))
  {
    var all := [k, v] + es;
    assert all[0] == k && all[1] == v && all[2..] == es;
    hide DictPut, UnhashableWithin;
  }
}
