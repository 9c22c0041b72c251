/** `_PythonGraphEncoder`: a heap flattened into a table of node records. */
module GraphEncoder {
  import opened Wrappers
  import opened Ordering
  import opened PyHeap
  import Decimal

  /** A scalar record: integers as decimal text, everything else carried unchanged. */
  datatype Code = IntText(text: string) | Copied(scalar: Scalar)

  /** An encoded value: a scalar record, a reference to a node, or neither. */
  datatype Enc = Plain(code: Code) | Pointer(node: int) | BadValue

  datatype Node = Node(kind: Kind, items: seq<Enc>, data: seq<byte>) | BadNode

  function EncodeScalar(s: Scalar): Code { if s.Integer? then IntText(Decimal.Format(s.n)) else Copied(s) }

  /** The encoder's fields: `nodes`, with a hole for each node still being written, and `memo`. */
  datatype State = State(nodes: seq<Option<Node>>, memo: map<nat, nat>)

  ghost predicate Grows(a: State, b: State)
  {
    && |a.nodes| <= |b.nodes|
    && forall i :: i in a.memo ==> i in b.memo && b.memo[i] == a.memo[i]
  }

  function Unseen(h: Heap, memo: map<nat, nat>): set<nat>
  {
    set i | 0 <= i < |h| && i !in memo
  }

  function Enter(st: State, i: nat): State { State(st.nodes + [None], st.memo[i := |st.nodes|]) }

  /** `encode` and `_encode_node`; nothing when an unsupported object is met. */
  function EncodeValue(h: Heap, v: Value, st: State): (r: Option<(Enc, State)>)
    requires ClosedHeap(h) && InHeap(h, v)
    ensures r.Some? ==> Grows(st, r.value.1)
    decreases Unseen(h, st.memo), 0, 0
  {
    match v
    case Leaf(s) => Some((Plain(EncodeScalar(s)), st))
    case Foreign(_) => None
    case Ref(i) =>
      if i in st.memo then Some((Pointer(st.memo[i]), st))
      else
        assert i in Unseen(h, st.memo) && i !in Unseen(h, Enter(st, i).memo);
        var inner := EncodeItems(h, h[i].items, Enter(st, i));
        if inner.None? then None
        else
          var (items, st') := inner.value;
          var id := |st.nodes|;
          Some((Pointer(id), st'.(nodes := st'.nodes[id := Some(Node(h[i].kind, items, h[i].data))])))
  }

  function EncodeItems(h: Heap, vs: seq<Value>, st: State): (r: Option<(seq<Enc>, State)>)
    requires ClosedHeap(h) && Closed(h, vs)
    ensures r.Some? ==> Grows(st, r.value.1) && |r.value.0| == |vs|
    decreases Unseen(h, st.memo), 1, |vs|
  {
    if vs == [] then Some(([], st))
    else
      var first := EncodeValue(h, vs[0], st);
      if first.None? then None
      else
        var (e, st1) := first.value;
        assert Unseen(h, st1.memo) <= Unseen(h, st.memo);
        var rest := EncodeItems(h, vs[1..], st1);
        if rest.None? then None else Some(([e] + rest.value.0, rest.value.1))
  }

  // ------------------------------------------------------- what the table is

  /** The record of `v` once every container it reaches has its number. */
  function Image(memo: map<nat, nat>, v: Value): Enc
  {
    match v
    case Leaf(s) => Plain(EncodeScalar(s))
    case Ref(i) => if i in memo then Pointer(memo[i]) else BadValue
    case Foreign(_) => BadValue
  }

  function ImageAll(memo: map<nat, nat>, vs: seq<Value>): (r: seq<Enc>)
    ensures |r| == |vs|
    ensures forall i :: 0 <= i < |vs| ==> r[i] == Image(memo, vs[i])
  {
    seq(|vs|, i requires 0 <= i < |vs| => Image(memo, vs[i]))
  }

  function ImageNode(memo: map<nat, nat>, o: Obj): Node { Node(o.kind, ImageAll(memo, o.items), o.data) }

  ghost predicate Supported(vs: seq<Value>) { forall i :: 0 <= i < |vs| ==> !vs[i].Foreign? }

  /** `memo` numbers the visited containers 0, 1, 2, ... without gaps or repeats. */
  ghost predicate Numbering(memo: map<nat, nat>, n: nat)
  {
    && Injective(memo)
    && (forall i :: i in memo ==> memo[i] < n)
    && (forall j :: 0 <= j < n ==> Numbers(memo, j))
  }

  ghost predicate Numbers(memo: map<nat, nat>, j: nat) { exists i :: i in memo && memo[i] == j }

  /** Every visited container that is not still being written has its final record. */
  ghost predicate Inv(h: Heap, st: State, open: set<nat>)
  {
    && Numbering(st.memo, |st.nodes|)
    && (forall i :: i in open ==> i in st.memo)
    && (forall i :: i in st.memo ==> i < |h|)
    && (forall i :: i in st.memo && i !in open ==>
          && Covers(st.memo, h[i].items) && Supported(h[i].items)
          && st.nodes[st.memo[i]] == Some(ImageNode(st.memo, h[i])))
  }

  lemma {:induction false} ImageStable(a: map<nat, nat>, b: map<nat, nat>, vs: seq<Value>)
    requires Covers(a, vs) && forall i :: i in a ==> i in b && b[i] == a[i]
    ensures Covers(b, vs) && ImageAll(b, vs) == ImageAll(a, vs)
  {
  }

  lemma {:induction false} ImageExtends(a: map<nat, nat>, b: map<nat, nat>, v: Value)
    requires Covers(a, [v]) && forall i :: i in a ==> i in b && b[i] == a[i]
    ensures Covers(b, [v]) && Image(b, v) == Image(a, v)
  {
    assert [v][0] == v;
  }

  lemma {:induction false} ImageCons(memo: map<nat, nat>, vs: seq<Value>)
    requires vs != [] && Covers(memo, [vs[0]]) && Covers(memo, vs[1..])
    ensures ImageAll(memo, vs) == [Image(memo, vs[0])] + ImageAll(memo, vs[1..])
    ensures Covers(memo, vs)
  {
    forall i | 0 <= i < |vs| && vs[i].Ref? ensures vs[i].id in memo {
      if i == 0 { assert [vs[0]][0].Ref?; } else { assert vs[1..][i - 1].Ref?; }
    }
  }

  lemma {:induction false} EnterInv(h: Heap, st: State, i: nat, open: set<nat>)
    requires Inv(h, st, open) && i < |h| && i !in st.memo
    ensures Inv(h, Enter(st, i), open + {i})
  {
    var st' := Enter(st, i);
    forall j | 0 <= j < |st'.nodes| ensures Numbers(st'.memo, j) {
      if j < |st.nodes| {
        assert Numbers(st.memo, j);
        var k :| k in st.memo && st.memo[k] == j;
        assert st'.memo[k] == j;
      } else {
        assert st'.memo[i] == j;
      }
    }
    forall k | k in st'.memo && k !in open + {i}
      ensures Covers(st'.memo, h[k].items) && Supported(h[k].items)
      ensures st'.nodes[st'.memo[k]] == Some(ImageNode(st'.memo, h[k]))
    {
      ImageStable(st.memo, st'.memo, h[k].items);
    }
  }

  lemma {:induction false} LeaveInv(h: Heap, st: State, i: nat, open: set<nat>)
    requires Inv(h, st, open + {i}) && i in st.memo && i !in open
    requires Covers(st.memo, h[i].items) && Supported(h[i].items)
    ensures Inv(h, st.(nodes := st.nodes[st.memo[i] := Some(ImageNode(st.memo, h[i]))]), open)
  {
  }

  /** A finished traversal records exactly the image of what it visited. */
  lemma {:induction false} EncodeValueInv(h: Heap, v: Value, st: State, open: set<nat>)
    requires ClosedHeap(h) && InHeap(h, v) && Inv(h, st, open)
    requires EncodeValue(h, v, st).Some?
    ensures var (e, st') := EncodeValue(h, v, st).value;
      Inv(h, st', open) && Covers(st'.memo, [v]) && !v.Foreign? && e == Image(st'.memo, v)
    decreases Unseen(h, st.memo), 0, 0
  {
    if v.Ref? && v.id !in st.memo {
      var i := v.id;
      assert i in Unseen(h, st.memo) && i !in Unseen(h, Enter(st, i).memo);
      EnterInv(h, st, i, open);
      EncodeItemsInv(h, h[i].items, Enter(st, i), open + {i});
      var (items, st') := EncodeItems(h, h[i].items, Enter(st, i)).value;
      assert items == ImageAll(st'.memo, h[i].items);
      LeaveInv(h, st', i, open);
    }
  }

  lemma {:induction false} EncodeItemsInv(h: Heap, vs: seq<Value>, st: State, open: set<nat>)
    requires ClosedHeap(h) && Closed(h, vs) && Inv(h, st, open)
    requires EncodeItems(h, vs, st).Some?
    ensures var (es, st') := EncodeItems(h, vs, st).value;
      Inv(h, st', open) && Covers(st'.memo, vs) && Supported(vs) && es == ImageAll(st'.memo, vs)
    decreases Unseen(h, st.memo), 1, |vs|
  {
    hide EncodeValue, Inv, ImageAll, Image;
    if vs != [] {
      var (e, st1) := EncodeValue(h, vs[0], st).value;
      EncodeValueInv(h, vs[0], st, open);
      assert Unseen(h, st1.memo) <= Unseen(h, st.memo);
      EncodeItemsInv(h, vs[1..], st1, open);
      var (es, st') := EncodeItems(h, vs[1..], st1).value;
      ImageExtends(st1.memo, st'.memo, vs[0]);
      ImageCons(st'.memo, vs);
    }
  }

  // ------------------------------------------------------- canonical form

  /** The two traversals have numbered corresponding containers alike. */
  ghost predicate SameNumbers(f: map<nat, nat>, a: map<nat, nat>, b: map<nat, nat>)
  {
    forall i :: i in f ==> (i in a <==> f[i] in b) && (i in a ==> b[f[i]] == a[i])
  }

  ghost predicate InStep(f: map<nat, nat>, a: State, b: State)
  {
    a.nodes == b.nodes && SameNumbers(f, a.memo, b.memo)
  }

  /** Encoding corresponding values of isomorphic heaps takes the same steps. */
  lemma {:induction false} CanonicalValue(h: Heap, h': Heap, f: map<nat, nat>, v: Value, st: State, st': State)
    requires ClosedHeap(h) && ClosedHeap(h') && Iso(h, h', f)
    requires InHeap(h, v) && Covers(f, [v]) && InHeap(h', Rename(f, v)) && InStep(f, st, st')
    ensures var a, b := EncodeValue(h, v, st), EncodeValue(h', Rename(f, v), st');
      (a.None? <==> b.None?) && (a.Some? ==> a.value.0 == b.value.0 && InStep(f, a.value.1, b.value.1))
    decreases Unseen(h, st.memo), 0, 0
  {
    assert [v][0] == v;
    if v.Ref? && v.id !in st.memo {
      var i := v.id;
      assert i in Unseen(h, st.memo) && i !in Unseen(h, Enter(st, i).memo);
      assert InStep(f, Enter(st, i), Enter(st', f[i]));
      CanonicalItems(h, h', f, h[i].items, Enter(st, i), Enter(st', f[i]));
    }
  }

  lemma {:induction false} CanonicalItems(h: Heap, h': Heap, f: map<nat, nat>, vs: seq<Value>, st: State, st': State)
    requires ClosedHeap(h) && ClosedHeap(h') && Iso(h, h', f)
    requires Closed(h, vs) && Covers(f, vs) && Closed(h', RenameAll(f, vs)) && InStep(f, st, st')
    ensures var a, b := EncodeItems(h, vs, st), EncodeItems(h', RenameAll(f, vs), st');
      (a.None? <==> b.None?) && (a.Some? ==> a.value.0 == b.value.0 && InStep(f, a.value.1, b.value.1))
    decreases Unseen(h, st.memo), 1, |vs|
  {
    hide EncodeValue, Iso, InStep;
    if vs != [] {
      assert RenameAll(f, vs)[1..] == RenameAll(f, vs[1..]);
      assert RenameAll(f, vs)[0] == Rename(f, vs[0]);
      CanonicalValue(h, h', f, vs[0], st, st');
      var a := EncodeValue(h, vs[0], st);
      if a.Some? {
        assert Unseen(h, a.value.1.memo) <= Unseen(h, st.memo);
        CanonicalItems(h, h', f, vs[1..], a.value.1, EncodeValue(h', Rename(f, vs[0]), st').value.1);
      }
    }
  }

  // ------------------------------------------------- whole-graph encoding

  const Fresh := State([], map[])

  function Written(nodes: seq<Option<Node>>): (r: seq<Node>)
    ensures |r| == |nodes|
  {
    seq(|nodes|, i requires 0 <= i < |nodes| => if nodes[i].Some? then nodes[i].value else BadNode)
  }

  /** The records of several roots encoded in order by one encoder, and its node table. */
  function EncodeGraph(h: Heap, roots: seq<Value>): Option<(seq<Enc>, seq<Node>)>
    requires ClosedHeap(h) && Closed(h, roots)
  {
    var r := EncodeItems(h, roots, Fresh);
    if r.None? then None else Some((r.value.0, Written(r.value.1.nodes)))
  }

  ghost function MemoOf(h: Heap, roots: seq<Value>): map<nat, nat>
    requires ClosedHeap(h) && Closed(h, roots) && EncodeGraph(h, roots).Some?
  {
    EncodeItems(h, roots, Fresh).value.1.memo
  }

  /** `memo` numbers a set of containers closed under reference, and the table holds the
      record of each at its number. */
  ghost predicate TableOf(h: Heap, roots: seq<Value>, es: seq<Enc>, table: seq<Node>, memo: map<nat, nat>)
  {
    && Numbering(memo, |table|)
    && Covers(memo, roots) && Supported(roots) && es == ImageAll(memo, roots)
    && forall i :: i in memo ==>
         && i < |h| && Covers(memo, h[i].items) && Supported(h[i].items)
         && table[memo[i]] == ImageNode(memo, h[i])
  }

  /** The payload is exactly the image of the graph under the memo. */
  lemma {:induction false} EncodedTable(h: Heap, roots: seq<Value>)
    requires ClosedHeap(h) && Closed(h, roots) && EncodeGraph(h, roots).Some?
    ensures var (es, table) := EncodeGraph(h, roots).value; TableOf(h, roots, es, table, MemoOf(h, roots))
  {
    EncodeItemsInv(h, roots, Fresh, {});
  }

  /** Isomorphic heaps have the identical payload: the encoding is a canonical form. */
  lemma {:induction false} CanonicalForm(h: Heap, h': Heap, f: map<nat, nat>, roots: seq<Value>)
    requires ClosedHeap(h) && ClosedHeap(h') && Iso(h, h', f)
    requires Closed(h, roots) && Covers(f, roots) && Closed(h', RenameAll(f, roots))
    ensures EncodeGraph(h, roots) == EncodeGraph(h', RenameAll(f, roots))
  {
    CanonicalItems(h, h', f, roots, Fresh, Fresh);
  }

  /** Only what the roots reach is numbered: the numbered containers lie in every set that
      holds the roots' containers and is closed under reference. */
  lemma {:induction false} VisitedValue(h: Heap, v: Value, st: State, s: set<nat>)
    requires ClosedHeap(h) && InHeap(h, v) && EncodeValue(h, v, st).Some?
    requires v.Ref? ==> v.id in s
    requires forall i :: i in s && i < |h| ==> ReferencesIn(h[i].items, s)
    requires forall i :: i in st.memo ==> i in s
    ensures forall i :: i in EncodeValue(h, v, st).value.1.memo ==> i in s
    decreases Unseen(h, st.memo), 0, 0
  {
    if v.Ref? && v.id !in st.memo {
      var i := v.id;
      assert i in Unseen(h, st.memo) && i !in Unseen(h, Enter(st, i).memo);
      VisitedItems(h, h[i].items, Enter(st, i), s);
    }
  }

  lemma {:induction false} VisitedItems(h: Heap, vs: seq<Value>, st: State, s: set<nat>)
    requires ClosedHeap(h) && Closed(h, vs) && EncodeItems(h, vs, st).Some?
    requires ReferencesIn(vs, s)
    requires forall i :: i in s && i < |h| ==> ReferencesIn(h[i].items, s)
    requires forall i :: i in st.memo ==> i in s
    ensures forall i :: i in EncodeItems(h, vs, st).value.1.memo ==> i in s
    decreases Unseen(h, st.memo), 1, |vs|
  {
    hide EncodeValue;
    if vs != [] {
      VisitedValue(h, vs[0], st, s);
      var st1 := EncodeValue(h, vs[0], st).value.1;
      assert Unseen(h, st1.memo) <= Unseen(h, st.memo);
      VisitedItems(h, vs[1..], st1, s);
    }
  }

  ghost predicate ReferencesIn(vs: seq<Value>, s: set<nat>)
  {
    forall i :: 0 <= i < |vs| && vs[i].Ref? ==> vs[i].id in s
  }

  /** The table numbers exactly the containers reachable from the roots. */
  lemma {:induction false} NumbersReachable(h: Heap, roots: seq<Value>, s: set<nat>)
    requires ClosedHeap(h) && Closed(h, roots) && EncodeGraph(h, roots).Some?
    requires ReferencesIn(roots, s)
    requires forall i :: i in s && i < |h| ==> ReferencesIn(h[i].items, s)
    ensures ReferencesIn(roots, MemoOf(h, roots).Keys)
    ensures forall i :: i in MemoOf(h, roots) ==> i in s && i < |h| && ReferencesIn(h[i].items, MemoOf(h, roots).Keys)
  {
    EncodedTable(h, roots);
    VisitedItems(h, roots, Fresh, s);
  }

  // ------------------------------------------------- when encoding is refused

  /** Each value of `p` is held by the container before it. */
  ghost predicate Chain(h: Heap, p: seq<Value>)
  {
    && p != []
    && forall k :: 0 <= k < |p| - 1 ==> p[k].Ref? && p[k].id < |h| && p[k + 1] in h[p[k].id].items
  }

  ghost predicate ReachesForeign(h: Heap, roots: seq<Value>)
  {
    exists p: seq<Value> :: Chain(h, p) && p[0] in roots && p[|p| - 1].Foreign?
  }

  lemma {:induction false} RefusedValue(h: Heap, v: Value, st: State) returns (p: seq<Value>)
    requires ClosedHeap(h) && InHeap(h, v) && EncodeValue(h, v, st).None?
    ensures Chain(h, p) && p[0] == v && p[|p| - 1].Foreign?
    decreases Unseen(h, st.memo), 0, 0
  {
    if v.Foreign? {
      p := [v];
    } else {
      var i := v.id;
      assert i in Unseen(h, st.memo) && i !in Unseen(h, Enter(st, i).memo);
      var q := RefusedItems(h, h[i].items, Enter(st, i));
      p := [v] + q;
      assert forall k :: 0 < k < |p| ==> p[k] == q[k - 1];
    }
  }

  lemma {:induction false} RefusedItems(h: Heap, vs: seq<Value>, st: State) returns (p: seq<Value>)
    requires ClosedHeap(h) && Closed(h, vs) && EncodeItems(h, vs, st).None?
    ensures Chain(h, p) && p[0] in vs && p[|p| - 1].Foreign?
    decreases Unseen(h, st.memo), 1, |vs|
  {
    hide EncodeValue;
    var first := EncodeValue(h, vs[0], st);
    if first.None? {
      p := RefusedValue(h, vs[0], st);
    } else {
      assert Unseen(h, first.value.1.memo) <= Unseen(h, st.memo);
      p := RefusedItems(h, vs[1..], first.value.1);
    }
  }

  lemma {:induction false} ChainSupported(h: Heap, roots: seq<Value>, es: seq<Enc>, table: seq<Node>, memo: map<nat,
                                          nat>, p: seq<Value>, k: nat)
    requires TableOf(h, roots, es, table, memo) && Chain(h, p) && p[0] in roots && k < |p|
    ensures !p[k].Foreign? && (p[k].Ref? ==> p[k].id in memo)
  {
    if k > 0 {
      ChainSupported(h, roots, es, table, memo, p, k - 1);
      assert p[k] in h[p[k - 1].id].items;
    }
  }

  /** A checkpoint is refused exactly when an unsupported object is reachable. */
  lemma {:induction false} RefusedExactly(h: Heap, roots: seq<Value>)
    requires ClosedHeap(h) && Closed(h, roots)
    ensures EncodeGraph(h, roots).None? <==> ReachesForeign(h, roots)
  {
    if EncodeGraph(h, roots).None? {
      var p := RefusedItems(h, roots, Fresh);
    } else {
      var (es, table) := EncodeGraph(h, roots).value;
      EncodedTable(h, roots);
      forall p: seq<Value> | Chain(h, p) && p[0] in roots ensures !p[|p| - 1].Foreign? {
        ChainSupported(h, roots, es, table, MemoOf(h, roots), p, |p| - 1);
      }
    }
  }
}
