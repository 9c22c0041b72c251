/** The order in which the encoder numbers containers: depth first, from left to right, each
    before what it holds. It can be read off the payload. */
module GraphOrder {
  import opened Wrappers
  import opened PyHeap
  import opened GraphEncoder

  /** Reads records from left to right, following each reference to a container not met before.
      Such a reference must carry the next number, `k`; the result is the next number after them. */
  function Scan(table: seq<Node>, es: seq<Enc>, k: nat): (r: Option<nat>)
    requires k <= |table|
    ensures r.Some? ==> k <= r.value <= |table|
    decreases |table| - k, 1, |es|
  {
    if es == [] then Some(k)
    else
      var first := ScanOne(table, es[0], k);
      if first.None? then None else Scan(table, es[1..], first.value)
  }

  function ScanOne(table: seq<Node>, e: Enc, k: nat): (r: Option<nat>)
    requires k <= |table|
    ensures r.Some? ==> k <= r.value <= |table|
    decreases |table| - k, 0, 0
  {
    if !e.Pointer? || 0 <= e.node < k then Some(k)
    else if e.node == k && k < |table| && table[k].Node? then Scan(table, table[k].items, k + 1)
    else None
  }

  /** Every number given out so far is below the next one. */
  ghost predicate NumbersBelow(st: State) { forall i :: i in st.memo ==> st.memo[i] < |st.nodes| }

  /** `b` keeps the nodes of `a`, finished or not. */
  ghost predicate Keeps(a: State, b: State) { |a.nodes| <= |b.nodes| && b.nodes[..|a.nodes|] == a.nodes }

  /** The nodes of `st` from `k` on are finished, and stand so in `table`. */
  ghost predicate Settled(table: seq<Node>, st: State, k: nat)
  {
    |st.nodes| <= |table| && forall j :: k <= j < |st.nodes| ==> st.nodes[j] == Some(table[j])
  }

  lemma {:induction false} KeptByValue(h: Heap, v: Value, st: State)
    requires ClosedHeap(h) && InHeap(h, v) && EncodeValue(h, v, st).Some? && NumbersBelow(st)
    ensures var st' := EncodeValue(h, v, st).value.1; Keeps(st, st') && NumbersBelow(st')
    decreases Unseen(h, st.memo), 0, 0
  {
    if v.Ref? && v.id !in st.memo {
      var i := v.id;
      assert i in Unseen(h, st.memo) && i !in Unseen(h, Enter(st, i).memo);
      KeptByItems(h, h[i].items, Enter(st, i));
      var mid := EncodeItems(h, h[i].items, Enter(st, i)).value.1;
      hide EncodeItems;
      assert mid.nodes[..|st.nodes|] == mid.nodes[..|st.nodes| + 1][..|st.nodes|];
    }
  }

  lemma {:induction false} KeptByItems(h: Heap, vs: seq<Value>, st: State)
    requires ClosedHeap(h) && Closed(h, vs) && EncodeItems(h, vs, st).Some? && NumbersBelow(st)
    ensures var st' := EncodeItems(h, vs, st).value.1; Keeps(st, st') && NumbersBelow(st')
    decreases Unseen(h, st.memo), 1, |vs|
  {
    hide EncodeValue, NumbersBelow;
    if vs != [] {
      KeptByValue(h, vs[0], st);
      var mid := EncodeValue(h, vs[0], st).value.1;
      assert Unseen(h, mid.memo) <= Unseen(h, st.memo);
      KeptByItems(h, vs[1..], mid);
      var end := EncodeItems(h, vs[1..], mid).value.1;
      assert end.nodes[..|st.nodes|] == end.nodes[..|mid.nodes|][..|st.nodes|];
    }
  }

  lemma {:induction false} ScannedValue(h: Heap, v: Value, st: State, table: seq<Node>)
    requires ClosedHeap(h) && InHeap(h, v) && EncodeValue(h, v, st).Some? && NumbersBelow(st)
    requires Settled(table, EncodeValue(h, v, st).value.1, |st.nodes|)
    ensures var (e, st') := EncodeValue(h, v, st).value;
      ScanOne(table, e, |st.nodes|) == Some(|st'.nodes|)
    decreases Unseen(h, st.memo), 0, 0
  {
    if v.Ref? && v.id !in st.memo {
      var i, k := v.id, |st.nodes|;
      assert i in Unseen(h, st.memo) && i !in Unseen(h, Enter(st, i).memo);
      var (items, mid) := EncodeItems(h, h[i].items, Enter(st, i)).value;
      KeptByItems(h, h[i].items, Enter(st, i));
      var end := EncodeValue(h, v, st).value.1;
      hide EncodeItems, Scan;
      assert table[k] == Node(h[i].kind, items, h[i].data);
      forall j | k + 1 <= j < |mid.nodes| ensures mid.nodes[j] == Some(table[j]) {
        assert end.nodes[j] == mid.nodes[j];
      }
      ScannedItems(h, h[i].items, Enter(st, i), table);
    }
  }

  lemma {:induction false} ScannedItems(h: Heap, vs: seq<Value>, st: State, table: seq<Node>)
    requires ClosedHeap(h) && Closed(h, vs) && EncodeItems(h, vs, st).Some? && NumbersBelow(st)
    requires Settled(table, EncodeItems(h, vs, st).value.1, |st.nodes|)
    ensures var (es, st') := EncodeItems(h, vs, st).value;
      Scan(table, es, |st.nodes|) == Some(|st'.nodes|)
    decreases Unseen(h, st.memo), 1, |vs|
  {
    hide EncodeValue, NumbersBelow, ScanOne;
    if vs != [] {
      KeptByValue(h, vs[0], st);
      var (e, mid) := EncodeValue(h, vs[0], st).value;
      assert Unseen(h, mid.memo) <= Unseen(h, st.memo);
      KeptByItems(h, vs[1..], mid);
      var (es, end) := EncodeItems(h, vs[1..], mid).value;
      forall j | |st.nodes| <= j < |mid.nodes| ensures mid.nodes[j] == Some(table[j]) {
        assert end.nodes[..|mid.nodes|][j] == mid.nodes[j];
      }
      ScannedValue(h, vs[0], st, table);
      ScannedItems(h, vs[1..], mid, table);
      assert ([e] + es)[1..] == es;
    }
  }

  /** Every payload numbers its containers in the order in which a reader meets them. */
  lemma {:induction false} NumberedInOrder(h: Heap, roots: seq<Value>)
    requires ClosedHeap(h) && Closed(h, roots) && EncodeGraph(h, roots).Some?
    ensures var (es, table) := EncodeGraph(h, roots).value; Scan(table, es, 0) == Some(|table|)
  {
    EncodeItemsInv(h, roots, Fresh, {});
    var (es, st) := EncodeItems(h, roots, Fresh).value;
    var table := Written(st.nodes);
    hide EncodeItems, Scan;
    forall j | 0 <= j < |st.nodes| ensures st.nodes[j] == Some(table[j]) {
      assert Numbers(st.memo, j);
    }
    ScannedItems(h, roots, Fresh, table);
  }
}
