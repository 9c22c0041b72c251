/** Decoding what was encoded gives back an isomorphic heap. */
module GraphTheorems {
  import opened Wrappers
  import opened Ordering
  import opened PyHeap
  import opened GraphEncoder
  import opened GraphDecoder
  import Decimal

  // ------------------------------------------------- heaps Python can hold

  ghost predicate ValidScalars(vs: seq<Value>)
  {
    forall i :: 0 <= i < |vs| && vs[i].Leaf? ==> ValidScalar(vs[i].scalar)
  }

  /** Keys are hashable and pairwise unequal, at every depth of tuple nesting. */
  ghost predicate GoodKeys(h: Heap, eq: Equality, items: seq<Value>)
    requires ClosedHeap(h) && Closed(h, items)
  {
    && |items| % 2 == 0
    && (forall n: nat, i :: 0 <= i < |items| && i % 2 == 0 ==> !UnhashableWithin(h, n, items[i]))
    && (forall n: nat, i, j :: 0 <= i < j < |items| && i % 2 == 0 && j % 2 == 0 ==>
          !EqualWithin(h, eq, n, items[i], items[j]))
  }

  predicate HoldsDict(h: Heap, v: Value) { v.Ref? && v.id < |h| && h[v.id].kind == Dict }

  ghost predicate GoodObject(h: Heap, eq: Equality, o: Obj)
    requires ClosedHeap(h) && Closed(h, o.items)
  {
    && ValidScalars(o.items)
    && (o.kind == ByteArray ==> o.items == [])
    && (o.kind != ByteArray ==> o.data == [])
    && (o.kind == Dict ==> GoodKeys(h, eq, o.items))
    && (o.kind == Scope ==> |o.items| == 2)
  }

  /** A scope's bindings are a dict and its wire bindings a dict or nothing, as its constructor
      leaves them; either attribute can be reassigned. */
  predicate ScopeHoldsDicts(h: Heap, o: Obj)
  {
    o.kind == Scope && |o.items| == 2 ==>
      HoldsDict(h, o.items[0]) && (o.items[1] == Leaf(Nothing) || HoldsDict(h, o.items[1]))
  }

  ghost predicate BrokenScope(h: Heap, s: set<nat>)
  {
    exists i :: i in s && i < |h| && !ScopeHoldsDicts(h, h[i])
  }

  ghost predicate GoodHeap(h: Heap, eq: Equality)
  {
    ClosedHeap(h) && forall i :: 0 <= i < |h| ==> GoodObject(h, eq, h[i])
  }

  /** A cycle of tuples inside `s`, which only native code can create. */
  ghost predicate HeapCycle(h: Heap, s: set<nat>)
  {
    exists p: seq<nat> :: HeapPath(h, s, p) && p[0] == p[|p| - 1]
  }

  ghost predicate HeapPath(h: Heap, s: set<nat>, p: seq<nat>)
  {
    && |p| >= 2
    && (forall k :: 0 <= k < |p| ==> p[k] in s && p[k] < |h| && h[p[k]].kind == Tuple)
    && (forall k :: 0 <= k < |p| - 1 ==> Ref(p[k + 1]) in h[p[k]].items)
  }

  // ------------------------------------------------------- records read back

  lemma {:induction false} ScalarRoundTrip(s: Scalar)
    requires ValidScalar(s)
    ensures DecodeScalar(EncodeScalar(s)) == Some(s)
  {
    if s.Integer? { Decimal.ParseFormat(s.n); }
  }

  lemma {:induction false} DenoteImage(table: seq<Node>, memo: map<nat, nat>, v: Value)
    requires Numbering(memo, |table|) && Covers(memo, [v]) && !v.Foreign?
    requires v.Leaf? ==> ValidScalar(v.scalar)
    ensures Denote(table, Image(memo, v)) == Some(Rename(memo, v))
  {
    assert [v][0] == v;
    if v.Leaf? { ScalarRoundTrip(v.scalar); }
  }

  lemma {:induction false} ValuesOfImage(table: seq<Node>, memo: map<nat, nat>, vs: seq<Value>)
    requires Numbering(memo, |table|) && Covers(memo, vs) && Supported(vs) && ValidScalars(vs)
    ensures AllReadable(table, ImageAll(memo, vs))
    ensures Values(table, ImageAll(memo, vs)) == RenameAll(memo, vs)
  {
    forall i | 0 <= i < |vs| ensures Denote(table, ImageAll(memo, vs)[i]) == Some(Rename(memo, vs[i])) {
      assert Covers(memo, [vs[i]]);
      DenoteImage(table, memo, vs[i]);
    }
  }

  // -------------------------------------------------------------- dict keys

  /** Tuples and kinds of `g` mirror those of `h` under `memo`. */
  ghost predicate Mirrors(h: Heap, g: Heap, memo: map<nat, nat>)
  {
    && Injective(memo)
    && forall i :: i in memo ==>
         && i < |h| && memo[i] < |g| && g[memo[i]].kind == h[i].kind
         && (h[i].kind == Tuple ==> Covers(memo, h[i].items) && g[memo[i]].items == RenameAll(memo, h[i].items))
  }

  lemma {:induction false} SameHash(h: Heap, g: Heap, memo: map<nat, nat>, n: nat, v: Value)
    requires ClosedHeap(h) && ClosedHeap(g) && Mirrors(h, g, memo)
    requires InHeap(h, v) && Covers(memo, [v]) && InHeap(g, Rename(memo, v))
    requires UnhashableWithin(g, n, Rename(memo, v))
    ensures UnhashableWithin(h, n, v)
    decreases n
  {
    assert [v][0] == v;
    var o := h[v.id];
    if o.kind == Tuple {
      var items := g[memo[v.id]].items;
      var i :| 0 <= i < |items| && UnhashableWithin(g, n - 1, items[i]);
      assert Covers(memo, [o.items[i]]);
      SameHash(h, g, memo, n - 1, o.items[i]);
    }
  }

  lemma {:induction false} SameEquality(h: Heap, g: Heap, memo: map<nat, nat>, eq: Equality, n: nat, a: Value, b: Value)
    requires ClosedHeap(h) && ClosedHeap(g) && Mirrors(h, g, memo)
    requires InHeap(h, a) && InHeap(h, b) && Covers(memo, [a, b])
    requires InHeap(g, Rename(memo, a)) && InHeap(g, Rename(memo, b))
    requires EqualWithin(g, eq, n, Rename(memo, a), Rename(memo, b))
    ensures EqualWithin(h, eq, n, a, b)
    decreases n
  {
    assert [a, b][0] == a && [a, b][1] == b;
    if a.Ref? && b.Ref? && a.id != b.id {
      var x, y := h[a.id], h[b.id];
      forall i | 0 <= i < |x.items| ensures EqualWithin(h, eq, n - 1, x.items[i], y.items[i]) {
        assert Covers(memo, [x.items[i], y.items[i]]);
        SameEquality(h, g, memo, eq, n - 1, x.items[i], y.items[i]);
      }
    }
  }

  lemma {:induction false} SkeletonMirrors(h: Heap, eq: Equality, roots: seq<Value>, es: seq<Enc>, table: seq<Node>,
                                           memo: map<nat, nat>)
    requires GoodHeap(h, eq) && TableOf(h, roots, es, table, memo)
    ensures Mirrors(h, Skeleton(table), memo)
  {
    forall i | i in memo && h[i].kind == Tuple
      ensures Skeleton(table)[memo[i]].items == RenameAll(memo, h[i].items)
    {
      ValuesOfImage(table, memo, h[i].items);
    }
  }

  ghost predicate NoEqualKey(g: Heap, eq: Equality, items: seq<Value>, k: Value)
    requires ClosedHeap(g) && Closed(g, items) && InHeap(g, k)
  {
    forall i :: 0 <= i < |items| && i % 2 == 0 ==> !EqualWithin(g, eq, |g|, items[i], k)
  }

  lemma {:induction false} PutNewKey(g: Heap, eq: Equality, items: seq<Value>, k: Value, v: Value)
    requires ClosedHeap(g) && Closed(g, items) && InHeap(g, k) && InHeap(g, v)
    requires |items| % 2 == 0 && NoEqualKey(g, eq, items, k)
    ensures DictPut(g, eq, items, k, v) == items + [k, v]
  {
    if items != [] {
      assert NoEqualKey(g, eq, items[2..], k) by {
        forall i | 0 <= i < |items[2..]| && i % 2 == 0 ensures !EqualWithin(g, eq, |g|, items[2..][i], k) {
          assert items[2..][i] == items[i + 2];
        }
      }
      PutNewKey(g, eq, items[2..], k, v);
      assert items == items[..2] + items[2..];
    }
  }

  lemma {:induction false} FreshKey(h: Heap, g: Heap, eq: Equality, memo: map<nat, nat>, items: seq<Value>, n: nat)
    requires ClosedHeap(h) && Closed(h, items) && GoodKeys(h, eq, items) && Covers(memo, items)
    requires ClosedHeap(g) && Mirrors(h, g, memo)
    requires n % 2 == 0 && n < |items| && Closed(g, RenameAll(memo, items))
    ensures n + 1 < |items|
    ensures !UnhashableWithin(g, |g|, RenameAll(memo, items)[n])
    ensures Closed(g, RenameAll(memo, items)[..n])
    ensures NoEqualKey(g, eq, RenameAll(memo, items)[..n], RenameAll(memo, items)[n])
  {
    hide UnhashableWithin, EqualWithin, Mirrors;
    var rs := RenameAll(memo, items);
    assert Covers(memo, [items[n]]);
    if UnhashableWithin(g, |g|, rs[n]) { SameHash(h, g, memo, |g|, items[n]); }
    forall i | 0 <= i < n && i % 2 == 0 ensures !EqualWithin(g, eq, |g|, rs[i], rs[n]) {
      assert Covers(memo, [items[i], items[n]]);
      if EqualWithin(g, eq, |g|, rs[i], rs[n]) { SameEquality(h, g, memo, eq, |g|, items[i], items[n]); }
    }
  }

  lemma {:induction false} FillStep(table: seq<Node>, eq: Equality, es: seq<Enc>, acc: seq<Value>, k: Value, v: Value)
    requires Closed(Skeleton(table), acc) && |es| >= 2 && |acc| % 2 == 0
    requires Denote(table, es[0]) == Some(k) && Denote(table, es[1]) == Some(v)
    requires InHeap(Skeleton(table), k) && InHeap(Skeleton(table), v)
    requires !UnhashableWithin(Skeleton(table), |table|, k) && NoEqualKey(Skeleton(table), eq, acc, k)
    ensures Closed(Skeleton(table), acc + [k, v])
    ensures FillDict(table, eq, es, acc) == FillDict(table, eq, es[2..], acc + [k, v])
  {
    PutNewKey(Skeleton(table), eq, acc, k, v);
    hide DictPut, Denote, UnhashableWithin, EqualWithin, Skeleton;
  }

  lemma {:induction false} FillDone(table: seq<Node>, eq: Equality, acc: seq<Value>)
    requires Closed(Skeleton(table), acc)
    ensures FillDict(table, eq, [], acc) == Ok(acc)
  {
  }

  /** Filling from the image of a dict's items appends them one pair at a time. */
  lemma {:induction false} FillDictImage(h: Heap, eq: Equality, table: seq<Node>, memo: map<nat, nat>,
                                         items: seq<Value>, n: nat)
    requires ClosedHeap(h) && Closed(h, items) && GoodKeys(h, eq, items)
    requires Numbering(memo, |table|) && Covers(memo, items) && Supported(items) && ValidScalars(items)
    requires Mirrors(h, Skeleton(table), memo)
    requires n % 2 == 0 && n <= |items| && Closed(Skeleton(table), RenameAll(memo, items))
    ensures Closed(Skeleton(table), RenameAll(memo, items)[..n])
    ensures FillDict(table, eq, ImageAll(memo, items)[n..], RenameAll(memo, items)[..n]) == Ok(RenameAll(memo, items))
    decreases |items| - n
  {
    hide *;
    var g, es, rs := Skeleton(table), ImageAll(memo, items), RenameAll(memo, items);
    if n == |items| {
      assert es[n..] == [] && rs[..n] == rs;
      FillDone(table, eq, rs);
    } else {
      FreshKey(h, g, eq, memo, items, n);
      DenotePair(table, memo, items, n);
      assert es[n..][2..] == es[n + 2..] && es[n..][0] == es[n] && es[n..][1] == es[n + 1];
      FillStep(table, eq, es[n..], rs[..n], rs[n], rs[n + 1]);
      assert rs[..n] + [rs[n], rs[n + 1]] == rs[..n + 2];
      FillDictImage(h, eq, table, memo, items, n + 2);
    }
  }

  lemma {:induction false} DenotePair(table: seq<Node>, memo: map<nat, nat>, items: seq<Value>, n: nat)
    requires Numbering(memo, |table|) && Covers(memo, items) && Supported(items) && ValidScalars(items)
    requires n + 1 < |items|
    ensures Denote(table, ImageAll(memo, items)[n]) == Some(RenameAll(memo, items)[n])
    ensures Denote(table, ImageAll(memo, items)[n + 1]) == Some(RenameAll(memo, items)[n + 1])
    ensures InHeap(Skeleton(table), RenameAll(memo, items)[n]) && InHeap(Skeleton(table), RenameAll(memo, items)[n + 1])
  {
    assert Covers(memo, [items[n]]) && Covers(memo, [items[n + 1]]);
    DenoteImage(table, memo, items[n]);
    DenoteImage(table, memo, items[n + 1]);
  }

  // ------------------------------------------------------------- round trip

  /** What filling a container's record gives. */
  ghost function Filled(h: Heap, memo: map<nat, nat>, i: nat): Result<Obj, Reject>
    requires i < |h|
  {
    if ScopeHoldsDicts(h, h[i]) then Ok(RenameObj(memo, h[i])) else Err(BadScope)
  }

  lemma {:induction false} FillImage(h: Heap, eq: Equality, roots: seq<Value>, es: seq<Enc>, table: seq<Node>,
                                     memo: map<nat, nat>, i: nat)
    requires GoodHeap(h, eq) && TableOf(h, roots, es, table, memo) && i in memo
    ensures FillNode(table, eq, table[memo[i]]) == Filled(h, memo, i)
  {
    var o := h[i];
    assert table[memo[i]] == ImageNode(memo, o) && Covers(memo, o.items) && Supported(o.items);
    assert GoodObject(h, eq, o);
    if o.kind == Scope {
      FillScope(h, roots, es, table, memo, eq, i);
    } else if o.kind == Dict {
      hide FillDict, TableOf, GoodHeap;
      SkeletonMirrors(h, eq, roots, es, table, memo);
      SkeletonCloses(table, memo, o.items);
      FillDictImage(h, eq, table, memo, o.items, 0);
      assert ImageAll(memo, o.items)[0..] == ImageAll(memo, o.items) && RenameAll(memo, o.items)[..0] == [];
    } else {
      hide TableOf, GoodHeap;
      ValuesOfImage(table, memo, o.items);
    }
  }

  lemma {:induction false} SkeletonCloses(table: seq<Node>, memo: map<nat, nat>, items: seq<Value>)
    requires Numbering(memo, |table|) && Covers(memo, items)
    ensures Closed(Skeleton(table), RenameAll(memo, items))
  {
    hide Skeleton;
  }

  lemma {:induction false} DictsAgree(h: Heap, roots: seq<Value>, es: seq<Enc>, table: seq<Node>, memo: map<nat, nat>,
                                      v: Value)
    requires TableOf(h, roots, es, table, memo) && Covers(memo, [v])
    ensures IsDict(table, Rename(memo, v)) <==> HoldsDict(h, v)
    ensures Rename(memo, v) == Leaf(Nothing) <==> v == Leaf(Nothing)
  {
    assert [v][0] == v;
    if v.Ref? { assert table[memo[v.id]] == ImageNode(memo, h[v.id]); }
  }

  lemma {:induction false} FillScope(h: Heap, roots: seq<Value>, es: seq<Enc>, table: seq<Node>, memo: map<nat, nat>,
                                     eq: Equality, i: nat)
    requires TableOf(h, roots, es, table, memo) && i in memo && h[i].kind == Scope && |h[i].items| == 2
    requires ValidScalars(h[i].items) && h[i].data == []
    ensures FillNode(table, eq, table[memo[i]]) == Filled(h, memo, i)
  {
    var o := h[i];
    assert table[memo[i]] == ImageNode(memo, o) && Covers(memo, o.items) && Supported(o.items);
    ValuesOfImage(table, memo, o.items);
    assert Covers(memo, [o.items[0]]) && Covers(memo, [o.items[1]]);
    DictsAgree(h, roots, es, table, memo, o.items[0]);
    DictsAgree(h, roots, es, table, memo, o.items[1]);
    hide TableOf, IsDict, HoldsDict, Values, Denote, ImageAll;
  }

  lemma {:induction false} FillFromAll(table: seq<Node>, eq: Equality, h: Heap, j: nat)
    requires j <= |table| && |h| == |table|
    requires forall k :: 0 <= k < |table| ==> FillNode(table, eq, table[k]) == Ok(h[k])
    ensures FillFrom(table, eq, j, h[..j]) == Ok(h)
    decreases |table| - j
  {
    hide FillNode;
    if j == |table| {
      assert h[..j] == h;
    } else {
      FillFromAll(table, eq, h, j + 1);
      assert h[..j] + [h[j]] == h[..j + 1];
    }
  }

  /** One scope that is not refilled refuses the whole table. */
  lemma {:induction false} FillFromFails(table: seq<Node>, eq: Equality, j: nat, h: Heap, bad: nat)
    requires j <= bad < |table| && FillNode(table, eq, table[bad]) == Err(BadScope)
    requires forall k :: 0 <= k < |table| ==>
      FillNode(table, eq, table[k]).Ok? || FillNode(table, eq, table[k]) == Err(BadScope)
    ensures FillFrom(table, eq, j, h) == Err(BadScope)
    decreases |table| - j
  {
    hide FillNode;
    var o := FillNode(table, eq, table[j]);
    if o.Ok? { FillFromFails(table, eq, j + 1, h + [o.value], bad); }
  }

  /** The container numbered `j`. */
  ghost function Origin(memo: map<nat, nat>, n: nat, j: nat): (i: nat)
    requires Numbering(memo, n) && j < n
    ensures i in memo && memo[i] == j
  {
    assert Numbers(memo, j);
    var i :| i in memo && memo[i] == j;
    i
  }

  /** The heap that `memo` describes: object `j` is the renamed container numbered `j`. */
  ghost function Renamed(h: Heap, memo: map<nat, nat>, n: nat): (g: Heap)
    requires Numbering(memo, n) && forall i :: i in memo ==> i < |h|
    ensures |g| == n
  {
    seq(n, j requires 0 <= j < n => RenameObj(memo, h[Origin(memo, n, j)]))
  }

  lemma {:induction false} RenamedIso(h: Heap, roots: seq<Value>, es: seq<Enc>, table: seq<Node>, memo: map<nat, nat>)
    requires TableOf(h, roots, es, table, memo)
    ensures Iso(h, Renamed(h, memo, |table|), memo) && ClosedHeap(Renamed(h, memo, |table|))
    ensures Closed(Renamed(h, memo, |table|), RenameAll(memo, roots))
  {
    var g := Renamed(h, memo, |table|);
    forall i | i in memo ensures g[memo[i]] == RenameObj(memo, h[i]) {
      assert Origin(memo, |table|, memo[i]) == i;
    }
  }

  lemma {:induction false} RecordsReadable(h: Heap, eq: Equality, roots: seq<Value>, es: seq<Enc>, table: seq<Node>,
                                           memo: map<nat, nat>)
    requires GoodHeap(h, eq) && TableOf(h, roots, es, table, memo)
    ensures ReadableTable(table) && BadNode !in table
  {
    forall j | 0 <= j < |table| ensures table[j].Node? && AllReadable(table, table[j].items) {
      var i := Origin(memo, |table|, j);
      ValuesOfImage(table, memo, h[i].items);
    }
  }

  lemma {:induction false} EdgeIffHeld(h: Heap, roots: seq<Value>, es: seq<Enc>, table: seq<Node>, memo: map<nat, nat>,
                                       a: nat, b: nat)
    requires TableOf(h, roots, es, table, memo) && a in memo && b in memo
    ensures Edge(table, memo[a], memo[b]) <==>
      h[a].kind == Tuple && h[b].kind == Tuple && Ref(b) in h[a].items
  {
    var items, image := h[a].items, ImageAll(memo, h[a].items);
    if Pointer(memo[b]) in image {
      var k :| 0 <= k < |image| && image[k] == Pointer(memo[b]);
      assert items[k] == Ref(b);
    }
    if Ref(b) in items {
      var k :| 0 <= k < |items| && items[k] == Ref(b);
      assert image[k] == Pointer(memo[b]);
    }
  }

  lemma {:induction false} PathOfTuples(table: seq<Node>, p: seq<nat>, k: nat)
    requires Path(table, p) && k < |p|
    ensures IsTuple(table, p[k])
  {
    if k < |p| - 1 { assert Edge(table, p[k], p[k + 1]); } else { assert Edge(table, p[k - 1], p[k - 1 + 1]); }
  }

  lemma {:induction false} CycleOrigin(h: Heap, roots: seq<Value>, es: seq<Enc>, table: seq<Node>, memo: map<nat, nat>,
                                       p: seq<nat>)
    requires TableOf(h, roots, es, table, memo) && Path(table, p) && p[0] == p[|p| - 1]
    ensures HeapCycle(h, memo.Keys)
  {
    forall k | 0 <= k < |p| ensures IsTuple(table, p[k]) { PathOfTuples(table, p, k); }
    var q := seq(|p|, k requires 0 <= k < |p| => Origin(memo, |table|, p[k]));
    forall k | 0 <= k < |p| - 1 ensures Ref(q[k + 1]) in h[q[k]].items {
      assert Edge(table, p[k], p[k + 1]);
      EdgeIffHeld(h, roots, es, table, memo, q[k], q[k + 1]);
    }
    forall k | 0 <= k < |q| ensures q[k] in memo && h[q[k]].kind == Tuple {
      assert table[p[k]] == ImageNode(memo, h[q[k]]);
    }
    assert HeapPath(h, memo.Keys, q);
  }

  lemma {:induction false} CycleImage(h: Heap, roots: seq<Value>, es: seq<Enc>, table: seq<Node>, memo: map<nat, nat>,
                                      q: seq<nat>)
    requires TableOf(h, roots, es, table, memo) && HeapPath(h, memo.Keys, q) && q[0] == q[|q| - 1]
    ensures HasTupleCycle(table)
  {
    hide ImageNode, Covers, Supported;
    var p := seq(|q|, k requires 0 <= k < |q| => memo[q[k]]);
    forall k | 0 <= k < |p| - 1 ensures Edge(table, p[k], p[k + 1]) {
      assert Ref(q[k + 1]) in h[q[k]].items;
      EdgeIffHeld(h, roots, es, table, memo, q[k], q[k + 1]);
    }
    assert Path(table, p);
    assert Leads(table, p[0], p[0]);
  }

  /** Tuple cycles of the table are tuple cycles of the encoded part of the heap. */
  lemma {:induction false} CycleIffHeapCycle(h: Heap, roots: seq<Value>, es: seq<Enc>, table: seq<Node>, memo: map<nat,
                                             nat>)
    requires TableOf(h, roots, es, table, memo)
    ensures HasTupleCycle(table) <==> HeapCycle(h, memo.Keys)
  {
    hide TableOf;
    if HasTupleCycle(table) {
      var a: nat :| Leads(table, a, a);
      var p: seq<nat> :| Path(table, p) && p[0] == a && p[|p| - 1] == a;
      CycleOrigin(h, roots, es, table, memo, p);
    }
    if HeapCycle(h, memo.Keys) {
      var q: seq<nat> :| HeapPath(h, memo.Keys, q) && q[0] == q[|q| - 1];
      CycleImage(h, roots, es, table, memo, q);
    }
  }

  lemma {:induction false} FillTable(h: Heap, eq: Equality, roots: seq<Value>, es: seq<Enc>, table: seq<Node>,
                                     memo: map<nat, nat>)
    requires GoodHeap(h, eq) && TableOf(h, roots, es, table, memo)
    ensures FillFrom(table, eq, 0, [])
         == if BrokenScope(h, memo.Keys) then Err(BadScope) else Ok(Renamed(h, memo, |table|))
  {
    hide FillNode, FillFrom, TableOf, GoodHeap, ScopeHoldsDicts, RenameObj;
    TableNumbers(h, roots, es, table, memo);
    var g := Renamed(h, memo, |table|);
    forall j | 0 <= j < |table| ensures FillNode(table, eq, table[j]) == Filled(h, memo, Origin(memo, |table|, j)) {
      FillImage(h, eq, roots, es, table, memo, Origin(memo, |table|, j));
    }
    if BrokenScope(h, memo.Keys) {
      var i :| i in memo && i < |h| && !ScopeHoldsDicts(h, h[i]);
      FillImage(h, eq, roots, es, table, memo, i);
      FillFromFails(table, eq, 0, [], memo[i]);
    } else {
      FillFromAll(table, eq, g, 0);
      assert g[..0] == [];
    }
  }

  lemma {:induction false} TableNumbers(h: Heap, roots: seq<Value>, es: seq<Enc>, table: seq<Node>, memo: map<nat, nat>)
    requires TableOf(h, roots, es, table, memo)
    ensures Numbering(memo, |table|) && (forall i :: i in memo ==> i < |h| && memo[i] < |table|)
    ensures Covers(memo, roots) && Supported(roots) && es == ImageAll(memo, roots)
  {
  }

  /** Encoding a heap and decoding the payload gives an isomorphic heap: the memo is a
      bijection from the reachable containers onto the new ones that keeps kinds, contents,
      order and sharing, across all the roots. A cycle of tuples is refused, then a scope
      whose bindings are no longer a dict, and nothing else. */
  lemma {:induction false} RoundTrip(h: Heap, eq: Equality, roots: seq<Value>)
    requires GoodHeap(h, eq) && Closed(h, roots) && ValidScalars(roots)
    requires EncodeGraph(h, roots).Some?
    ensures
      var (es, table) := EncodeGraph(h, roots).value;
      var memo := MemoOf(h, roots);
      var r := DecodeGraph(table, eq, es);
      if HeapCycle(h, memo.Keys) then r == Err(TupleCycle)
      else if BrokenScope(h, memo.Keys) then r == Err(BadScope)
      else
        && r.Ok? && Iso(h, r.value.0, memo) && Numbering(memo, |r.value.0|)
        && Covers(memo, roots) && r.value.1 == RenameAll(memo, roots)
        && ClosedHeap(r.value.0) && Closed(r.value.0, r.value.1)
  {
    hide EncodeGraph, MemoOf, TableOf, GoodObject, HasTupleCycle, HeapCycle, BrokenScope, BuildFrom, FillFrom, Iso,
         ReadableTable, ImageAll, Values, ValidScalars, Renamed;
    var (es, table) := EncodeGraph(h, roots).value;
    var memo := MemoOf(h, roots);
    EncodedTable(h, roots);
    TableNumbers(h, roots, es, table, memo);
    RecordsReadable(h, eq, roots, es, table, memo);
    TupleCycleExactly(table);
    CycleIffHeapCycle(h, roots, es, table, memo);
    RenamedIso(h, roots, es, table, memo);
    FillTable(h, eq, roots, es, table, memo);
    ValuesOfImage(table, memo, roots);
  }

  /** Encoding the decoded heap again reproduces the payload. */
  lemma {:induction false} EncodeAgain(h: Heap, eq: Equality, roots: seq<Value>)
    requires GoodHeap(h, eq) && Closed(h, roots) && ValidScalars(roots)
    requires EncodeGraph(h, roots).Some?
    requires !HeapCycle(h, MemoOf(h, roots).Keys) && !BrokenScope(h, MemoOf(h, roots).Keys)
    ensures
      var (es, table) := EncodeGraph(h, roots).value;
      var r := DecodeGraph(table, eq, es);
      r.Ok? && ClosedHeap(r.value.0) && Closed(r.value.0, r.value.1)
      && EncodeGraph(r.value.0, r.value.1) == Some((es, table))
  {
    RoundTrip(h, eq, roots);
    var (es, table) := EncodeGraph(h, roots).value;
    var g := DecodeGraph(table, eq, es).value.0;
    CanonicalForm(h, g, MemoOf(h, roots), roots);
  }
}
