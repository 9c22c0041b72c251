/** The order in which a payload tree is walked: component by component, by the bytes of the names. */
module KitOrder {
  import opened Wrappers
  import opened Ordering
  import opened KitPaths
  import opened KitTree
  import Utf8

  /** Two paths part at their component `k`, where the first has the name with the smaller bytes. */
  ghost predicate PartAt(p: seq<string>, q: seq<string>, k: nat)
  {
    k < |p| && k < |q| && p[..k] == q[..k] && Smaller(Utf8.Encode(p[k]), Utf8.Encode(q[k]))
  }

  ghost predicate WalkedBefore(p: seq<string>, q: seq<string>) { exists k: nat :: PartAt(p, q, k) }

  ghost predicate InWalkOrder(ls: seq<Leaf>)
  {
    forall i, j :: 0 <= i < j < |ls| ==> WalkedBefore(ls[i].path, ls[j].path)
  }

  ghost predicate NodesNamed(cs: seq<Child>) { forall c :: c in cs ==> WellNamed(c.node) }

  lemma {:induction false} NamedEntries(cs: seq<Child>)
    requires WellNamedAll(cs)
    ensures OsNamedAll(cs) && NodesNamed(cs) && DistinctKeys(cs, NameKey)
    decreases cs, 1
  {
    hide Utf8.Encode;
    if cs != [] {
      NamedEntries(cs[1..]);
      NamedNode(cs[0].node);
      forall c | c in cs ensures WellNamed(c.node) { assert c == cs[0] || c in cs[1..]; }
      forall i, j | 0 <= i < j < |cs| ensures NameKey(cs[i]) != NameKey(cs[j]) {
        if i > 0 {
          assert cs[1..][i - 1] == cs[i] && cs[1..][j - 1] == cs[j];
        } else {
          assert cs[1..][j - 1] == cs[j];
          if NameKey(cs[i]) == NameKey(cs[j]) { Utf8.EncodeInjective(cs[i].name, cs[j].name); }
        }
      }
    }
  }

  lemma {:induction false} NamedNode(n: Node)
    requires WellNamed(n)
    ensures OsNamed(n)
    decreases n, 0
  {
    if n.Dir? { NamedEntries(n.children); }
  }

  /** Files of two neighbouring entries part at the names of the entries. */
  lemma {:induction false} PartHere(base: seq<string>, a: string, b: string, p: seq<string>, q: seq<string>)
    requires base + [a] <= p && base + [b] <= q && LexLt(Utf8.Encode(a), Utf8.Encode(b))
    ensures WalkedBefore(p, q)
  {
    hide Utf8.Encode, LexLt, Smaller;
    LexExactly(Utf8.Encode(a), Utf8.Encode(b));
    var k := |base|;
    assert p[k] == (base + [a])[k] && q[k] == (base + [b])[k];
    assert p[..k] == (base + [a])[..k] && q[..k] == (base + [b])[..k];
    assert PartAt(p, q, k);
  }

  lemma {:induction false} OrderAppend(a: seq<Leaf>, b: seq<Leaf>)
    requires InWalkOrder(a) && InWalkOrder(b)
    requires forall x, y :: x in a && y in b ==> WalkedBefore(x.path, y.path)
    ensures InWalkOrder(a + b)
  {
    hide WalkedBefore;
    var r := a + b;
    forall i, j | 0 <= i < j < |r| ensures WalkedBefore(r[i].path, r[j].path) {
      if j < |a| {
        assert r[i] == a[i] && r[j] == a[j];
      } else if i < |a| {
        assert r[i] == a[i] && r[j] == b[j - |a|] && a[i] in a && b[j - |a|] in b;
      } else {
        assert r[i] == b[i - |a|] && r[j] == b[j - |a|];
      }
    }
  }

  lemma {:induction false} BelowEntry(cs: seq<Child>, base: seq<string>, l: Leaf) returns (c: Child)
    requires l in Flat(cs, base)
    ensures c in cs && base + [c.name] <= l.path
  {
    hide HasExecuteBit, Flat;
    var path, raw := FlatRecords(cs, base, l);
    var i :| 0 <= i < |cs| && cs[i].name == path[0] && LiesAt(cs[i].node, path[1..], raw, l.data);
    c := cs[i];
    assert l.path == base + [c.name] + path[1..];
  }

  lemma {:induction false} BelowNode(n: Node, base: seq<string>, l: Leaf)
    requires l in FlatNode(n, base)
    ensures base <= l.path
  {
    var path, raw := LeafRecords(n, base, l);
  }

  lemma {:induction false} SameElements(a: seq<Leaf>, b: seq<Leaf>, l: Leaf)
    requires multiset(a) == multiset(b) && l in a
    ensures l in b
  {
    assert l in multiset(b);
  }

  lemma {:induction false} VisitOrdered(cs: seq<Child>, prefix: seq<string>, rel: seq<string>, depth: nat)
    requires (forall c :: c in cs ==> Depth(c.node) <= depth) && OsNamedAll(cs) && NodesNamed(cs)
    requires Ascending(cs, NameKey) && prefix != [] && GoodParts(prefix) && GoodParts(rel)
    requires Visit(cs, Join(prefix), rel, depth).Some?
    ensures InWalkOrder(Visit(cs, Join(prefix), rel, depth).value)
    decreases depth, |cs|, 1
  {
    hide VisitNode, FlatNode, Join, SafeRelative, OsName, OsNamed, Depth, GoodParts, InWalkOrder, LexLt,
         WellNamed, WalkedBefore, Flat, GoodPart, Regular;
    if cs == [] {
      NothingOrdered();
    } else {
      var path, base, n := rel + [cs[0].name], prefix + rel, cs[0].node;
      var first, rest := VisitNode(n, Join(prefix), path, depth).value, Visit(cs[1..], Join(prefix), rel, depth).value;
      assert forall c :: c in cs[1..] ==> c in cs;
      assert cs[0] in cs;
      AscendingTail(cs, NameKey);
      VisitOrdered(cs[1..], prefix, rel, depth);
      VisitExactly(cs[1..], prefix, rel, depth);
      SafeSnoc(rel, cs[0].name);
      GoodSnoc(rel, cs[0].name);
      NodeOrdered(n, prefix, path, depth);
      NodeExactly(n, prefix, path, depth);
      assert prefix + path == base + [cs[0].name];
      forall x, y | x in first && y in rest ensures WalkedBefore(x.path, y.path) {
        SameElements(first, FlatNode(n, prefix + path), x);
        BelowNode(n, prefix + path, x);
        SameElements(rest, Flat(cs[1..], base), y);
        var c := BelowEntry(cs[1..], base, y);
        var j :| 0 <= j < |cs[1..]| && cs[1..][j] == c;
        assert cs[j + 1] == c && LexLt(NameKey(cs[0]), NameKey(cs[j + 1]));
        PartHere(base, cs[0].name, c.name, x.path, y.path);
      }
      OrderAppend(first, rest);
    }
  }

  lemma {:induction false} NothingOrdered()
    ensures InWalkOrder([])
  {
  }

  lemma {:induction false} NodeOrdered(n: Node, prefix: seq<string>, path: seq<string>, depth: nat)
    requires Depth(n) <= depth && WellNamed(n) && prefix != [] && path != [] && GoodParts(prefix) && GoodParts(path)
    requires VisitNode(n, Join(prefix), path, depth).Some?
    ensures InWalkOrder(VisitNode(n, Join(prefix), path, depth).value)
    decreases depth, 0, 0
  {
    hide Visit, Join, SafeRelative, GoodParts, Sort, CanonicalMode, WalkedBefore, OsNamedAll, MaxDepth;
    if n.Dir? {
      var cs := n.children;
      NamedEntries(cs);
      SortedDepth(cs, depth - 1);
      NamedSort(cs);
      SortAscending(cs, NameKey);
      forall c | c in Sort(cs, NameKey) ensures WellNamed(c.node) {
        assert c in multiset(Sort(cs, NameKey));
        assert c in cs;
      }
      VisitOrdered(Sort(cs, NameKey), prefix, path, depth - 1);
    }
  }

  /** The files a walk finds come component by component in the order of the bytes of their names. */
  lemma {:induction false} WalkOrdered(cs: seq<Child>, prefix: seq<string>)
    requires WellNamedAll(cs) && prefix != [] && GoodParts(prefix) && Walk(Dir(cs), Join(prefix)).Some?
    ensures InWalkOrder(Walk(Dir(cs), Join(prefix)).value)
  {
    hide Visit, Join, SafeRelative, Sort, WalkedBefore, OsNamedAll, InWalkOrder, MaxDepth;
    NamedEntries(cs);
    SortedDepth(cs, MaxDepth(cs));
    NamedSort(cs);
    SortAscending(cs, NameKey);
    forall c | c in Sort(cs, NameKey) ensures WellNamed(c.node) {
      assert c in multiset(Sort(cs, NameKey));
      assert c in cs;
    }
    VisitOrdered(Sort(cs, NameKey), prefix, [], MaxDepth(cs));
  }
}
