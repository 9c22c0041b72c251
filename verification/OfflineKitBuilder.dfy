/** The loops of scripts/build_offline_kit.py: walking, validating, summing up, extracting, re-sealing. */
module OfflineKitBuilder {
  import opened Wrappers
  import opened Ordering
  import opened KitPaths
  import opened KitTree
  import opened OfflineKit
  import opened OfflineKitTheorems
  import J = Json
  import Utf8

  // --------------------------------------------------------------------------- walk

  function Then(entries: seq<Leaf>, r: Option<seq<Leaf>>): Option<seq<Leaf>>
  {
    if r.None? then None else Some(entries + r.value)
  }

  lemma {:induction false} ThenNothing(r: Option<seq<Leaf>>)
    ensures Then([], r) == r
  {
    if r.Some? { assert [] + r.value == r.value; }
  }

  lemma {:induction false} VisitStep(cs: seq<Child>, prefix: string, rel: seq<string>, depth: nat, i: nat,
                                     entries: seq<Leaf>)
    requires i < |cs| && forall c :: c in cs ==> Depth(c.node) <= depth
    ensures forall c :: c in cs[i..] ==> Depth(c.node) <= depth
    ensures forall c :: c in cs[i + 1..] ==> Depth(c.node) <= depth
    ensures var path := rel + [cs[i].name];
      var all := Then(entries, Visit(cs[i..], prefix, rel, depth));
      if SafeRelative(Join(path)).None? || VisitNode(cs[i].node, prefix, path, depth).None? then all == None
      else
        all == Then(entries + VisitNode(cs[i].node, prefix, path, depth).value, Visit(cs[i + 1..], prefix, rel, depth))
  {
    hide SafeRelative, Join, VisitNode, Depth;
    assert cs[i..][0] == cs[i] && cs[i..][1..] == cs[i + 1..];
    var rest := Visit(cs[i + 1..], prefix, rel, depth);
    var first := VisitNode(cs[i].node, prefix, rel + [cs[i].name], depth);
    if first.Some? && rest.Some? { assert entries + (first.value + rest.value) == entries + first.value + rest.value; }
  }

  /** `visit`, on entries already sorted: it appends what it finds, and stops at the first refusal. */
  method VisitEntries(cs: seq<Child>, prefix: string, rel: seq<string>, depth: nat,
                      entries: seq<Leaf>) returns (r: Option<seq<Leaf>>)
    requires forall c :: c in cs ==> Depth(c.node) <= depth
    ensures r == Then(entries, Visit(cs, prefix, rel, depth))
    decreases depth
  {
    hide SafeRelative, Join, Visit, Depth, CanonicalMode, Sort, MaxDepth;
    var found, i := entries, 0;
    assert cs[0..] == cs;
    while i < |cs|
      invariant 0 <= i <= |cs| && forall c :: c in cs[i..] ==> Depth(c.node) <= depth
      invariant Then(entries, Visit(cs, prefix, rel, depth)) == Then(found, Visit(cs[i..], prefix, rel, depth))
    {
      VisitStep(cs, prefix, rel, depth, i, found);
      var child := cs[i];
      var path := rel + [child.name];
      if SafeRelative(Join(path)).None? { return None; }
      match child.node {
        case Symlink => return None;
        case Special => return None;
        case Dir(children) => {
          DirDepth(children, depth);
          SortedDepth(children, depth - 1);
          var below := VisitEntries(Sort(children, NameKey), prefix, path, depth - 1, found);
          if below.None? { return None; }
          found := below.value;
        }
        case File(raw, data) => {
          var archived := SafeRelative(prefix + ("/" + Join(path)));
          if archived.None? { return None; }
          found := found + [Leaf(archived.value, CanonicalMode(raw), data)];
        }
      }
      i := i + 1;
    }
    VisitNothing(cs[i..], prefix, rel, depth);
    assert found + [] == found;
    r := Some(found);
  }

  lemma {:induction false} DirDepth(cs: seq<Child>, depth: nat)
    requires Depth(Dir(cs)) <= depth
    ensures 0 < depth && MaxDepth(cs) <= depth - 1
  {
  }

  lemma {:induction false} VisitNothing(cs: seq<Child>, prefix: string, rel: seq<string>, depth: nat)
    requires cs == []
    ensures Visit(cs, prefix, rel, depth) == Some([])
  {
  }

  /** `_walk_regular_files`. */
  method WalkRegularFiles(root: Node, prefix: string) returns (r: Option<seq<Leaf>>)
    ensures r == Walk(root, prefix)
  {
    hide SafeRelative, Visit, Sort, MaxDepth;
    if !root.Dir? || SafeRelative(prefix).None? { return None; }
    SortedDepth(root.children, MaxDepth(root.children));
    var entries := VisitEntries(Sort(root.children, NameKey), prefix, [], MaxDepth(root.children), []);
    ThenNothing(Visit(Sort(root.children, NameKey), prefix, [], MaxDepth(root.children)));
    if entries.None? || entries.value == [] { return None; }
    r := entries;
  }

  // ---------------------------------------------------------------------- validation

  lemma {:induction false} NameBytesInjective(a: string, b: string)
    requires NameBytes(a) == NameBytes(b)
    ensures a == b
  {
    Utf8.EncodeInjective(a, b);
  }

  ghost predicate Enumerates(q: seq<string>, names: seq<string>)
  {
    (forall s :: s in q <==> s in names) && (forall i, j :: 0 <= i < j < |q| ==> q[i] != q[j])
  }

  lemma {:induction false} EnumerationKeys(q: seq<string>, names: seq<string>)
    requires Enumerates(q, names)
    ensures DistinctKeys(q, NameBytes)
  {
    hide NameBytes;
    forall i, j | 0 <= i < j < |q| ensures NameBytes(q[i]) != NameBytes(q[j]) {
      if NameBytes(q[i]) == NameBytes(q[j]) { NameBytesInjective(q[i], q[j]); }
    }
  }

  lemma {:induction false} CountOnce(q: seq<string>, s: string)
    requires forall i, j :: 0 <= i < j < |q| ==> q[i] != q[j]
    ensures multiset(q)[s] == if s in q then 1 else 0
  {
    if s in q {
      var a :| 0 <= a < |q| && q[a] == s;
      assert q == q[..a] + [s] + q[a + 1..];
      Uncounted(q[..a], s);
      Uncounted(q[a + 1..], s);
      assert multiset(q) == multiset(q[..a]) + multiset{s} + multiset(q[a + 1..]);
    }
  }

  lemma {:induction false} Uncounted(q: seq<string>, s: string)
    requires s !in q
    ensures multiset(q)[s] == 0
  {
  }

  /** A list is its own sorted set of names exactly when its names ascend. */
  lemma {:induction false} SortedSetExactly(names: seq<string>, q: seq<string>)
    requires Enumerates(q, names)
    ensures names == Sort(q, NameBytes) <==> Ascending(names, NameBytes)
  {
    hide NameBytes, Sort;
    EnumerationKeys(q, names);
    SortAscending(q, NameBytes);
    if Ascending(names, NameBytes) {
      forall i, j | 0 <= i < j < |names| ensures names[i] != names[j] { LexIrreflexive(NameBytes(names[i])); }
      forall s: string ensures multiset(names)[s] == multiset(q)[s] {
        CountOnce(names, s);
        CountOnce(q, s);
      }
      assert multiset(names) == multiset(Sort(q, NameBytes));
      AscendingUnique(names, Sort(q, NameBytes), NameBytes);
    }
  }

  /** `sorted(set(names))` by bytes. */
  method SortedSet(names: seq<string>) returns (r: seq<string>)
    ensures r == names <==> Ascending(names, NameBytes)
    ensures r == names <==>
      forall i, j :: 0 <= i < j < |names| ==> Smaller(Utf8.Encode(names[i]), Utf8.Encode(names[j]))
  {
    hide NameBytes, Sort, Ascending;
    var q: seq<string> := [];
    var i := 0;
    while i < |names|
      invariant 0 <= i <= |names| && Enumerates(q, names[..i])
    {
      assert names[..i + 1] == names[..i] + [names[i]];
      if names[i] !in q { q := q + [names[i]]; }
      i := i + 1;
    }
    assert names[..i] == names;
    SortedSetExactly(names, q);
    AscendingBytes(names);
    r := Sort(q, NameBytes);
  }

  /** The member loop of `_validate_tar`. */
  method CheckMembers(ms: seq<Member>, prefix: string) returns (names: Option<seq<string>>)
    ensures names.Some? <==> MembersOk(ms, prefix)
    ensures names.Some? ==> names.value == Names(ms)
  {
    hide SafeRelative;
    var found: seq<string>, i := [], 0;
    while i < |ms|
      invariant 0 <= i <= |ms| && |found| == i
      invariant forall k :: 0 <= k < i ==> MemberOk(ms[k], prefix) && found[k] == ms[k].name
    {
      var m := ms[i];
      var pure := SafeRelative(m.name);
      if pure.None? || |pure.value| < 2 || pure.value[0] != prefix || !m.regular { return None; }
      if m.uid != 0 || m.gid != 0 || m.uname != "" || m.gname != "" || m.mtime != 0 || m.pax { return None; }
      if m.mode != MODE_644 && m.mode != MODE_755 { return None; }
      found := found + [m.name];
      i := i + 1;
    }
    assert found == Names(ms);
    names := Some(found);
  }

  /** The conflict loop of `_validate_tar`. */
  method CheckConflicts(names: seq<string>) returns (ok: bool)
    ensures ok <==> NoConflict(names)
  {
    hide AsPosix, Parts;
    var i := 0;
    while i < |names|
      invariant 0 <= i <= |names| && forall j :: 0 <= j < i ==> NoParentIn(names, Parts(names[j]))
    {
      var parts := Parts(names[i]);
      var k := |parts|;
      while k > 0
        invariant 0 <= k <= |parts| && forall l :: k <= l < |parts| ==> AsPosix(parts[..l]) !in names
      {
        k := k - 1;
        if AsPosix(parts[..k]) in names { return false; }
      }
      i := i + 1;
    }
    ok := true;
  }

  /** `_validate_tar`. */
  method ValidateTar(a: Archive, prefix: string) returns (r: Option<seq<Member>>)
    ensures r.Some? <==> Valid(a, prefix)
    ensures r.Some? ==> r == a.members
  {
    hide SafeRelative, MembersOk, NoConflict, Ascending;
    if SafeRelative(prefix).None? || a.header != GZIP_HEADER || a.members.None? || a.members.value == [] {
      return None;
    }
    var names := CheckMembers(a.members.value, prefix);
    if names.None? { return None; }
    var sorted := SortedSet(names.value);
    if names.value != sorted { return None; }
    var clear := CheckConflicts(names.value);
    r := if clear then a.members else None;
  }

  // ------------------------------------------------------------- summary, extraction

  /** `_tar_tree_summary`: the number of files, their seal, and how many children the prefix has. */
  method TarTreeSummary(h: Digest, a: Archive, prefix: string) returns (r: Option<(nat, string, nat)>)
    ensures r.Some? <==> Valid(a, prefix)
    ensures r.Some? ==> r.value == (|a.members.value|, TarSeal(h, a.members.value), |SecondParts(a.members.value)|)
  {
    hide Valid, Parts, Sort, CanonicalMode, SecondParts, RecordKey;
    var valid := ValidateTar(a, prefix);
    if valid.None? { return None; }
    var ms := valid.value;
    var records: seq<Record>, children: set<string>, i := [], {}, 0;
    NoSecondParts(ms[..0]);
    while i < |ms|
      invariant 0 <= i <= |ms| && |records| == i
      invariant forall k :: 0 <= k < i ==> records[k] == MemberRecord(h, ms[k])
      invariant children == SecondParts(ms[..i])
    {
      var m := ms[i];
      var parts := Parts(m.name);
      SecondPartsSnoc(ms, i);
      if |parts| >= 2 { children := children + {parts[1]}; }
      records := records + [Record(CanonicalMode(m.mode), m.name, h(m.data), |m.data|)];
      i := i + 1;
    }
    assert ms[..i] == ms && records == MemberRecords(h, ms);
    var seal := SealRecords(h, Sort(records, RecordKey));
    r := Some((|records|, seal, |children|));
  }

  lemma {:induction false} NoSecondParts(ms: seq<Member>)
    requires ms == []
    ensures SecondParts(ms) == {}
  {
  }

  lemma {:induction false} SecondPartsSnoc(ms: seq<Member>, i: nat)
    requires i < |ms|
    ensures SecondParts(ms[..i + 1]) ==
      SecondParts(ms[..i]) + (if |Parts(ms[i].name)| >= 2 then {Parts(ms[i].name)[1]} else {})
  {
    hide Parts;
    var a, b := ms[..i + 1], ms[..i];
    assert forall k :: 0 <= k < i ==> a[k] == b[k];
    assert a[i] == ms[i];
    forall s | s in SecondParts(b) ensures s in SecondParts(a) {
      var k :| 0 <= k < |b| && |Parts(b[k].name)| >= 2 && Parts(b[k].name)[1] == s;
      assert Parts(a[k].name)[1] == s;
    }
  }

  /** `_extract_tar_safely`: each member's file is created, with its parents, or extraction stops. */
  method ExtractTarSafely(a: Archive, prefix: string, destination: seq<Child>) returns (r: Option<seq<Child>>)
    ensures r == if Valid(a, prefix) then Extract(destination, a.members.value) else None
  {
    hide Valid, SafeRelative, Put;
    var valid := ValidateTar(a, prefix);
    if valid.None? { return None; }
    var ms, tree, i := valid.value, destination, 0;
    assert ms[0..] == ms;
    while i < |ms|
      invariant 0 <= i <= |ms| && Extract(destination, ms) == Extract(tree, ms[i..])
    {
      assert ms[i..][0] == ms[i] && ms[i..][1..] == ms[i + 1..];
      var pure := SafeRelative(ms[i].name);
      if pure.None? || pure.value == [] { return None; }
      var next := Put(tree, pure.value, FileOf(ms[i]));
      if next.None? { return None; }
      tree := next.value;
      i := i + 1;
    }
    r := Some(tree);
  }

  /** `_canonical_json` of records, and its digest. */
  method SealRecords(h: Digest, rs: seq<Record>) returns (seal: string)
    ensures seal == Seal(h, rs)
  {
    hide RecordsJson;
    RecordsPlain(rs);
    var text := J.Dumps(RecordsJson(rs));
    seal := h(Utf8.Encode(text.value + "\n"));
  }

  /** `_tree_seal`. */
  method SealTree(h: Digest, entries: seq<Leaf>) returns (seal: string)
    ensures seal == TreeSeal(h, entries)
  {
    hide Sort, PathKey;
    var sorted := Sort(entries, PathKey);
    var records: seq<Record>, i := [], 0;
    while i < |sorted|
      invariant 0 <= i <= |sorted| == |entries| && |records| == i
      invariant forall k :: 0 <= k < i ==> records[k] == RecordOf(h, sorted[k])
    {
      records := records + [RecordOf(h, sorted[i])];
      i := i + 1;
    }
    assert records == RecordsOf(h, sorted);
    seal := SealRecords(h, records);
  }

  /** `_validate_unpacked_payload_seals`. */
  method ValidateUnpackedSeals(h: Digest, destination: seq<Child>, toolchain: Tally, vendor: Tally) returns (ok: bool)
    ensures ok <==>
      && Matches(h, EntryOf(destination, TOOLCHAIN), TOOLCHAIN, toolchain)
      && Matches(h, EntryOf(destination, VENDOR), VENDOR, vendor)
  {
    hide Walk, TreeSeal;
    var t := WalkRegularFiles(EntryOf(destination, TOOLCHAIN), TOOLCHAIN);
    if t.None? { return false; }
    var v := WalkRegularFiles(EntryOf(destination, VENDOR), VENDOR);
    if v.None? { return false; }
    var seal := SealTree(h, t.value);
    if |t.value| != toolchain.count || seal != toolchain.seal { return false; }
    seal := SealTree(h, v.value);
    ok := |v.value| == vendor.count && seal == vendor.seal;
  }

  /** The payload part of `extract_payloads`: the toolchain and then the vendor payload go into one new
      directory, and both are checked against the manifest. It succeeds exactly when both archives are
      valid and the manifest records what they hold. */
  method ExtractPayloads(h: Digest, toolchain: Archive, vendor: Archive, t: Tally,
                         v: Tally) returns (r: Option<seq<Child>>)
    ensures r.Some? <==>
      && Valid(toolchain, TOOLCHAIN) && Valid(vendor, VENDOR)
      && t == TallyOf(h, toolchain) && v == TallyOf(h, vendor)
    ensures r.Some? ==>
      && |r.value| == 2 && r.value[0].name == TOOLCHAIN && r.value[1].name == VENDOR
      && Matches(h, r.value[0].node, TOOLCHAIN, t) && Matches(h, r.value[1].node, VENDOR, v)
  {
    hide Valid, Extract, Matches, EntryOf, TarSeal;
    PayloadMatches(h, toolchain, TOOLCHAIN, []);
    var first := ExtractTarSafely(toolchain, TOOLCHAIN, []);
    if first.None? { return None; }
    var dest := first.value;
    assert TOOLCHAIN[0] == 't' && VENDOR[0] == 'v';
    PayloadMatches(h, vendor, VENDOR, dest);
    var second := ExtractTarSafely(vendor, VENDOR, dest);
    if second.None? { return None; }
    var both := second.value;
    EntryGained(h, dest, both, VENDOR, TallyOf(h, vendor));
    assert EntryOf(both, TOOLCHAIN) == both[0].node by {
      assert both[..1] == dest && dest[0] == both[0] && Absent(dest[..0], TOOLCHAIN);
    }
    var ok := ValidateUnpackedSeals(h, both, t, v);
    MatchesOne(h, both[0].node, TOOLCHAIN, t, TallyOf(h, toolchain));
    MatchesOne(h, both[1].node, VENDOR, v, TallyOf(h, vendor));
    r := if ok then Some(both) else None;
  }

  lemma {:induction false} MatchesOne(h: Digest, root: Node, prefix: string, t: Tally, u: Tally)
    requires Matches(h, root, prefix, u)
    ensures Matches(h, root, prefix, t) <==> t == u
  {
    hide Walk, TreeSeal;
  }
}
