/** Payload trees on disk, walked level by level and written file by file. */
module KitTree {
  import opened Wrappers
  import opened Ordering
  import opened KitPaths
  import Utf8

  /** What `lstat` finds: a regular file with its raw mode, a directory in the order it is scanned, or
      something the kit refuses. */
  datatype Node = File(mode: nat, data: seq<byte>) | Dir(children: seq<Child>) | Symlink | Special
  datatype Child = Child(name: string, node: Node)

  /** A file below a directory: its path's components, its canonical mode, its bytes. */
  datatype Leaf = Leaf(path: seq<string>, mode: string, data: seq<byte>)

  /** `raw & 0o111`. */
  predicate Executable(raw: nat) { raw % 2 == 1 || (raw / 8) % 2 == 1 || (raw / 64) % 2 == 1 }

  function CanonicalMode(raw: nat): string { if Executable(raw) then "100755" else "100644" }

  /** One of the three permission digits of a mode, in octal, is odd: it has an execute bit. */
  predicate HasExecuteBit(raw: nat)
  {
    var owner, group, others := raw / 64 % 8, raw / 8 % 8, raw % 8;
    owner in {1, 3, 5, 7} || group in {1, 3, 5, 7} || others in {1, 3, 5, 7}
  }

  lemma {:induction false} OddDigit(x: nat)
    ensures x % 8 in {1, 3, 5, 7} <==> x % 2 == 1
  {
    assert x % 8 % 2 == x % 2;
  }

  lemma {:induction false} ModeOf(raw: nat)
    ensures CanonicalMode(raw) == if HasExecuteBit(raw) then "100755" else "100644"
  {
    OddDigit(raw / 64);
    OddDigit(raw / 8);
    OddDigit(raw);
  }

  lemma {:induction false} LastDigit(high: nat, digit: nat)
    requires digit < 8
    ensures (high * 8 + digit) / 8 == high && (high * 8 + digit) % 8 == digit
  {
  }

  lemma {:induction false} Digits(high: nat, owner: nat, group: nat, others: nat)
    requires owner < 8 && group < 8 && others < 8
    ensures
      var raw := high * 512 + owner * 64 + group * 8 + others;
      raw / 64 % 8 == owner && raw / 8 % 8 == group && raw % 8 == others
  {
    var a := high * 8 + owner;
    var b := a * 8 + group;
    var raw := b * 8 + others;
    LastDigit(high, owner);
    LastDigit(a, group);
    LastDigit(b, others);
    assert raw / 64 == raw / 8 / 8;
  }

  /** The mode a file is recorded with, from its permission digits and whatever stands above them. */
  lemma {:induction false} ModeExactly(high: nat, owner: nat, group: nat, others: nat)
    requires owner < 8 && group < 8 && others < 8
    ensures
      var raw := high * 512 + owner * 64 + group * 8 + others;
      && (HasExecuteBit(raw) <==> owner % 2 == 1 || group % 2 == 1 || others % 2 == 1)
      && CanonicalMode(raw) == if HasExecuteBit(raw) then "100755" else "100644"
  {
    hide CanonicalMode;
    var raw := high * 512 + owner * 64 + group * 8 + others;
    Digits(high, owner, group, others);
    ModeOf(raw);
  }

  function NameKey(c: Child): seq<int> { Utf8.Encode(c.name) }

  function Depth(n: Node): nat
    decreases n, 0
  {
    if n.Dir? then 1 + MaxDepth(n.children) else 0
  }

  function MaxDepth(cs: seq<Child>): (r: nat)
    ensures forall c :: c in cs ==> Depth(c.node) <= r
    decreases cs, 1
  {
    if cs == [] then 0
    else
      assert cs == [cs[0]] + cs[1..];
      var a, b := Depth(cs[0].node), MaxDepth(cs[1..]);
      if a > b then a else b
  }

  /** A name a directory entry can have. */
  predicate OsName(name: string) { name != "" && name != "." && name != ".." && '/' !in name && '\0' !in name }

  /** Directory entries have different names, as an operating system allows them. */
  predicate WellNamed(n: Node)
    decreases n, 0
  {
    n.Dir? ==> WellNamedAll(n.children)
  }

  predicate WellNamedAll(cs: seq<Child>)
    decreases cs, 1
  {
    cs == [] || (OsName(cs[0].name) && WellNamed(cs[0].node) && Absent(cs[1..], cs[0].name) && WellNamedAll(cs[1..]))
  }

  predicate Absent(cs: seq<Child>, name: string) { forall i :: 0 <= i < |cs| ==> cs[i].name != name }

  /** Only regular files and directories, with names that are good path components. */
  predicate Regular(n: Node)
    decreases n, 0
  {
    match n
    case File(_, _) => true
    case Dir(cs) => RegularAll(cs)
    case _ => false
  }

  predicate RegularAll(cs: seq<Child>)
    decreases cs, 1
  {
    cs == [] || (GoodPart(cs[0].name) && Regular(cs[0].node) && RegularAll(cs[1..]))
  }

  /** The files below a directory, in the order it is scanned. */
  function Flat(cs: seq<Child>, rel: seq<string>): seq<Leaf>
    decreases cs, 1
  {
    if cs == [] then [] else FlatNode(cs[0].node, rel + [cs[0].name]) + Flat(cs[1..], rel)
  }

  function FlatNode(n: Node, rel: seq<string>): seq<Leaf>
    decreases n, 0
  {
    match n
    case File(raw, data) => [Leaf(rel, CanonicalMode(raw), data)]
    case Dir(cs) => Flat(cs, rel)
    case _ => []
  }

  /** A regular file with this raw mode and these bytes lies at a path below entries. */
  ghost predicate Lies(cs: seq<Child>, path: seq<string>, raw: nat, data: seq<byte>)
    decreases cs, 1
  {
    path != [] && exists i :: 0 <= i < |cs| && cs[i].name == path[0] && LiesAt(cs[i].node, path[1..], raw, data)
  }

  ghost predicate LiesAt(n: Node, path: seq<string>, raw: nat, data: seq<byte>)
    decreases n, 0
  {
    match n
    case File(mode, bytes) => path == [] && mode == raw && bytes == data
    case Dir(cs) => Lies(cs, path, raw, data)
    case _ => false
  }

  /** `l` records a file that lies at `path`: under its own path, with its bytes, and with the mode
      that says whether it has an execute bit. */
  ghost predicate Records(l: Leaf, cs: seq<Child>, rel: seq<string>, path: seq<string>, raw: nat)
  {
    && Lies(cs, path, raw, l.data) && l.path == rel + path
    && l.mode == if HasExecuteBit(raw) then "100755" else "100644"
  }

  ghost predicate RecordsAt(l: Leaf, n: Node, rel: seq<string>, path: seq<string>, raw: nat)
  {
    && LiesAt(n, path, raw, l.data) && l.path == rel + path
    && l.mode == if HasExecuteBit(raw) then "100755" else "100644"
  }

  lemma {:induction false} LeafRecords(n: Node, rel: seq<string>, l: Leaf) returns (path: seq<string>, raw: nat)
    requires l in FlatNode(n, rel)
    ensures RecordsAt(l, n, rel, path, raw)
    decreases n, 0
  {
    match n
    case File(mode, _) =>
      path, raw := [], mode;
      ModeOf(mode);
      assert rel + [] == rel;
    case Dir(cs) => path, raw := FlatRecords(cs, rel, l);
  }

  lemma {:induction false} FlatRecords(cs: seq<Child>, rel: seq<string>, l: Leaf) returns (path: seq<string>, raw: nat)
    requires l in Flat(cs, rel)
    ensures Records(l, cs, rel, path, raw)
    decreases cs, 1
  {
    hide HasExecuteBit;
    var first := FlatNode(cs[0].node, rel + [cs[0].name]);
    if l in first {
      var rest, mode := LeafRecords(cs[0].node, rel + [cs[0].name], l);
      path, raw := [cs[0].name] + rest, mode;
      assert path[1..] == rest && rel + [cs[0].name] + rest == rel + path;
    } else {
      path, raw := FlatRecords(cs[1..], rel, l);
      var i :| 0 <= i < |cs[1..]| && cs[1..][i].name == path[0] && LiesAt(cs[1..][i].node, path[1..], raw, l.data);
      assert cs[1..][i] == cs[i + 1];
    }
  }

  lemma {:induction false} RecordedLeaf(l: Leaf, n: Node, rel: seq<string>, path: seq<string>, raw: nat)
    requires RecordsAt(l, n, rel, path, raw)
    ensures l in FlatNode(n, rel)
    decreases n, 0
  {
    match n
    case File(mode, _) =>
      ModeOf(mode);
      assert rel + [] == rel;
      assert l == Leaf(rel, CanonicalMode(mode), n.data);
    case Dir(cs) => RecordedFlat(l, cs, rel, path, raw);
    case _ =>
  }

  lemma {:induction false} RecordedFlat(l: Leaf, cs: seq<Child>, rel: seq<string>, path: seq<string>, raw: nat)
    requires Records(l, cs, rel, path, raw)
    ensures l in Flat(cs, rel)
    decreases cs, 1
  {
    hide HasExecuteBit;
    var i :| 0 <= i < |cs| && cs[i].name == path[0] && LiesAt(cs[i].node, path[1..], raw, l.data);
    if i == 0 {
      assert rel + [cs[0].name] + path[1..] == rel + path;
      RecordedLeaf(l, cs[0].node, rel + [cs[0].name], path[1..], raw);
    } else {
      assert cs[i] == cs[1..][i - 1];
      RecordedFlat(l, cs[1..], rel, path, raw);
    }
  }

  /** The records below entries are exactly those of the files that lie there. */
  lemma {:induction false} FlatExactly(cs: seq<Child>, rel: seq<string>, l: Leaf)
    ensures l in Flat(cs, rel) <==> exists path, raw :: Records(l, cs, rel, path, raw)
  {
    hide Flat, Records;
    if l in Flat(cs, rel) {
      var path, raw := FlatRecords(cs, rel, l);
    }
    if exists path, raw :: Records(l, cs, rel, path, raw) {
      var path, raw :| Records(l, cs, rel, path, raw);
      RecordedFlat(l, cs, rel, path, raw);
    }
  }

  // -------------------------------------------------------------------------- walk

  /** The files of scanned entries under an archive prefix, each level in byte order of its names;
      nothing when one is refused. */
  function Visit(cs: seq<Child>, prefix: string, rel: seq<string>, depth: nat): (r: Option<seq<Leaf>>)
    requires forall c :: c in cs ==> Depth(c.node) <= depth
    decreases depth, |cs|, 1
  {
    if cs == [] then Some([])
    else
      var path := rel + [cs[0].name];
      if SafeRelative(Join(path)).None? then None
      else
        var first := VisitNode(cs[0].node, prefix, path, depth);
        if first.None? then None
        else
          var rest := Visit(cs[1..], prefix, rel, depth);
          if rest.None? then None else Some(first.value + rest.value)
  }

  function VisitNode(n: Node, prefix: string, path: seq<string>, depth: nat): (r: Option<seq<Leaf>>)
    requires Depth(n) <= depth
    decreases depth, 0, 0
  {
    match n
    case File(raw, data) =>
      var archived := SafeRelative(prefix + ("/" + Join(path)));
      if archived.None? then None else Some([Leaf(archived.value, CanonicalMode(raw), data)])
    case Dir(cs) =>
      SortedDepth(cs, depth - 1);
      Visit(Sort(cs, NameKey), prefix, path, depth - 1)
    case _ => None
  }

  /** `_walk_regular_files`: the files below a directory, or nothing when it is refused or has none. */
  function Walk(root: Node, prefix: string): Option<seq<Leaf>>
  {
    if !root.Dir? || SafeRelative(prefix).None? then None
    else
      SortedDepth(root.children, MaxDepth(root.children));
      var entries := Visit(Sort(root.children, NameKey), prefix, [], MaxDepth(root.children));
      if entries.None? || entries.value == [] then None else entries
  }

  lemma {:induction false} SortedDepth(cs: seq<Child>, depth: int)
    requires MaxDepth(cs) <= depth
    ensures forall c :: c in Sort(cs, NameKey) ==> Depth(c.node) <= depth
  {
    forall c | c in Sort(cs, NameKey) ensures c in cs { assert c in multiset(Sort(cs, NameKey)); }
  }

  lemma {:induction false} FlatAppend(a: seq<Child>, b: seq<Child>, rel: seq<string>)
    ensures Flat(a + b, rel) == Flat(a, rel) + Flat(b, rel)
  {
    if a == [] {
      assert a + b == b;
    } else {
      assert (a + b)[1..] == a[1..] + b;
      FlatAppend(a[1..], b, rel);
    }
  }

  lemma {:induction false} FlatSwap(x: Child, y: Child, rest: seq<Child>, rest': seq<Child>, rel: seq<string>)
    requires multiset(Flat(rest', rel)) == multiset(Flat([x] + rest, rel))
    ensures multiset(Flat([y] + rest', rel)) == multiset(Flat([x] + ([y] + rest), rel))
  {
    hide Flat;
    FlatAppend([y], rest', rel);
    FlatAppend([x], [y] + rest, rel);
    FlatAppend([x], rest, rel);
    FlatAppend([y], rest, rel);
  }

  lemma {:induction false} FlatInsert(x: Child, ys: seq<Child>, rel: seq<string>)
    ensures multiset(Flat(Insert(x, ys, NameKey), rel)) == multiset(Flat([x] + ys, rel))
  {
    hide Flat, NameKey;
    if ys != [] && LexLt(NameKey(ys[0]), NameKey(x)) {
      FlatInsert(x, ys[1..], rel);
      FlatSwap(x, ys[0], ys[1..], Insert(x, ys[1..], NameKey), rel);
      assert ys == [ys[0]] + ys[1..];
    }
  }

  /** Sorting the entries of a directory permutes the files below it. */
  lemma {:induction false} FlatSort(cs: seq<Child>, rel: seq<string>)
    ensures multiset(Flat(Sort(cs, NameKey), rel)) == multiset(Flat(cs, rel))
  {
    if cs != [] {
      var t := Sort(cs[1..], NameKey);
      FlatSort(cs[1..], rel);
      FlatInsert(cs[0], t, rel);
      FlatAppend([cs[0]], t, rel);
      FlatAppend([cs[0]], cs[1..], rel);
      assert cs == [cs[0]] + cs[1..];
    }
  }

  lemma {:induction false} RegularInsert(x: Child, ys: seq<Child>)
    ensures RegularAll(Insert(x, ys, NameKey)) <==> RegularAll([x] + ys)
  {
    assert ([x] + ys)[1..] == ys;
    if ys != [] && LexLt(NameKey(ys[0]), NameKey(x)) {
      RegularInsert(x, ys[1..]);
      assert ([x] + ys[1..])[1..] == ys[1..];
      assert Insert(x, ys, NameKey)[1..] == Insert(x, ys[1..], NameKey);
    } else {
      assert Insert(x, ys, NameKey) == [x] + ys;
    }
  }

  lemma {:induction false} RegularSort(cs: seq<Child>)
    ensures RegularAll(Sort(cs, NameKey)) <==> RegularAll(cs)
  {
    if cs != [] {
      var t := Sort(cs[1..], NameKey);
      RegularSort(cs[1..]);
      RegularInsert(cs[0], t);
      assert ([cs[0]] + t)[1..] == t;
    }
  }

  lemma {:induction false} SafeSnoc(rel: seq<string>, name: string)
    requires GoodParts(rel) && OsName(name)
    ensures SafeRelative(Join(rel + [name])).Some? <==> GoodPart(name)
  {
    var path := rel + [name];
    if GoodPart(name) {
      GoodIsSafe(path);
    } else {
      assert name in path && path[|rel|] == name;
      JoinChars(path, '\r');
      JoinChars(path, '\n');
    }
  }

  lemma {:induction false} JoinOnly(part: string)
    ensures Join([part]) == part
  {
  }

  lemma {:induction false} JoinTwo(a: seq<string>, b: seq<string>)
    requires a != [] && b != []
    ensures Join(a + b) == Join(a) + ("/" + Join(b))
  {
    hide Join;
    if |a| == 1 {
      JoinOnly(a[0]);
      assert a == [a[0]];
      JoinStep(a + b);
      assert (a + b)[1..] == b;
    } else {
      JoinStep(a);
      JoinStep(a + b);
      assert (a + b)[1..] == a[1..] + b;
      JoinTwo(a[1..], b);
      assert a[0] + ("/" + (Join(a[1..]) + ("/" + Join(b)))) == (a[0] + ("/" + Join(a[1..]))) + ("/" + Join(b));
    }
  }

  /** A path below a prefix has the prefix's components first. */
  lemma {:induction false} Archived(prefix: seq<string>, path: seq<string>)
    requires prefix != [] && path != [] && GoodParts(prefix) && GoodParts(path)
    ensures SafeRelative(Join(prefix) + ("/" + Join(path))) == Some(prefix + path)
  {
    JoinTwo(prefix, path);
    GoodIsSafe(prefix + path);
  }

  lemma {:induction false} NamedInsert(x: Child, ys: seq<Child>)
    ensures OsNamedAll(Insert(x, ys, NameKey)) <==> OsNamedAll([x] + ys)
  {
    assert ([x] + ys)[1..] == ys;
    if ys != [] && LexLt(NameKey(ys[0]), NameKey(x)) {
      NamedInsert(x, ys[1..]);
      assert ([x] + ys[1..])[1..] == ys[1..];
      assert Insert(x, ys, NameKey)[1..] == Insert(x, ys[1..], NameKey);
    } else {
      assert Insert(x, ys, NameKey) == [x] + ys;
    }
  }

  lemma {:induction false} NamedSort(cs: seq<Child>)
    ensures OsNamedAll(Sort(cs, NameKey)) <==> OsNamedAll(cs)
  {
    if cs != [] {
      var t := Sort(cs[1..], NameKey);
      NamedSort(cs[1..]);
      NamedInsert(cs[0], t);
      assert ([cs[0]] + t)[1..] == t;
    }
  }

  predicate OsNamed(n: Node)
    decreases n, 0
  {
    n.Dir? ==> OsNamedAll(n.children)
  }

  predicate OsNamedAll(cs: seq<Child>)
    decreases cs, 1
  {
    cs == [] || (OsName(cs[0].name) && OsNamed(cs[0].node) && OsNamedAll(cs[1..]))
  }

  /** The walk accepts exactly the regular entries, and finds exactly the files below them. */
  lemma {:induction false} VisitExactly(cs: seq<Child>, prefix: seq<string>, rel: seq<string>, depth: nat)
    requires (forall c :: c in cs ==> Depth(c.node) <= depth) && OsNamedAll(cs)
    requires prefix != [] && GoodParts(prefix) && GoodParts(rel)
    ensures var r := Visit(cs, Join(prefix), rel, depth);
      (r.Some? <==> RegularAll(cs)) && (r.Some? ==> multiset(r.value) == multiset(Flat(cs, prefix + rel)))
    decreases depth, |cs|, 1
  {
    hide VisitNode, Regular, FlatNode, Join, SafeRelative, GoodPart, OsName, OsNamed, Depth, GoodParts;
    if cs != [] {
      var path := rel + [cs[0].name];
      SafeSnoc(rel, cs[0].name);
      assert forall c :: c in cs[1..] ==> c in cs;
      VisitExactly(cs[1..], prefix, rel, depth);
      assert (prefix + rel) + [cs[0].name] == prefix + path;
      if GoodPart(cs[0].name) {
        GoodSnoc(rel, cs[0].name);
        NodeExactly(cs[0].node, prefix, path, depth);
      }
    }
  }

  lemma {:induction false} GoodSnoc(rel: seq<string>, name: string)
    requires GoodParts(rel) && GoodPart(name)
    ensures GoodParts(rel + [name])
  {
  }

  lemma {:induction false} NodeExactly(n: Node, prefix: seq<string>, path: seq<string>, depth: nat)
    requires Depth(n) <= depth && OsNamed(n) && prefix != [] && path != [] && GoodParts(prefix) && GoodParts(path)
    ensures var r := VisitNode(n, Join(prefix), path, depth);
      (r.Some? <==> Regular(n)) && (r.Some? ==> multiset(r.value) == multiset(FlatNode(n, prefix + path)))
    decreases depth, 0, 0
  {
    hide Join, SafeRelative, GoodParts, Visit, RegularAll, OsNamedAll, Flat, Sort, MaxDepth, CanonicalMode;
    match n
    case File(_, _) => Archived(prefix, path);
    case Dir(cs) =>
      SortedDepth(cs, depth - 1);
      NamedSort(cs);
      RegularSort(cs);
      FlatSort(cs, prefix + path);
      VisitExactly(Sort(cs, NameKey), prefix, path, depth - 1);
    case _ =>
  }

  /** The walk of a tree: refused unless every entry is regular and there is a file; otherwise its
      files, each once, with the mode that says whether the file has an execute bit. */
  lemma {:induction false} WalkExactly(cs: seq<Child>, prefix: seq<string>)
    requires OsNamedAll(cs) && prefix != [] && GoodParts(prefix)
    ensures var r := Walk(Dir(cs), Join(prefix));
      && (r.Some? <==> RegularAll(cs) && Flat(cs, prefix) != [])
      && (r.Some? ==> multiset(r.value) == multiset(Flat(cs, prefix)))
      && (r.Some? ==> forall l :: l in r.value <==> exists path, raw :: Records(l, cs, prefix, path, raw))
  {
    hide Visit, Flat, RegularAll, OsNamedAll, SafeRelative, Join, MaxDepth, Sort, Records;
    SortedDepth(cs, MaxDepth(cs));
    NamedSort(cs);
    RegularSort(cs);
    FlatSort(cs, prefix);
    GoodIsSafe(prefix);
    VisitExactly(Sort(cs, NameKey), prefix, [], MaxDepth(cs));
    assert prefix + [] == prefix;
    var v := Visit(Sort(cs, NameKey), Join(prefix), [], MaxDepth(cs));
    if v.Some? {
      assert |multiset(v.value)| == |v.value| && |multiset(Flat(cs, prefix))| == |Flat(cs, prefix)|;
      forall l ensures l in v.value <==> exists path, raw :: Records(l, cs, prefix, path, raw) {
        assert l in v.value <==> l in multiset(v.value);
        FlatExactly(cs, prefix, l);
      }
    }
  }
}
