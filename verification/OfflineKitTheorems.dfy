/** One seal for a tree, its archive, and the tree extracted from the archive. */
module OfflineKitTheorems {
  import opened Wrappers
  import opened Ordering
  import opened KitPaths
  import opened KitTree
  import opened OfflineKit
  import Decimal
  import J = Json
  import Utf8

  // ----------------------------------------------------------------- putting one file

  lemma {:induction false} FlatAt(cs: seq<Child>, i: nat, c: Child, rel: seq<string>)
    requires i < |cs|
    ensures Flat(cs, rel) == Flat(cs[..i], rel) + FlatNode(cs[i].node, rel + [cs[i].name]) + Flat(cs[i + 1..], rel)
    ensures Flat(cs[i := c], rel) == Flat(cs[..i], rel) + FlatNode(c.node, rel + [c.name]) + Flat(cs[i + 1..], rel)
  {
    FlatOne(cs[i], rel);
    FlatOne(c, rel);
    hide Flat, FlatNode;
    assert cs == cs[..i] + [cs[i]] + cs[i + 1..];
    assert cs[i := c] == cs[..i] + [c] + cs[i + 1..];
    FlatAppend(cs[..i] + [cs[i]], cs[i + 1..], rel);
    FlatAppend(cs[..i], [cs[i]], rel);
    FlatAppend(cs[..i] + [c], cs[i + 1..], rel);
    FlatAppend(cs[..i], [c], rel);
  }

  lemma {:induction false} FlatOne(c: Child, rel: seq<string>)
    ensures Flat([c], rel) == FlatNode(c.node, rel + [c.name])
  {
    assert [c][1..] == [] && Flat([], rel) == [];
  }

  /** Replacing a directory's entries replaces the files below it. */
  lemma {:induction false} WithDirFlat(cs: seq<Child>, name: string, r: seq<Child>, rel: seq<string>)
    requires Below(cs, name).Some?
    ensures multiset(Flat(WithDir(cs, name, r), rel)) + multiset(Flat(Below(cs, name).value, rel + [name])) ==
      multiset(Flat(cs, rel)) + multiset(Flat(r, rel + [name]))
  {
    hide Flat, FlatNode;
    var i, below := Index(cs, name), Below(cs, name).value;
    FlatDir(name, r, rel);
    FlatDir(name, below, rel);
    if i == |cs| {
      FlatAppend(cs, [Child(name, Dir(r))], rel);
      FlatNothing(rel + [name]);
    } else {
      FlatAt(cs, i, Child(name, Dir(r)), rel);
    }
  }

  /** Putting a file adds that file and nothing else. */
  lemma {:induction false} PutFlat(cs: seq<Child>, path: seq<string>, raw: nat, data: seq<byte>, rel: seq<string>)
    requires path != [] && Put(cs, path, File(raw, data)).Some?
    ensures multiset(Flat(Put(cs, path, File(raw, data)).value, rel)) ==
      multiset(Flat(cs, rel)) + multiset{Leaf(rel + path, CanonicalMode(raw), data)}
    decreases |path|
  {
    hide Flat, FlatNode, CanonicalMode, Below, WithDir, Index;
    var file := File(raw, data);
    if |path| == 1 {
      assert path == [path[0]];
      FlatAppend(cs, [Child(path[0], file)], rel);
      FlatFile(path[0], raw, data, rel);
    } else {
      var below := Below(cs, path[0]).value;
      var r := Put(below, path[1..], file).value;
      PutFlat(below, path[1..], raw, data, rel + [path[0]]);
      assert (rel + [path[0]]) + path[1..] == rel + path;
      WithDirFlat(cs, path[0], r, rel);
      Cancel(multiset(Flat(WithDir(cs, path[0], r), rel)), multiset(Flat(below, rel + [path[0]])),
        multiset(Flat(cs, rel)),
             multiset{Leaf(rel + path, CanonicalMode(raw), data)});
    }
  }

  lemma {:induction false} Cancel(a: multiset<Leaf>, b: multiset<Leaf>, c: multiset<Leaf>, x: multiset<Leaf>)
    requires a + b == c + (b + x)
    ensures a == c + x
  {
    forall e: Leaf ensures a[e] == (c + x)[e] { assert (a + b)[e] == (c + (b + x))[e]; }
  }

  lemma {:induction false} FlatFile(name: string, raw: nat, data: seq<byte>, rel: seq<string>)
    ensures Flat([Child(name, File(raw, data))], rel) == [Leaf(rel + [name], CanonicalMode(raw), data)]
  {
    FlatOne(Child(name, File(raw, data)), rel);
  }

  lemma {:induction false} FlatDir(name: string, cs: seq<Child>, rel: seq<string>)
    ensures Flat([Child(name, Dir(cs))], rel) == Flat(cs, rel + [name]) == FlatNode(Dir(cs), rel + [name])
  {
    FlatOne(Child(name, Dir(cs)), rel);
  }

  lemma {:induction false} FlatNothing(rel: seq<string>)
    ensures Flat([], rel) == []
  {
  }

  // ----------------------------------------------------------- when a file can be put

  /** Every directory holds a file somewhere below it. */
  predicate Full(n: Node)
    decreases n, 0
  {
    match n
    case File(_, _) => true
    case Dir(cs) => cs != [] && FullAll(cs)
    case _ => false
  }

  predicate FullAll(cs: seq<Child>)
    decreases cs, 1
  {
    cs == [] || (Full(cs[0].node) && FullAll(cs[1..]))
  }

  lemma {:induction false} FullAt(cs: seq<Child>, i: nat)
    requires FullAll(cs) && i < |cs|
    ensures Full(cs[i].node)
  {
    if i > 0 { FullAt(cs[1..], i - 1); }
  }

  lemma {:induction false} FullHasFile(n: Node, rel: seq<string>)
    requires Full(n)
    ensures FlatNode(n, rel) != [] && rel <= FlatNode(n, rel)[0].path
    decreases n
  {
    if n.Dir? {
      var c := n.children[0];
      FullHasFile(c.node, rel + [c.name]);
      assert rel <= rel + [c.name];
    }
  }

  /** No file of `cs` stands on the way to `path`, at it, or below it. */
  ghost predicate Clear(cs: seq<Child>, rel: seq<string>, path: seq<string>)
  {
    forall l :: l in Flat(cs, rel) ==> !(l.path <= path) && !(path <= l.path)
  }

  lemma {:induction false} FlatHolds(cs: seq<Child>, i: nat, rel: seq<string>, l: Leaf)
    requires i < |cs| && l in FlatNode(cs[i].node, rel + [cs[i].name])
    ensures l in Flat(cs, rel)
  {
    if i > 0 { FlatHolds(cs[1..], i - 1, rel, l); }
  }

  /** Where it is clear, a file can be put: nothing collides. */
  lemma {:induction false} PutSucceeds(cs: seq<Child>, path: seq<string>, raw: nat, data: seq<byte>, rel: seq<string>)
    requires path != [] && FullAll(cs) && Clear(cs, rel, rel + path)
    ensures Put(cs, path, File(raw, data)).Some?
    decreases |path|
  {
    hide Flat, FlatNode, FullAll, Clear;
    var name, i := path[0], Index(cs, path[0]);
    if |path| == 1 {
      if i < |cs| { Blocked(cs, i, rel, rel + path); }
    } else {
      BelowClear(cs, name, rel, rel + path);
      assert (rel + [name]) + path[1..] == rel + path;
      PutSucceeds(Below(cs, name).value, path[1..], raw, data, rel + [name]);
    }
  }

  lemma {:induction false} Blocked(cs: seq<Child>, i: nat, rel: seq<string>, path: seq<string>)
    requires i < |cs| && FullAll(cs) && path == rel + [cs[i].name]
    ensures !Clear(cs, rel, path)
  {
    hide Flat, FlatNode, FullAll;
    FullAt(cs, i);
    FullHasFile(cs[i].node, path);
    FlatHolds(cs, i, rel, FlatNode(cs[i].node, path)[0]);
  }

  lemma {:induction false} BelowClear(cs: seq<Child>, name: string, rel: seq<string>, path: seq<string>)
    requires FullAll(cs) && rel + [name] <= path && Clear(cs, rel, path)
    ensures Below(cs, name).Some? && FullAll(Below(cs, name).value)
    ensures Clear(Below(cs, name).value, rel + [name], path)
  {
    hide Flat, FlatNode;
    var i := Index(cs, name);
    if i < |cs| {
      FullAt(cs, i);
      var n := cs[i].node;
      NodeFlat(n, rel + [name]);
      forall l | l in FlatNode(n, rel + [name]) ensures l in Flat(cs, rel) { FlatHolds(cs, i, rel, l); }
    } else {
      FlatNothing(rel + [name]);
    }
  }

  lemma {:induction false} NodeFlat(n: Node, rel: seq<string>)
    ensures n.Dir? ==> FlatNode(n, rel) == Flat(n.children, rel)
    ensures n.File? ==> FlatNode(n, rel) == [Leaf(rel, CanonicalMode(n.mode), n.data)]
  {
  }

  // ------------------------------------------------------------- what putting keeps

  /** A tree that could be on disk, with good names and no empty directory. */
  predicate Sound(cs: seq<Child>) { WellNamedAll(cs) && RegularAll(cs) && FullAll(cs) }

  lemma {:induction false} SoundCons(c: Child, cs: seq<Child>)
    ensures Sound([c] + cs) <==> Sound(cs) && Absent(cs, c.name) && GoodPart(c.name) && SoundNode(c.node)
  {
    assert ([c] + cs)[1..] == cs;
    assert GoodPart(c.name) ==> OsName(c.name);
  }

  predicate SoundNode(n: Node) { WellNamed(n) && Regular(n) && Full(n) }

  lemma {:induction false} SoundSnoc(cs: seq<Child>, c: Child)
    requires Sound(cs) && Absent(cs, c.name) && GoodPart(c.name) && SoundNode(c.node)
    ensures Sound(cs + [c])
  {
    hide Sound, SoundNode, GoodPart;
    if cs == [] {
      assert cs + [c] == [c] + [];
      SoundCons(c, []);
    } else {
      assert cs == [cs[0]] + cs[1..] && cs + [c] == [cs[0]] + (cs[1..] + [c]);
      SoundCons(cs[0], cs[1..]);
      SoundSnoc(cs[1..], c);
      SoundCons(cs[0], cs[1..] + [c]);
    }
  }

  lemma {:induction false} SoundUpdate(cs: seq<Child>, i: nat, c: Child)
    requires Sound(cs) && i < |cs| && cs[i].name == c.name && SoundNode(c.node)
    ensures Sound(cs[i := c]) && SoundNode(cs[i].node)
  {
    hide Sound, SoundNode, GoodPart;
    var t := cs[1..];
    assert cs == [cs[0]] + t;
    SoundCons(cs[0], t);
    if i == 0 {
      assert cs[0 := c] == [c] + t;
      SoundCons(c, t);
    } else {
      SoundUpdate(t, i - 1, c);
      assert cs[i := c] == [cs[0]] + t[i - 1 := c];
      SoundCons(cs[0], t[i - 1 := c]);
    }
  }

  lemma {:induction false} SoundDir(cs: seq<Child>)
    ensures SoundNode(Dir(cs)) <==> Sound(cs) && cs != []
  {
  }

  lemma {:induction false} SoundAt(cs: seq<Child>, i: nat)
    requires Sound(cs) && i < |cs|
    ensures SoundNode(cs[i].node)
  {
    hide SoundNode;
    assert cs == [cs[0]] + cs[1..];
    SoundCons(cs[0], cs[1..]);
    if i > 0 { SoundAt(cs[1..], i - 1); }
  }

  lemma {:induction false} PutSound(cs: seq<Child>, path: seq<string>, raw: nat, data: seq<byte>)
    requires path != [] && GoodParts(path) && Sound(cs) && Put(cs, path, File(raw, data)).Some?
    ensures var r := Put(cs, path, File(raw, data)).value; Sound(r) && r != []
    decreases |path|
  {
    hide Sound, SoundNode, GoodPart;
    var name, i := path[0], Index(cs, path[0]);
    if |path| == 1 {
      FileSound(raw, data);
      SoundSnoc(cs, Child(name, File(raw, data)));
    } else {
      var below := Below(cs, name).value;
      if i < |cs| { SoundAt(cs, i); SoundDir(below); } else { NothingSound(); }
      PutSound(below, path[1..], raw, data);
      var r := Put(below, path[1..], File(raw, data)).value;
      SoundDir(r);
      if i < |cs| { SoundUpdate(cs, i, Child(name, Dir(r))); } else { SoundSnoc(cs, Child(name, Dir(r))); }
    }
  }

  lemma {:induction false} FileSound(raw: nat, data: seq<byte>)
    ensures SoundNode(File(raw, data))
  {
  }

  lemma {:induction false} NothingSound()
    ensures Sound([])
  {
  }

  // ------------------------------------------------------------- members and files

  /** The file a member stands for. */
  function LeafOf(m: Member): Leaf
    requires SafeRelative(m.name).Some?
  {
    Leaf(SafeRelative(m.name).value, CanonicalMode(m.mode), m.data)
  }

  predicate AllSafe(ms: seq<Member>) { forall i :: 0 <= i < |ms| ==> SafeRelative(ms[i].name).Some? }

  function LeavesOf(ms: seq<Member>): (r: seq<Leaf>)
    requires AllSafe(ms)
    ensures |r| == |ms| && forall i :: 0 <= i < |r| ==> r[i] == LeafOf(ms[i])
  {
    seq(|ms|, i requires 0 <= i < |ms| => LeafOf(ms[i]))
  }

  lemma {:induction false} MemberPath(m: Member, prefix: string)
    requires MemberOk(m, prefix)
    ensures SafeRelative(m.name).Some?
    ensures var p := LeafOf(m).path;
      |p| >= 2 && p[0] == prefix && GoodParts(p) && Join(p) == m.name && p == Parts(m.name)
  {
    SafeIsGood(m.name);
  }

  lemma {:induction false} SafeMembers(ms: seq<Member>, prefix: string)
    requires MembersOk(ms, prefix)
    ensures AllSafe(ms)
  {
    hide SafeRelative;
  }

  lemma {:induction false} NamesAscend(ms: seq<Member>, i: nat, j: nat)
    requires Ascending(Names(ms), NameBytes) && i < j < |ms|
    ensures LexLt(NameBytes(ms[i].name), NameBytes(ms[j].name))
  {
    hide LexLt;
    var names := Names(ms);
    assert LexLt(NameBytes(names[i]), NameBytes(names[j]));
  }

  lemma {:induction false} NotParent(names: seq<string>, parts: seq<string>, k: nat, i: nat)
    requires NoParentIn(names, parts) && k < |parts| && i < |names|
    ensures names[i] != AsPosix(parts[..k])
  {
  }

  /** What ascending names are: of any two, the earlier has the smaller byte where they first differ. */
  lemma {:induction false} AscendingBytes(names: seq<string>)
    ensures Ascending(names, NameBytes) <==>
      forall i, j :: 0 <= i < j < |names| ==> Smaller(Utf8.Encode(names[i]), Utf8.Encode(names[j]))
  {
    hide Utf8.Encode, Smaller, LexLt;
    forall i, j | 0 <= i < j < |names|
      ensures LexLt(NameBytes(names[i]), NameBytes(names[j])) <==>
        Smaller(Utf8.Encode(names[i]), Utf8.Encode(names[j]))
    {
      LexExactly(Utf8.Encode(names[i]), Utf8.Encode(names[j]));
    }
  }

  /** No accepted path is another one, or leads to it. */
  lemma {:induction false} PathsApart(ms: seq<Member>, prefix: string, i: nat, j: nat)
    requires MembersOk(ms, prefix) && Ascending(Names(ms), NameBytes) && NoConflict(Names(ms))
    requires i < |ms| && j < |ms| && i != j
    ensures SafeRelative(ms[i].name).Some? && SafeRelative(ms[j].name).Some?
    ensures !(LeafOf(ms[i]).path <= LeafOf(ms[j]).path)
  {
    hide SafeRelative, Parts, Join, LexLt, NameBytes, AsPosix, NoParentIn;
    MemberPath(ms[i], prefix);
    MemberPath(ms[j], prefix);
    var p, q, names := LeafOf(ms[i]).path, LeafOf(ms[j]).path, Names(ms);
    if p <= q {
      if |p| < |q| {
        assert names[j] == ms[j].name && names[i] == ms[i].name;
        assert NoParentIn(names, Parts(names[j]));
        assert q[..|p|] == p;
        AsPosixIs(p);
        NotParent(names, q, |p|, i);
      } else {
        assert p == q;
        var a, b := if i < j then i else j, if i < j then j else i;
        NamesAscend(ms, a, b);
        assert names[a] == names[b];
        LexIrreflexive(NameBytes(names[a]));
      }
    }
  }

  lemma {:induction false} ModeKept(m: Member)
    requires m.mode == MODE_644 || m.mode == MODE_755
    ensures CanonicalMode(REGULAR_FILE + m.mode) == CanonicalMode(m.mode)
  {
  }

  // ---------------------------------------------------------------------- extraction

  /** What extraction has built after some members. */
  ghost predicate Built(cs: seq<Child>, ms: seq<Member>, prefix: string)
    requires AllSafe(ms)
  {
    && Sound(cs) && multiset(Flat(cs, [])) == multiset(LeavesOf(ms))
    && (cs == [] || (|cs| == 1 && cs[0].name == prefix && cs[0].node.Dir?))
  }

  lemma {:induction false} PutShape(cs: seq<Child>, path: seq<string>, file: Node)
    requires |path| >= 2 && (cs == [] || (|cs| == 1 && cs[0].name == path[0] && cs[0].node.Dir?))
    requires Put(cs, path, file).Some?
    ensures var r := Put(cs, path, file).value; |r| == 1 && r[0].name == path[0] && r[0].node.Dir?
  {
  }

  /** One more valid member: it does not collide, and adds its file. */
  lemma {:induction false} ExtractNext(cs: seq<Child>, ms: seq<Member>, n: nat, prefix: string)
    requires MembersOk(ms, prefix) && Ascending(Names(ms), NameBytes) && NoConflict(Names(ms)) && n < |ms|
    requires AllSafe(ms) && AllSafe(ms[..n]) && AllSafe(ms[..n + 1]) && Built(cs, ms[..n], prefix)
    ensures LeafOf(ms[n]).path != [] && Put(cs, LeafOf(ms[n]).path, FileOf(ms[n])).Some?
    ensures Built(Put(cs, LeafOf(ms[n]).path, FileOf(ms[n])).value, ms[..n + 1], prefix)
  {
    hide SafeRelative, Parts, Join, Put, Flat, Sound, Clear, FullAll, WellNamedAll, RegularAll, Ascending, NoConflict,
         CanonicalMode, GoodParts, MembersOk, LeavesOf;
    var m := ms[n];
    assert MemberOk(m, prefix) by { OneMember(ms, prefix, n); }
    MemberPath(m, prefix);
    ModeKept(m);
    var path, raw := LeafOf(m).path, REGULAR_FILE + m.mode;
    assert [] + path == path;
    NextClear(cs, ms, n, prefix);
    SoundFull(cs);
    PutSucceeds(cs, path, raw, m.data, []);
    PutFlat(cs, path, raw, m.data, []);
    PutSound(cs, path, raw, m.data);
    PutShape(cs, path, FileOf(m));
    LeavesSnoc(ms, n);
  }

  lemma {:induction false} NextClear(cs: seq<Child>, ms: seq<Member>, n: nat, prefix: string)
    requires MembersOk(ms, prefix) && Ascending(Names(ms), NameBytes) && NoConflict(Names(ms)) && n < |ms|
    requires AllSafe(ms) && AllSafe(ms[..n]) && multiset(Flat(cs, [])) == multiset(LeavesOf(ms[..n]))
    ensures Clear(cs, [], LeafOf(ms[n]).path)
  {
    hide SafeRelative, LeafOf, Flat, Ascending, NoConflict, MembersOk;
    var path := LeafOf(ms[n]).path;
    forall l | l in Flat(cs, []) ensures !(l.path <= path) && !(path <= l.path) {
      assert l in multiset(LeavesOf(ms[..n]));
      var i :| 0 <= i < n && LeavesOf(ms[..n])[i] == l;
      assert l == LeafOf(ms[i]);
      PathsApart(ms, prefix, i, n);
      PathsApart(ms, prefix, n, i);
    }
  }

  lemma {:induction false} OneMember(ms: seq<Member>, prefix: string, n: nat)
    requires MembersOk(ms, prefix) && n < |ms|
    ensures MemberOk(ms[n], prefix)
  {
    hide MemberOk;
  }

  lemma {:induction false} SoundFull(cs: seq<Child>)
    requires Sound(cs)
    ensures FullAll(cs) && RegularAll(cs) && WellNamedAll(cs)
  {
  }

  lemma {:induction false} LeavesSnoc(ms: seq<Member>, n: nat)
    requires n < |ms| && AllSafe(ms) && AllSafe(ms[..n]) && AllSafe(ms[..n + 1])
    ensures multiset(LeavesOf(ms[..n + 1])) == multiset(LeavesOf(ms[..n])) + multiset{LeafOf(ms[n])}
  {
    hide SafeRelative, LeafOf;
    assert LeavesOf(ms[..n + 1]) == LeavesOf(ms[..n]) + [LeafOf(ms[n])];
  }

  lemma {:induction false} ExtractAll(cs: seq<Child>, ms: seq<Member>, n: nat, prefix: string)
    requires MembersOk(ms, prefix) && Ascending(Names(ms), NameBytes) && NoConflict(Names(ms)) && n <= |ms|
    requires AllSafe(ms) && AllSafe(ms[..n]) && Built(cs, ms[..n], prefix)
    ensures Extract(cs, ms[n..]).Some? && Built(Extract(cs, ms[n..]).value, ms, prefix)
    decreases |ms| - n
  {
    hide SafeRelative, Put, Built, Ascending, NoConflict, MembersOk, LeafOf;
    if n == |ms| {
      assert ms[..n] == ms && ms[n..] == [];
    } else {
      assert AllSafe(ms[..n + 1]);
      ExtractNext(cs, ms, n, prefix);
      LeafPath(ms[n]);
      assert ms[n..][0] == ms[n] && ms[n..][1..] == ms[n + 1..];
      ExtractAll(Put(cs, LeafOf(ms[n]).path, FileOf(ms[n])).value, ms, n + 1, prefix);
    }
  }

  lemma {:induction false} LeafPath(m: Member)
    requires SafeRelative(m.name).Some?
    ensures LeafOf(m).path == SafeRelative(m.name).value
  {
  }

  // --------------------------------------------------------------------------- seals

  lemma {:induction false} LeavesAscend(ms: seq<Member>, prefix: string)
    requires MembersOk(ms, prefix) && Ascending(Names(ms), NameBytes) && AllSafe(ms)
    ensures Ascending(LeavesOf(ms), PathKey)
  {
    hide SafeRelative, Parts, LexLt, NameBytes, MemberOk, LeafOf;
    var ls := LeavesOf(ms);
    forall i, j | 0 <= i < j < |ls| ensures LexLt(PathKey(ls[i]), PathKey(ls[j])) {
      MemberPath(ms[i], prefix);
      MemberPath(ms[j], prefix);
      NamesAscend(ms, i, j);
    }
  }

  lemma {:induction false} AscendingDistinct<T>(xs: seq<T>, key: T -> seq<int>)
    requires Ascending(xs, key)
    ensures DistinctKeys(xs, key)
  {
    forall i, j | 0 <= i < j < |xs| ensures key(xs[i]) != key(xs[j]) { LexIrreflexive(key(xs[i])); }
  }

  /** A valid archive's own seal is the seal of the files its members stand for. */
  lemma {:induction false} TarSealIs(h: Digest, ms: seq<Member>, prefix: string)
    requires MembersOk(ms, prefix) && Ascending(Names(ms), NameBytes) && AllSafe(ms)
    ensures TarSeal(h, ms) == TreeSeal(h, LeavesOf(ms))
  {
    hide SafeRelative, Parts, LexLt, NameBytes, Sort, Join, CanonicalMode;
    var ls, rs := LeavesOf(ms), MemberRecords(h, ms);
    LeavesAscend(ms, prefix);
    SortOfAscending(ls, PathKey);
    forall i, j | 0 <= i < j < |rs| ensures LexLt(RecordKey(rs[i]), RecordKey(rs[j])) {
      NamesAscend(ms, i, j);
    }
    SortOfAscending(rs, RecordKey);
    forall i | 0 <= i < |rs| ensures rs[i] == RecordsOf(h, ls)[i] { MemberPath(ms[i], prefix); }
    assert rs == RecordsOf(h, ls);
  }

  lemma {:induction false} OsNamedOf(cs: seq<Child>)
    requires WellNamedAll(cs)
    ensures OsNamedAll(cs)
    decreases cs
  {
    if cs != [] {
      if cs[0].node.Dir? { OsNamedOf(cs[0].node.children); }
      OsNamedOf(cs[1..]);
    }
  }

  lemma {:induction false} IndexBeside(cs: seq<Child>, own: seq<Child>, name: string)
    requires Absent(cs, name)
    ensures Index(cs + own, name) == |cs| + Index(own, name)
  {
    if cs == [] {
      assert cs + own == own;
    } else {
      assert (cs + own)[1..] == cs[1..] + own;
      IndexBeside(cs[1..], own, name);
    }
  }

  function Beside(cs: seq<Child>, own: Option<seq<Child>>): Option<seq<Child>>
  {
    if own.None? then None else Some(cs + own.value)
  }

  /** What is put under a name of its own leaves the other entries as they are. */
  lemma {:induction false} PutBeside(cs: seq<Child>, own: seq<Child>, path: seq<string>, file: Node)
    requires |path| >= 2 && Absent(cs, path[0])
    ensures Put(cs + own, path, file) == Beside(cs, Put(own, path, file))
  {
    IndexBeside(cs, own, path[0]);
    hide Put;
    var i := Index(own, path[0]);
    assert i < |own| ==> (cs + own)[|cs| + i] == own[i];
    PutUnder(cs + own, path, file);
    PutUnder(own, path, file);
    var below := Below(own, path[0]);
    if below.Some? && Put(below.value, path[1..], file).Some? {
      WithBeside(cs, own, path[0], Put(below.value, path[1..], file).value);
    }
  }

  lemma {:induction false} PutUnder(cs: seq<Child>, path: seq<string>, file: Node)
    requires |path| >= 2
    ensures Put(cs, path, file) ==
      var below := Below(cs, path[0]);
      if below.None? || Put(below.value, path[1..], file).None? then None
      else Some(WithDir(cs, path[0], Put(below.value, path[1..], file).value))
  {
  }

  lemma {:induction false} WithBeside(cs: seq<Child>, own: seq<Child>, name: string, below: seq<Child>)
    requires Absent(cs, name)
    ensures WithDir(cs + own, name, below) == cs + WithDir(own, name, below)
  {
    IndexBeside(cs, own, name);
  }

  /** A payload extracts beside other entries as it does alone. */
  lemma {:induction false} ExtractBeside(cs: seq<Child>, own: seq<Child>, ms: seq<Member>, prefix: string)
    requires MembersOk(ms, prefix) && Absent(cs, prefix)
    ensures Extract(cs + own, ms) == Beside(cs, Extract(own, ms))
    decreases |ms|
  {
    hide SafeRelative, Put, MemberOk;
    if ms != [] {
      MemberParts(ms[0], prefix);
      var path := SafeRelative(ms[0].name).value;
      PutBeside(cs, own, path, FileOf(ms[0]));
      var next := Put(own, path, FileOf(ms[0]));
      if next.Some? { ExtractBeside(cs, next.value, ms[1..], prefix); }
    }
  }

  lemma {:induction false} MemberParts(m: Member, prefix: string)
    requires MemberOk(m, prefix)
    ensures var parts := SafeRelative(m.name); parts.Some? && |parts.value| >= 2 && parts.value[0] == prefix
  {
  }

  /** Every valid archive extracts without a collision into a directory that has no entry named as its
      prefix, leaves the other entries as they are, and the extracted tree walks to as many files with
      the archive's own seal. */
  lemma {:induction false} ExtractedSeal(h: Digest, a: Archive, prefix: string,
                                         dest: seq<Child>) returns (below: seq<Child>)
    requires Valid(a, prefix) && Absent(dest, prefix)
    ensures Extract(dest, a.members.value) == Some(dest + [Child(prefix, Dir(below))])
    ensures WellNamedAll(below) && FullAll(below)
    ensures var entries := Walk(Dir(below), prefix);
      entries.Some? && |entries.value| == |a.members.value| && TreeSeal(h, entries.value) == TarSeal(h, a.members.value)
    ensures AllSafe(a.members.value) && multiset(Walk(Dir(below), prefix).value) == multiset(LeavesOf(a.members.value))
  {
    hide SafeRelative, MemberOk, NoConflict, Ascending, Extract, Walk, Sort, Flat, LeavesOf, TreeSeal, TarSeal;
    var ms := a.members.value;
    SafeMembers(ms, prefix);
    assert AllSafe(ms[..0]) && ms[0..] == ms;
    BuiltNothing(ms[..0], prefix);
    ExtractAll([], ms, 0, prefix);
    var cs := Extract([], ms).value;
    MembersOne(ms, prefix);
    BuiltOne(cs, ms, prefix);
    below := cs[0].node.children;
    ExtractBeside(dest, [], ms, prefix);
    assert dest + [] == dest;
    OsNamedOf(below) by { SoundBelow(cs); }
    SoundBelow(cs);
    JoinOnly(prefix);
    WalkExactly(below, [prefix]);
    var entries := Walk(Dir(below), prefix).value;
    LeavesAscend(ms, prefix);
    AscendingDistinct(LeavesOf(ms), PathKey);
    SealPermutes(h, LeavesOf(ms), entries);
    TarSealIs(h, ms, prefix);
  }

  lemma {:induction false} BuiltNothing(ms: seq<Member>, prefix: string)
    requires ms == []
    ensures Built([], ms, prefix)
  {
  }

  lemma {:induction false} MembersOne(ms: seq<Member>, prefix: string)
    requires MembersOk(ms, prefix) && ms != []
    ensures GoodPart(prefix)
  {
    hide SafeRelative, Parts, Join, GoodPart;
    MemberPath(ms[0], prefix);
  }

  lemma {:induction false} SealPermutes(h: Digest, a: seq<Leaf>, b: seq<Leaf>)
    requires multiset(a) == multiset(b) && DistinctKeys(a, PathKey)
    ensures TreeSeal(h, a) == TreeSeal(h, b) && |a| == |b|
  {
    hide Sort, DistinctKeys, PathKey;
    SortPermutation(a, b, PathKey);
    assert |multiset(a)| == |a| && |multiset(b)| == |b|;
  }

  /** What is built from members is the one directory of the prefix, with their files below it. */
  lemma {:induction false} BuiltOne(cs: seq<Child>, ms: seq<Member>, prefix: string)
    requires AllSafe(ms) && Built(cs, ms, prefix) && ms != []
    ensures |cs| == 1 && cs[0].node.Dir? && cs == [Child(prefix, cs[0].node)] && Sound(cs)
    ensures Flat(cs[0].node.children, [prefix]) != []
    ensures multiset(Flat(cs[0].node.children, [prefix])) == multiset(LeavesOf(ms))
  {
    hide SafeRelative, Flat, Sound, LeavesOf;
    FlatNothing([]);
    assert |multiset(LeavesOf(ms))| == |ms| && |multiset(Flat(cs, []))| == |Flat(cs, [])|;
    var below := cs[0].node.children;
    assert cs == [Child(prefix, Dir(below))];
    FlatDir(prefix, below, []);
    assert [] + [prefix] == [prefix];
  }

  lemma {:induction false} SoundBelow(cs: seq<Child>)
    requires Sound(cs) && |cs| == 1 && cs[0].node.Dir?
    ensures WellNamedAll(cs[0].node.children) && RegularAll(cs[0].node.children) && FullAll(cs[0].node.children)
  {
    hide WellNamedAll, RegularAll, FullAll, SoundNode;
    SoundAt(cs, 0);
    SoundDir(cs[0].node.children);
  }

  // ------------------------------------------------------------------ a written tree

  lemma {:induction false} NodeBelow(n: Node, rel: seq<string>, l: Leaf)
    requires l in FlatNode(n, rel)
    ensures rel <= l.path
    decreases n, 0
  {
    if n.Dir? { FlatBelow(n.children, rel, l); }
  }

  lemma {:induction false} FlatBelow(cs: seq<Child>, rel: seq<string>, l: Leaf)
    requires l in Flat(cs, rel)
    ensures rel <= l.path && |rel| < |l.path| && exists i :: 0 <= i < |cs| && cs[i].name == l.path[|rel|]
    decreases cs, 1
  {
    if l in FlatNode(cs[0].node, rel + [cs[0].name]) {
      NodeBelow(cs[0].node, rel + [cs[0].name], l);
      assert l.path[|rel|] == (rel + [cs[0].name])[|rel|] == cs[0].name;
    } else {
      FlatBelow(cs[1..], rel, l);
      var i :| 0 <= i < |cs[1..]| && cs[1..][i].name == l.path[|rel|];
      assert cs[i + 1].name == l.path[|rel|];
    }
  }

  /** No path is another one, or leads to it. */
  ghost predicate Apart(ls: seq<Leaf>)
  {
    forall i, j :: 0 <= i < |ls| && 0 <= j < |ls| && i != j ==> !(ls[i].path <= ls[j].path)
  }

  lemma {:induction false} ApartAppend(a: seq<Leaf>, b: seq<Leaf>)
    requires Apart(a) && Apart(b)
    requires forall x, y :: x in a && y in b ==> !(x.path <= y.path) && !(y.path <= x.path)
    ensures Apart(a + b)
  {
    var c := a + b;
    forall i, j | 0 <= i < |c| && 0 <= j < |c| && i != j ensures !(c[i].path <= c[j].path) {
      assert i < |a| ==> c[i] == a[i];
      assert j < |a| ==> c[j] == a[j];
      assert i >= |a| ==> c[i] == b[i - |a|];
      assert j >= |a| ==> c[j] == b[j - |a|];
    }
  }

  /** In a tree on disk no file stands on the way to another. */
  lemma {:induction false} FlatApart(cs: seq<Child>, rel: seq<string>)
    requires WellNamedAll(cs)
    ensures Apart(Flat(cs, rel))
    decreases cs
  {
    if cs != [] {
      var name := cs[0].name;
      var a, b := FlatNode(cs[0].node, rel + [name]), Flat(cs[1..], rel);
      if cs[0].node.Dir? { FlatApart(cs[0].node.children, rel + [name]); }
      FlatApart(cs[1..], rel);
      forall x, y | x in a && y in b ensures !(x.path <= y.path) && !(y.path <= x.path) {
        NodeBelow(cs[0].node, rel + [name], x);
        FlatBelow(cs[1..], rel, y);
        assert x.path[|rel|] == (rel + [name])[|rel|] == name;
      }
      ApartAppend(a, b);
    }
  }

  predicate LeafOk(l: Leaf) { GoodParts(l.path) && (l.mode == "100755" || l.mode == "100644") }

  lemma {:induction false} FlatGood(cs: seq<Child>, rel: seq<string>, l: Leaf)
    requires RegularAll(cs) && GoodParts(rel) && l in Flat(cs, rel)
    ensures LeafOk(l)
    decreases cs
  {
    hide GoodPart;
    var path := rel + [cs[0].name];
    if l in FlatNode(cs[0].node, path) {
      if cs[0].node.Dir? { FlatGood(cs[0].node.children, path, l); }
    } else {
      FlatGood(cs[1..], rel, l);
    }
  }

  lemma {:induction false} MemberOfLeaf(l: Leaf)
    requires LeafOk(l) && |l.path| >= 2
    ensures MemberOk(ToMember(l), l.path[0]) && LeafOf(ToMember(l)) == l
  {
    hide SafeRelative, Join, GoodPart;
    GoodIsSafe(l.path);
    assert "100755"[5] == '5' && "100644"[5] == '4';
    assert CanonicalMode(MODE_755) == "100755" && CanonicalMode(MODE_644) == "100644";
  }

  lemma {:induction false} KeysDistinct(ls: seq<Leaf>)
    requires Apart(ls) && forall l :: l in ls ==> LeafOk(l) && l.path != []
    ensures DistinctKeys(ls, PathKey)
  {
    hide GoodPart, Join;
    forall i, j | 0 <= i < j < |ls| ensures PathKey(ls[i]) != PathKey(ls[j]) {
      assert LeafOk(ls[i]) && LeafOk(ls[j]);
      if PathKey(ls[i]) == PathKey(ls[j]) { SamePath(ls[i].path, ls[j].path); }
    }
  }

  lemma {:induction false} SamePath(a: seq<string>, b: seq<string>)
    requires a != [] && b != [] && GoodParts(a) && GoodParts(b) && NameBytes(Join(a)) == NameBytes(Join(b))
    ensures a == b
  {
    hide Join, GoodParts;
    Utf8.EncodeInjective(Join(a), Join(b));
    JoinInjective(a, b);
  }

  /** What the files of a walked tree are like, in any order. */
  ghost predicate Archivable(ls: seq<Leaf>, prefix: seq<string>)
  {
    && DistinctKeys(ls, PathKey)
    && (forall l :: l in ls ==> LeafOk(l) && prefix < l.path)
    && (forall x, y :: x in ls && y in ls ==> !(x.path < y.path))
  }

  lemma {:induction false} WalkArchivable(cs: seq<Child>, prefix: seq<string>)
    requires WellNamedAll(cs) && RegularAll(cs) && prefix != [] && GoodParts(prefix)
    ensures Archivable(Flat(cs, prefix), prefix)
  {
    hide Flat, LeafOk, RegularAll, GoodParts, WellNamedAll, DistinctKeys;
    var ls := Flat(cs, prefix);
    forall l | l in ls ensures LeafOk(l) && prefix < l.path {
      FlatGood(cs, prefix, l);
      FlatBelow(cs, prefix, l);
    }
    FlatApart(cs, prefix);
    KeysDistinct(ls);
    forall x, y | x in ls && y in ls ensures !(x.path < y.path) {
      var i :| 0 <= i < |ls| && ls[i] == x;
      var j :| 0 <= j < |ls| && ls[j] == y;
    }
  }

  lemma {:induction false} ArchivablePermutes(a: seq<Leaf>, b: seq<Leaf>, prefix: seq<string>)
    requires Archivable(a, prefix) && multiset(a) == multiset(b)
    ensures Archivable(b, prefix)
  {
    hide LeafOk, DistinctKeys;
    DistinctKeysPermutation(a, b, PathKey);
    forall l | l in b ensures l in a { assert l in multiset(b); }
  }

  lemma {:induction false} WrittenMember(l: Leaf, prefix: seq<string>)
    requires LeafOk(l) && prefix < l.path && prefix != [] && GoodParts(prefix)
    ensures MemberOk(ToMember(l), Join(prefix)) <==> |prefix| == 1
  {
    hide SafeRelative, GoodPart, LeafOk;
    MemberOfLeaf(l);
    assert l.path[0] == prefix[0];
    if |prefix| == 1 {
      assert Join(prefix) == prefix[0];
    } else {
      LongPrefix(prefix);
      GoodLeaf(l);
      hide Join;
      GoodIsSafe(l.path);
    }
  }

  lemma {:induction false} GoodLeaf(l: Leaf)
    requires LeafOk(l)
    ensures GoodParts(l.path)
  {
  }

  lemma {:induction false} LongPrefix(prefix: seq<string>)
    requires |prefix| >= 2 && GoodParts(prefix)
    ensures Join(prefix) != prefix[0]
  {
    JoinStep(prefix);
    assert Join(prefix)[|prefix[0]|] == '/';
  }

  lemma {:induction false} WrittenNames(ls: seq<Leaf>)
    requires Ascending(ls, PathKey)
    ensures Ascending(Names(ToMembers(ls)), NameBytes)
  {
    hide LexLt, NameBytes, Join;
    var names := Names(ToMembers(ls));
    forall i, j | 0 <= i < j < |names| ensures LexLt(NameBytes(names[i]), NameBytes(names[j])) {
      assert LexLt(PathKey(ls[i]), PathKey(ls[j]));
    }
  }

  lemma {:induction false} WrittenApart(ls: seq<Leaf>, prefix: seq<string>)
    requires Archivable(ls, prefix)
    ensures NoConflict(Names(ToMembers(ls)))
  {
    hide Join, GoodPart, AsPosix, Parts, DistinctKeys, LeafOk;
    var names := Names(ToMembers(ls));
    forall i | 0 <= i < |names| ensures NoParentIn(names, Parts(names[i])) {
      var path := ls[i].path;
      assert ls[i] in ls;
      GoodLeaf(ls[i]);
      PartsOf(path);
      forall k | 0 <= k < |path| ensures AsPosix(path[..k]) !in names {
        if AsPosix(path[..k]) in names {
          var j :| 0 <= j < |names| && names[j] == AsPosix(path[..k]);
          assert ls[j] in ls;
          GoodLeaf(ls[j]);
          SamePosix(path[..k], ls[j].path);
        }
      }
    }
  }

  lemma {:induction false} PartsOf(path: seq<string>)
    requires path != [] && GoodParts(path)
    ensures Parts(Join(path)) == path
  {
    GoodIsSafe(path);
  }

  lemma {:induction false} SamePosix(a: seq<string>, b: seq<string>)
    requires GoodParts(a) && GoodParts(b) && b != [] && Join(b) == AsPosix(a)
    ensures a == b
  {
    hide Join, GoodParts, SafeRelative;
    SafeExactly(AsPosix(a), a);
    GoodIsSafe(b);
  }

  /** The archive written from a tree's files is valid exactly when the prefix is one component. */
  lemma {:induction false} WrittenValid(entries: seq<Leaf>, prefix: seq<string>)
    requires Archivable(entries, prefix) && entries != [] && prefix != [] && GoodParts(prefix)
    ensures Valid(WriteTar(entries), Join(prefix)) <==> |prefix| == 1
  {
    hide LeafOk, Join, GoodParts, SafeRelative, MemberOk, NoConflict, DistinctKeys, Ascending, Sort, ToMember;
    var sorted := Sort(entries, PathKey);
    ArchivablePermutes(entries, sorted, prefix);
    SortAscending(entries, PathKey);
    WrittenNames(sorted);
    WrittenApart(sorted, prefix);
    GoodIsSafe(prefix);
    var ms := ToMembers(sorted);
    forall i | 0 <= i < |ms| ensures MemberOk(ms[i], Join(prefix)) <==> |prefix| == 1 {
      assert sorted[i] in sorted;
      WrittenMember(sorted[i], prefix);
    }
    assert MembersOk(ms, Join(prefix)) ==> MemberOk(ms[0], Join(prefix));
  }

  lemma {:induction false} WrittenLeaves(ls: seq<Leaf>, prefix: seq<string>)
    requires Archivable(ls, prefix) && prefix != []
    ensures AllSafe(ToMembers(ls)) && LeavesOf(ToMembers(ls)) == ls
  {
    hide LeafOk, SafeRelative, Join, DistinctKeys, LeafOf, ToMember;
    var ms := ToMembers(ls);
    forall i | 0 <= i < |ms| ensures SafeRelative(ms[i].name).Some? && LeafOf(ms[i]) == ls[i] {
      assert ls[i] in ls;
      MemberOfLeaf(ls[i]);
    }
  }

  /** One seal: of a payload tree on disk, of the archive written from it, and of the tree the archive
      extracts to beside any other entries, which holds the same files. */
  lemma {:induction false} OneSeal(h: Digest, cs: seq<Child>, prefix: string,
                                   dest: seq<Child>) returns (below: seq<Child>)
    requires WellNamedAll(cs) && GoodPart(prefix) && Walk(Dir(cs), prefix).Some? && Absent(dest, prefix)
    ensures var entries := Walk(Dir(cs), prefix).value;
      var a := WriteTar(entries);
      && Valid(a, prefix) && |a.members.value| == |entries| && TarSeal(h, a.members.value) == TreeSeal(h, entries)
      && Extract(dest, a.members.value) == Some(dest + [Child(prefix, Dir(below))]) && Walk(Dir(below), prefix).Some?
      && TreeSeal(h, Walk(Dir(below), prefix).value) == TreeSeal(h, entries)
      && multiset(Walk(Dir(below), prefix).value) == multiset(entries)
  {
    hide Walk, Flat, Join, GoodPart, SafeRelative, Sort, TreeSeal, TarSeal, Extract, Valid, RegularAll, WellNamedAll,
         OsNamedAll, Archivable, LeavesOf;
    JoinOnly(prefix);
    OsNamedOf(cs);
    WalkExactly(cs, [prefix]);
    WalkArchivable(cs, [prefix]);
    var entries := Walk(Dir(cs), prefix).value;
    ArchivablePermutes(Flat(cs, [prefix]), entries, [prefix]);
    WalkSome(cs, prefix);
    WrittenValid(entries, [prefix]);
    var sorted := Sort(entries, PathKey);
    ArchivablePermutes(entries, sorted, [prefix]);
    WrittenLeaves(sorted, [prefix]);
    var ms := ToMembers(sorted);
    assert MembersOk(ms, prefix) && Ascending(Names(ms), NameBytes) by { ValidMembers(WriteTar(entries), prefix); }
    TarSealIs(h, ms, prefix);
    ArchivableKeys(entries, [prefix]);
    SealPermutes(h, entries, sorted);
    below := ExtractedSeal(h, WriteTar(entries), prefix, dest);
  }

  lemma {:induction false} ArchivableKeys(ls: seq<Leaf>, prefix: seq<string>)
    requires Archivable(ls, prefix)
    ensures DistinctKeys(ls, PathKey)
  {
  }

  lemma {:induction false} WalkSome(cs: seq<Child>, prefix: string)
    requires Walk(Dir(cs), prefix).Some?
    ensures Walk(Dir(cs), prefix).value != []
  {
    hide Visit, SafeRelative, Sort;
  }

  lemma {:induction false} ValidMembers(a: Archive, prefix: string)
    requires Valid(a, prefix)
    ensures MembersOk(a.members.value, prefix) && Ascending(Names(a.members.value), NameBytes)
  {
  }

  // ------------------------------------------------------------ what a seal promises

  lemma {:induction false} RecordPlain(r: Record)
    ensures J.Plain(RecordJson(r))
  {
    var fields := RecordJson(r).fields;
    var size := Decimal.Text(r.size);
    assert Decimal.IsDigit(size[0]) && forall i :: 0 <= i < |size| ==> Decimal.IsDigit(size[i]);
    hide Decimal.Text;
    assert forall k :: k in fields ==> J.Plain(fields[k]);
  }

  lemma {:induction false} RecordsPlain(rs: seq<Record>)
    ensures J.Plain(RecordsJson(rs))
  {
    hide RecordJson;
    forall i | 0 <= i < |rs| ensures J.Plain(RecordJson(rs[i])) { RecordPlain(rs[i]); }
  }

  lemma {:induction false} RecordFields(r: Record)
    ensures var j := RecordJson(r);
      && "mode" in j.fields && "path" in j.fields && "sha256" in j.fields && "size" in j.fields
      && j.fields["mode"] == J.Str(r.mode) && j.fields["path"] == J.Str(r.path)
      && j.fields["sha256"] == J.Str(r.digest) && j.fields["size"] == J.Number(Decimal.Text(r.size))
  {
    hide Decimal.Text;
    assert "mode"[0] == 'm' && "path"[0] == 'p' && |"sha256"| == 6 && "size"[0] == 's';
  }

  lemma {:induction false} RecordOne(r: Record, q: Record)
    requires RecordJson(r) == RecordJson(q)
    ensures r == q
  {
    RecordFields(r);
    RecordFields(q);
    hide RecordJson, Decimal.Text;
    Decimal.ValueOfText(r.size);
    Decimal.ValueOfText(q.size);
  }

  /** The canonical text tells any two record lists apart. */
  lemma {:induction false} CanonicalOne(rs: seq<Record>, qs: seq<Record>)
    requires Canonical(rs) == Canonical(qs)
    ensures rs == qs
  {
    hide RecordJson, J.Write, J.Plain;
    var x, y := J.Write(RecordsJson(rs)), J.Write(RecordsJson(qs));
    Utf8.EncodeInjective(x + "\n", y + "\n");
    assert (x + "\n")[..|x|] == x && (y + "\n")[..|y|] == y;
    RecordsPlain(rs);
    RecordsPlain(qs);
    J.WriteInjective(RecordsJson(rs), RecordsJson(qs));
    var a, b := RecordsJson(rs).items, RecordsJson(qs).items;
    assert |rs| == |a| == |b| == |qs|;
    forall i | 0 <= i < |rs| ensures rs[i] == qs[i] {
      assert a[i] == b[i];
      RecordOne(rs[i], qs[i]);
    }
  }

  /** The digest does not take one file for another of the same path, nor one of the two record
      lists for the other. */
  ghost predicate TellsApart(h: Digest, a: seq<Leaf>, b: seq<Leaf>)
  {
    && (forall x, y :: x in a && y in b && x.path == y.path && h(x.data) == h(y.data) ==> x.data == y.data)
    && var rs, qs := RecordsOf(h, Sort(a, PathKey)), RecordsOf(h, Sort(b, PathKey));
       Seal(h, rs) == Seal(h, qs) ==> Canonical(rs) == Canonical(qs)
  }

  lemma {:induction false} SameRecord(h: Digest, x: Leaf, y: Leaf)
    requires LeafOk(x) && LeafOk(y) && x.path != [] && y.path != [] && RecordOf(h, x) == RecordOf(h, y)
    requires x.path == y.path && h(x.data) == h(y.data) ==> x.data == y.data
    ensures x == y
  {
    hide Join, GoodParts;
    JoinInjective(x.path, y.path);
  }

  /** Unless the digest collides on what they hold, two trees have one seal exactly when they hold
      the same files. */
  lemma {:induction false} SealExactly(h: Digest, a: seq<Leaf>, b: seq<Leaf>, prefix: seq<string>)
    requires TellsApart(h, a, b) && Archivable(a, prefix) && Archivable(b, prefix)
    ensures TreeSeal(h, a) == TreeSeal(h, b) <==> multiset(a) == multiset(b)
  {
    hide Sort, LeafOk, DistinctKeys, PathKey, RecordOf, Canonical;
    if multiset(a) == multiset(b) { SealPermutes(h, a, b); }
    if TreeSeal(h, a) == TreeSeal(h, b) {
      var x, y := Sort(a, PathKey), Sort(b, PathKey);
      ArchivablePermutes(a, x, prefix);
      ArchivablePermutes(b, y, prefix);
      CanonicalOne(RecordsOf(h, x), RecordsOf(h, y));
      assert |x| == |RecordsOf(h, x)| == |y|;
      forall i | 0 <= i < |x| ensures x[i] == y[i] {
        assert RecordsOf(h, x)[i] == RecordsOf(h, y)[i];
        assert x[i] in multiset(a) && y[i] in multiset(b) by {
          assert x[i] in multiset(x) && y[i] in multiset(y);
        }
        assert x[i] in x && y[i] in y;
        SameRecord(h, x[i], y[i]);
      }
      assert x == y;
    }
  }

  lemma {:induction false} MembersArchivable(a: Archive, prefix: string)
    requires Valid(a, prefix)
    ensures AllSafe(a.members.value) && Archivable(LeavesOf(a.members.value), [prefix])
    ensures GoodPart(prefix)
  {
    hide SafeRelative, MemberOk, NoConflict, Ascending, Extract, Walk, Sort, Flat, LeavesOf, GoodPart, Archivable,
         RegularAll;
    var below := ExtractedSeal(x => "", a, prefix, []);
    MembersOne(a.members.value, prefix);
    OsNamedOf(below);
    JoinOnly(prefix);
    WalkExactly(below, [prefix]);
    WalkArchivable(below, [prefix]);
    ArchivablePermutes(Flat(below, [prefix]), LeavesOf(a.members.value), [prefix]);
  }

  /** Unless the digest collides on what they hold, a tree on disk has a valid archive's seal exactly
      when it walks to exactly the files of that archive. */
  lemma {:induction false} AcceptedTree(h: Digest, cs: seq<Child>, a: Archive, prefix: string)
    requires Valid(a, prefix) && WellNamedAll(cs) && Walk(Dir(cs), prefix).Some?
    ensures AllSafe(a.members.value)
    ensures
      var entries, files := Walk(Dir(cs), prefix).value, LeavesOf(a.members.value);
      TellsApart(h, entries, files) ==>
        (TreeSeal(h, entries) == TarSeal(h, a.members.value) <==> multiset(entries) == multiset(files))
  {
    hide SafeRelative, MemberOk, NoConflict, Ascending, Walk, Sort, Flat, LeavesOf, TreeSeal, TarSeal, GoodPart,
         Archivable, RegularAll, WellNamedAll, TellsApart;
    MembersArchivable(a, prefix);
    ValidMembers(a, prefix);
    TarSealIs(h, a.members.value, prefix);
    OsNamedOf(cs);
    JoinOnly(prefix);
    WalkExactly(cs, [prefix]);
    WalkArchivable(cs, [prefix]);
    var entries := Walk(Dir(cs), prefix).value;
    ArchivablePermutes(Flat(cs, [prefix]), entries, [prefix]);
    if TellsApart(h, entries, LeavesOf(a.members.value)) {
      SealExactly(h, entries, LeavesOf(a.members.value), [prefix]);
    }
  }

  // -------------------------------------------------------------------- both payloads

  /** A destination that has gained the directory of a payload. */
  ghost predicate Gains(h: Digest, dest: seq<Child>, r: seq<Child>, prefix: string, t: Tally)
  {
    && |r| == |dest| + 1 && r[..|dest|] == dest && r[|dest|].name == prefix && r[|dest|].node.Dir?
    && Matches(h, r[|dest|].node, prefix, t)
  }

  /** A valid payload extracts beside other entries into a directory that matches its own tally. */
  lemma {:induction false} PayloadMatches(h: Digest, a: Archive, prefix: string, dest: seq<Child>)
    requires Absent(dest, prefix)
    ensures Valid(a, prefix) ==>
      && a.members.Some? && Extract(dest, a.members.value).Some?
      && Gains(h, dest, Extract(dest, a.members.value).value, prefix, TallyOf(h, a))
  {
    hide Valid, Extract, Walk, TreeSeal, TarSeal, WellNamedAll, LeavesOf, AllSafe, Absent;
    if Valid(a, prefix) {
      ValidHasMembers(a, prefix);
      var below := ExtractedSeal(h, a, prefix, dest);
    }
  }

  lemma {:induction false} ValidHasMembers(a: Archive, prefix: string)
    requires Valid(a, prefix)
    ensures a.members.Some?
  {
  }

  lemma {:induction false} EntryGained(h: Digest, dest: seq<Child>, r: seq<Child>, prefix: string, t: Tally)
    requires Gains(h, dest, r, prefix, t) && Absent(dest, prefix)
    ensures EntryOf(r, prefix) == r[|dest|].node
    ensures forall i :: 0 <= i < |dest| && Absent(dest[..i], dest[i].name) ==> EntryOf(r, dest[i].name) == dest[i].node
  {
    hide Matches, Index;
    assert r == dest + [r[|dest|]];
    IndexBeside(dest, [r[|dest|]], prefix);
    FoundFirst([r[|dest|]]);
    forall i | 0 <= i < |dest| && Absent(dest[..i], dest[i].name) ensures EntryOf(r, dest[i].name) == dest[i].node {
      assert r == dest[..i] + r[i..];
      assert r[i] == dest[i];
      IndexBeside(dest[..i], r[i..], dest[i].name);
      FoundFirst(r[i..]);
    }
  }

  lemma {:induction false} FoundFirst(cs: seq<Child>)
    requires cs != []
    ensures Index(cs, cs[0].name) == 0
  {
  }
}
