/** Which archives are valid, what extracting one leaves on disk, and what a seal digests. */
module KitArchives {
  import opened Wrappers
  import opened Ordering
  import opened KitPaths
  import opened KitTree
  import opened OfflineKit
  import opened OfflineKitTheorems
  import Decimal
  import J = Json

  // ------------------------------------------------------------------ valid archives

  lemma {:induction false} WrittenBack(m: Member, prefix: string)
    requires MemberOk(m, prefix)
    ensures SafeRelative(m.name).Some? && ToMember(LeafOf(m)) == m
  {
    hide SafeRelative, Parts, Join;
    MemberPath(m, prefix);
    assert CanonicalMode(MODE_755) == "100755" && CanonicalMode(MODE_644) == "100644";
  }

  /** The validator accepts exactly the archives that the writer writes: a gzip header without a name
      or a time, and in ascending order one plain regular member per file below the prefix. */
  lemma {:induction false} ValidExactly(a: Archive, prefix: string)
    ensures Valid(a, prefix) <==>
      && GoodPart(prefix)
      && exists entries :: entries != [] && Archivable(entries, [prefix]) && a == WriteTar(entries)
    ensures Valid(a, prefix) ==> a.header == [0x1F, 0x8B, 8, 0, 0, 0, 0, 0, 2, 0xFF]
  {
    assert Valid(a, prefix) ==> a.header == [0x1F, 0x8B, 8, 0, 0, 0, 0, 0, 2, 0xFF];
    hide Valid, Archivable, WriteTar, GoodPart;
    if Valid(a, prefix) {
      WrittenFrom(a, prefix);
      MembersArchivable(a, prefix);
      var entries := LeavesOf(a.members.value);
      assert entries != [] && Archivable(entries, [prefix]) && a == WriteTar(entries);
    }
    if GoodPart(prefix) && exists entries :: entries != [] && Archivable(entries, [prefix]) && a == WriteTar(entries) {
      var entries :| entries != [] && Archivable(entries, [prefix]) && a == WriteTar(entries);
      assert GoodParts([prefix]) by { assert GoodPart([prefix][0]); }
      JoinOnly(prefix);
      WrittenValid(entries, [prefix]);
    }
  }

  lemma {:induction false} WrittenFrom(a: Archive, prefix: string)
    requires Valid(a, prefix)
    ensures a.members.Some? && AllSafe(a.members.value) && LeavesOf(a.members.value) != []
    ensures a == WriteTar(LeavesOf(a.members.value))
  {
    hide SafeRelative, MemberOk, NoConflict, Sort, Parts, Join, LexLt, ToMember, LeafOf;
    var ms := a.members.value;
    SafeMembers(ms, prefix);
    LeavesAscend(ms, prefix);
    SortOfAscending(LeavesOf(ms), PathKey);
    forall i | 0 <= i < |ms| ensures ToMembers(LeavesOf(ms))[i] == ms[i] { WrittenBack(ms[i], prefix); }
    assert ToMembers(LeavesOf(ms)) == ms;
  }

  // ------------------------------------------------------------------- extracted files

  /** Creating a file leaves on disk that file and the files there were. */
  lemma {:induction false} PutExactly(cs: seq<Child>, path: seq<string>, file: Node, p: seq<string>, raw: nat,
                                      data: seq<byte>)
    requires path != [] && file.File? && Put(cs, path, file).Some?
    ensures Lies(Put(cs, path, file).value, p, raw, data) <==>
      Lies(cs, p, raw, data) || (p == path && file == File(raw, data))
    decreases |path|
  {
    var r, name := Put(cs, path, file).value, path[0];
    var i := Index(cs, name);
    if |path| == 1 {
      assert r == cs + [Child(name, file)];
      AppendLies(cs, Child(name, file), p, raw, data);
      assert p != [] && p[0] == name && p[1..] == [] ==> p == path;
      assert path[1..] == [];
    } else {
      var below := Below(cs, name).value;
      var under := Put(below, path[1..], file).value;
      hide Put, Index;
      if p != [] { PutExactly(below, path[1..], file, p[1..], raw, data); }
      assert p != [] && p[0] == name && p[1..] == path[1..] ==> p == path by {
        if p != [] && p[0] == name && p[1..] == path[1..] { assert p == [name] + p[1..] && path == [name] + path[1..]; }
      }
      if i == |cs| {
        NoneLies(p, raw, data);
        if p != [] { NoneLies(p[1..], raw, data); }
        AppendLies(cs, Child(name, Dir(under)), p, raw, data);
      } else {
        UpdateLies(cs, i, under, p, raw, data);
      }
    }
  }

  lemma {:induction false} NoneLies(p: seq<string>, raw: nat, data: seq<byte>)
    ensures !Lies([], p, raw, data)
  {
  }

  lemma {:induction false} AppendLies(cs: seq<Child>, c: Child, p: seq<string>, raw: nat, data: seq<byte>)
    ensures Lies(cs + [c], p, raw, data) <==>
      Lies(cs, p, raw, data) || (p != [] && c.name == p[0] && LiesAt(c.node, p[1..], raw, data))
  {
    hide LiesAt;
    var all := cs + [c];
    assert all[|cs|] == c;
    if Lies(cs, p, raw, data) {
      var i :| 0 <= i < |cs| && cs[i].name == p[0] && LiesAt(cs[i].node, p[1..], raw, data);
      assert all[i] == cs[i];
    }
    if Lies(all, p, raw, data) {
      var i :| 0 <= i < |all| && all[i].name == p[0] && LiesAt(all[i].node, p[1..], raw, data);
      if i < |cs| { assert all[i] == cs[i]; }
    }
  }

  /** Replacing what a directory holds changes only what lies below it. */
  lemma {:induction false} UpdateLies(cs: seq<Child>, i: nat, under: seq<Child>, p: seq<string>, raw: nat,
                                      data: seq<byte>)
    requires i < |cs| && cs[i].node.Dir?
    requires p != [] && p[0] == cs[i].name && Lies(cs[i].node.children, p[1..], raw, data) ==>
      Lies(under, p[1..], raw, data)
    ensures
      var r := cs[i := Child(cs[i].name, Dir(under))];
      Lies(r, p, raw, data) <==>
        Lies(cs, p, raw, data) || (p != [] && p[0] == cs[i].name && Lies(under, p[1..], raw, data))
  {
    var r := cs[i := Child(cs[i].name, Dir(under))];
    if p != [] {
      assert LiesAt(r[i].node, p[1..], raw, data) <==> Lies(under, p[1..], raw, data);
      assert LiesAt(cs[i].node, p[1..], raw, data) <==> Lies(cs[i].node.children, p[1..], raw, data);
      hide LiesAt;
      if Lies(cs, p, raw, data) {
        var k :| 0 <= k < |cs| && cs[k].name == p[0] && LiesAt(cs[k].node, p[1..], raw, data);
        assert k != i ==> r[k] == cs[k];
        assert r[k].name == p[0] && LiesAt(r[k].node, p[1..], raw, data);
      }
      if Lies(r, p, raw, data) {
        var k :| 0 <= k < |r| && r[k].name == p[0] && LiesAt(r[k].node, p[1..], raw, data);
        assert k != i ==> r[k] == cs[k];
      }
      if p[0] == cs[i].name && Lies(under, p[1..], raw, data) {
        assert r[i].name == p[0] && LiesAt(r[i].node, p[1..], raw, data);
      }
    }
  }

  /** A member stands for the file at `p`: a regular file with the member's mode and bytes. */
  ghost predicate MemberIs(m: Member, p: seq<string>, raw: nat, data: seq<byte>)
  {
    SafeRelative(m.name) == Some(p) && raw == 0x8000 + m.mode && data == m.data
  }

  ghost predicate AnyMemberIs(ms: seq<Member>, p: seq<string>, raw: nat, data: seq<byte>)
  {
    exists i :: 0 <= i < |ms| && MemberIs(ms[i], p, raw, data)
  }

  /** What lies on disk after extraction: the files there were, and one for each member. */
  lemma {:induction false} ExtractExactly(cs: seq<Child>, ms: seq<Member>, p: seq<string>, raw: nat, data: seq<byte>)
    requires Extract(cs, ms).Some?
    ensures Lies(Extract(cs, ms).value, p, raw, data) <==> Lies(cs, p, raw, data) || AnyMemberIs(ms, p, raw, data)
    decreases |ms|
  {
    hide Put, SafeRelative, Lies;
    if ms != [] {
      var path := SafeRelative(ms[0].name).value;
      var next := Put(cs, path, FileOf(ms[0])).value;
      PutExactly(cs, path, FileOf(ms[0]), p, raw, data);
      ExtractExactly(next, ms[1..], p, raw, data);
      MemberCons(ms, p, raw, data);
    }
  }

  lemma {:induction false} MemberCons(ms: seq<Member>, p: seq<string>, raw: nat, data: seq<byte>)
    requires ms != []
    ensures AnyMemberIs(ms, p, raw, data) <==> MemberIs(ms[0], p, raw, data) || AnyMemberIs(ms[1..], p, raw, data)
  {
    hide MemberIs;
    if AnyMemberIs(ms, p, raw, data) {
      var i :| 0 <= i < |ms| && MemberIs(ms[i], p, raw, data);
      if i > 0 { assert ms[1..][i - 1] == ms[i]; }
    }
    if AnyMemberIs(ms[1..], p, raw, data) {
      var i :| 0 <= i < |ms[1..]| && MemberIs(ms[1..][i], p, raw, data);
      assert ms[i + 1] == ms[1..][i];
    }
  }

  // ------------------------------------------------------------------- children counted

  function NamesOf(cs: seq<Child>): set<string> { set c | c in cs :: c.name }

  lemma {:induction false} CountNames(cs: seq<Child>)
    requires WellNamedAll(cs)
    ensures |NamesOf(cs)| == |cs|
    decreases |cs|
  {
    hide OsName, WellNamed;
    if cs != [] {
      CountNames(cs[1..]);
      var name := cs[0].name;
      assert cs == [cs[0]] + cs[1..];
      assert NamesOf(cs) == NamesOf(cs[1..]) + {name};
      forall c | c in cs[1..] ensures c.name != name {
        var i :| 0 <= i < |cs[1..]| && cs[1..][i] == c;
      }
    }
  }

  lemma {:induction false} HasFile(cs: seq<Child>, i: nat, rel: seq<string>) returns (l: Leaf)
    requires FullAll(cs) && i < |cs|
    ensures l in Flat(cs, rel) && rel + [cs[i].name] <= l.path
    decreases i
  {
    if i == 0 {
      FullHasFile(cs[0].node, rel + [cs[0].name]);
      l := FlatNode(cs[0].node, rel + [cs[0].name])[0];
    } else {
      l := HasFile(cs[1..], i - 1, rel);
    }
  }

  /** The count of a summary's children is that of the entries directly below the prefix once extracted. */
  lemma {:induction false} ChildrenCounted(a: Archive, prefix: string) returns (below: seq<Child>)
    requires Valid(a, prefix)
    ensures Extract([], a.members.value) == Some([Child(prefix, Dir(below))])
    ensures SecondParts(a.members.value) == NamesOf(below) && |SecondParts(a.members.value)| == |below|
  {
    hide SafeRelative, MemberOk, NoConflict, Ascending, Extract, Walk, Sort, Flat, LeafOf, TreeSeal, TarSeal, Parts,
         FullAll, WellNamedAll, GoodParts, RegularAll;
    var ms := a.members.value;
    below := ExtractedSeal(x => "", a, prefix, []);
    assert [] + [Child(prefix, Dir(below))] == [Child(prefix, Dir(below))];
    MembersOne(ms, prefix);
    assert GoodParts([prefix]) by { OneGood(prefix); }
    JoinOnly(prefix);
    OsNamedOf(below);
    WalkExactly(below, [prefix]);
    var entries := Walk(Dir(below), prefix).value;
    forall name ensures name in SecondParts(ms) <==> name in NamesOf(below) {
      if name in SecondParts(ms) {
        var i :| 0 <= i < |ms| && |Parts(ms[i].name)| >= 2 && Parts(ms[i].name)[1] == name;
        MemberPath(ms[i], prefix);
        var l := LeavesOf(ms)[i];
        InBoth(LeavesOf(ms), Flat(below, [prefix]), l);
        FlatBelow(below, [prefix], l);
        var j :| 0 <= j < |below| && below[j].name == l.path[1];
        assert below[j] in below;
      }
      if name in NamesOf(below) {
        var c :| c in below && c.name == name;
        var j :| 0 <= j < |below| && below[j] == c;
        var l := HasFile(below, j, [prefix]);
        InBoth(Flat(below, [prefix]), LeavesOf(ms), l);
        var i :| 0 <= i < |ms| && LeavesOf(ms)[i] == l;
        MemberPath(ms[i], prefix);
        assert l.path[1] == ([prefix] + [name])[1];
      }
    }
    CountNames(below);
  }

  lemma {:induction false} OneGood(prefix: string)
    requires GoodPart(prefix)
    ensures GoodParts([prefix])
  {
  }

  lemma {:induction false} InBoth(a: seq<Leaf>, b: seq<Leaf>, l: Leaf)
    requires multiset(a) == multiset(b) && l in a
    ensures l in b
  {
    assert l in multiset(b);
  }

  // ------------------------------------------------------------------- what is sealed

  const RECORD_KEYS := ["mode", "path", "sha256", "size"]

  lemma {:induction false} RecordNames()
    ensures SortedNames({"mode", "path", "sha256", "size"}) == RECORD_KEYS
  {
    var s := {"mode", "path", "sha256", "size"};
    assert TextSmallerAt("mode", "path", 0) && TextSmallerAt("mode", "sha256", 0) && TextSmallerAt("mode", "size", 0);
    assert TextSmallerAt("path", "sha256", 0) && TextSmallerAt("path", "size", 0);
    assert "sha256"[..1] == "s" && "size"[..1] == "s";
    assert TextSmallerAt("sha256", "size", 1);
    hide LexLt, CodePoints, TextSmallerAt;
    forall i, j | 0 <= i < j < 4 ensures LexLt(CodePoints(RECORD_KEYS[i]), CodePoints(RECORD_KEYS[j])) {
      PrecedesExactly(RECORD_KEYS[i], RECORD_KEYS[j]);
    }
    forall x ensures x in RECORD_KEYS <==> x in SortedNames(s) { }
    AscendingSameNames(SortedNames(s), RECORD_KEYS);
  }

  lemma {:induction false} LastPair(k: string, v: string, t: string)
    ensures (k + (":" + v)) + t == (k + ":") + (v + t)
  {
  }

  lemma {:induction false} NextPair(k: string, v: string, w: string, t: string)
    ensures ((k + (":" + v)) + ("," + w)) + t == (k + ":") + (v + ("," + (w + t)))
  {
    LastPair(k, v, ("," + w) + t);
    J.Assoc(k + (":" + v), "," + w, t);
    J.Assoc(",", w, t);
  }

  /** The text of a record, character by character. */
  lemma {:induction false} RecordText(r: Record)
    ensures J.Write(RecordJson(r)) ==
      "{" + ("\"mode\":" + (J.Quote(r.mode) + ("," + ("\"path\":" + (J.Quote(r.path) + ("," + ("\"sha256\":" +
      (J.Quote(r.digest) + ("," + ("\"size\":" + (Decimal.Text(r.size) + "}")))))))))))
  {
    hide J.Quote, Decimal.Text, J.WriteFields, SortedNames;
    var j, size := RecordJson(r), Decimal.Text(r.size);
    RecordNames();
    assert j.fields.Keys == {"mode", "path", "sha256", "size"};
    QuotedNames();
    var ks: seq<string> := RECORD_KEYS;
    assert ks[1..] == ["path", "sha256", "size"] && ks[1..][1..] == ["sha256", "size"] && ks[1..][1..][1..] == ["size"];
    J.FieldsStep(j, ks);
    J.FieldsStep(j, ["path", "sha256", "size"]);
    J.FieldsStep(j, ["sha256", "size"]);
    J.FieldsStep(j, ["size"]);
    var w4 := "\"size\"" + (":" + size);
    var w3 := ("\"sha256\"" + (":" + J.Quote(r.digest))) + ("," + w4);
    var w2 := ("\"path\"" + (":" + J.Quote(r.path))) + ("," + w3);
    assert J.WriteFields(j, ["size"]) == w4;
    assert J.WriteFields(j, ["sha256", "size"]) == w3;
    assert J.WriteFields(j, ["path", "sha256", "size"]) == w2;
    LastPair("\"size\"", size, "}");
    NextPair("\"sha256\"", J.Quote(r.digest), w4, "}");
    NextPair("\"path\"", J.Quote(r.path), w3, "}");
    NextPair("\"mode\"", J.Quote(r.mode), w2, "}");
    Colons();
  }

  lemma {:induction false} Colons()
    ensures "\"mode\"" + ":" == "\"mode\":" && "\"path\"" + ":" == "\"path\":"
    ensures "\"sha256\"" + ":" == "\"sha256\":" && "\"size\"" + ":" == "\"size\":"
  {
  }

  lemma {:induction false} PlainText(s: string)
    requires forall i :: 0 <= i < |s| ==> 'a' <= s[i] <= 'z' || '0' <= s[i] <= '9'
    ensures J.Escape(s) == s
  {
    if s != "" {
      PlainText(s[1..]);
      assert J.EscapeChar(s[0]) == [s[0]];
      assert s == [s[0]] + s[1..];
    }
  }

  lemma {:induction false} QuotedNames()
    ensures J.Quote("mode") == "\"mode\"" && J.Quote("path") == "\"path\""
    ensures J.Quote("sha256") == "\"sha256\"" && J.Quote("size") == "\"size\""
  {
    hide J.Escape;
    PlainText("mode");
    PlainText("path");
    PlainText("sha256");
    PlainText("size");
    assert "\"" + ("mode" + "\"") == "\"mode\"";
    assert "\"" + ("path" + "\"") == "\"path\"";
    assert "\"" + ("sha256" + "\"") == "\"sha256\"";
    assert "\"" + ("size" + "\"") == "\"size\"";
  }

  /** What a seal digests for one file: its mode, its path, the digest of its bytes and their number. */
  lemma {:induction false} LeafText(h: Digest, l: Leaf)
    ensures J.Write(RecordJson(RecordOf(h, l))) ==
      "{" + ("\"mode\":" + (J.Quote(l.mode) + ("," + ("\"path\":" + (J.Quote(Join(l.path)) + ("," + ("\"sha256\":" +
      (J.Quote(h(l.data)) + ("," + ("\"size\":" + (Decimal.Text(|l.data|) + "}")))))))))))
  {
    hide J.Write, J.Quote, RecordJson;
    RecordText(RecordOf(h, l));
  }

  /** What a seal digests for one member of a valid archive is what it digests for the member's file. */
  lemma {:induction false} MemberText(h: Digest, m: Member, prefix: string)
    requires MemberOk(m, prefix)
    ensures SafeRelative(m.name).Some? && MemberRecord(h, m) == RecordOf(h, LeafOf(m))
  {
    hide SafeRelative, Parts, Join;
    MemberPath(m, prefix);
  }
}
