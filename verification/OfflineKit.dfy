/** Sealed payload archives (scripts/build_offline_kit.py): what is written, accepted, summed up and
    extracted. Tar and gzip bytes are a header and a list of members; SHA-256 of a file and of the
    canonical record list is a parameter. */
module OfflineKit {
  import opened Wrappers
  import opened Ordering
  import opened KitPaths
  import opened KitTree
  import Decimal
  import J = Json
  import Utf8

  datatype Record = Record(mode: string, path: string, digest: string, size: nat)

  /** SHA-256 in hexadecimal. */
  type Digest = seq<byte> -> string

  datatype Member = Member(name: string, regular: bool, uid: nat, gid: nat, uname: string, gname: string, mtime: int,
                           pax: bool, mode: nat, data: seq<byte>)

  /** The first ten bytes of the file, and its members when it can be read. */
  datatype Archive = Archive(header: seq<byte>, members: Option<seq<Member>>)

  const GZIP_HEADER: seq<byte> := [0x1F, 0x8B, 8, 0, 0, 0, 0, 0, 2, 0xFF]
  const MODE_644: nat := 420
  const MODE_755: nat := 493
  const REGULAR_FILE: nat := 0x8000

  // -------------------------------------------------------------------------- seals

  /** Paths are ordered by their bytes. */
  function NameBytes(name: string): seq<int> { Utf8.Encode(name) }

  function PathKey(l: Leaf): seq<int> { NameBytes(Join(l.path)) }

  function RecordOf(h: Digest, l: Leaf): Record { Record(l.mode, Join(l.path), h(l.data), |l.data|) }

  function RecordsOf(h: Digest, ls: seq<Leaf>): (r: seq<Record>)
    ensures |r| == |ls| && forall i :: 0 <= i < |r| ==> r[i] == RecordOf(h, ls[i])
  {
    seq(|ls|, i requires 0 <= i < |ls| => RecordOf(h, ls[i]))
  }

  function RecordJson(r: Record): J.Json
  {
    J.Obj(map["mode" := J.Str(r.mode), "path" := J.Str(r.path), "sha256" := J.Str(r.digest),
              "size" := J.Number(Decimal.Text(r.size))])
  }

  function RecordsJson(rs: seq<Record>): J.Json
  {
    J.Arr(seq(|rs|, i requires 0 <= i < |rs| => RecordJson(rs[i])))
  }

  /** `_canonical_json` of a list of records. */
  ghost function Canonical(rs: seq<Record>): seq<byte> { Utf8.Encode(J.Write(RecordsJson(rs)) + "\n") }

  ghost function Seal(h: Digest, rs: seq<Record>): string { h(Canonical(rs)) }

  /** `_tree_seal`. */
  ghost function TreeSeal(h: Digest, entries: seq<Leaf>): string { Seal(h, RecordsOf(h, Sort(entries, PathKey))) }

  // ------------------------------------------------------------------------- writing

  function ToMember(l: Leaf): Member
  {
    Member(Join(l.path), true, 0, 0, "", "", 0, false, if l.mode == "100755" then MODE_755 else MODE_644, l.data)
  }

  function ToMembers(ls: seq<Leaf>): (r: seq<Member>)
    ensures |r| == |ls| && forall i :: 0 <= i < |r| ==> r[i] == ToMember(ls[i])
  {
    seq(|ls|, i requires 0 <= i < |ls| => ToMember(ls[i]))
  }

  /** `_write_deterministic_tar_gz`. */
  function WriteTar(entries: seq<Leaf>): Archive { Archive(GZIP_HEADER, Some(ToMembers(Sort(entries, PathKey)))) }

  // ---------------------------------------------------------------------- validation

  predicate PlainMetadata(m: Member)
  {
    m.uid == 0 && m.gid == 0 && m.uname == "" && m.gname == "" && m.mtime == 0 && !m.pax
  }

  /** One member's own checks. */
  predicate MemberOk(m: Member, prefix: string)
  {
    var parts := SafeRelative(m.name);
    && parts.Some? && |parts.value| >= 2 && parts.value[0] == prefix
    && m.regular && PlainMetadata(m) && (m.mode == MODE_644 || m.mode == MODE_755)
  }

  predicate MembersOk(ms: seq<Member>, prefix: string) { forall i :: 0 <= i < |ms| ==> MemberOk(ms[i], prefix) }

  function Names(ms: seq<Member>): (r: seq<string>)
    ensures |r| == |ms| && forall i :: 0 <= i < |r| ==> r[i] == ms[i].name
  {
    seq(|ms|, i requires 0 <= i < |ms| => ms[i].name)
  }

  /** No name is a parent directory of another. */
  predicate NoConflict(names: seq<string>)
  {
    forall i :: 0 <= i < |names| ==> NoParentIn(names, Parts(names[i]))
  }

  predicate NoParentIn(names: seq<string>, parts: seq<string>)
  {
    forall k :: 0 <= k < |parts| ==> AsPosix(parts[..k]) !in names
  }

  /** `_validate_tar` returns the members. */
  ghost predicate Valid(a: Archive, prefix: string)
  {
    && SafeRelative(prefix).Some? && a.header == GZIP_HEADER && a.members.Some? && a.members.value != []
    && MembersOk(a.members.value, prefix)
    && Ascending(Names(a.members.value), NameBytes) && NoConflict(Names(a.members.value))
  }

  // -------------------------------------------------------------------------- summary

  /** The names that stand second in the paths of members. */
  function SecondParts(ms: seq<Member>): set<string>
  {
    set i | 0 <= i < |ms| && |Parts(ms[i].name)| >= 2 :: Parts(ms[i].name)[1]
  }

  function MemberRecord(h: Digest, m: Member): Record { Record(CanonicalMode(m.mode), m.name, h(m.data), |m.data|) }

  function MemberRecords(h: Digest, ms: seq<Member>): (r: seq<Record>)
    ensures |r| == |ms| && forall i :: 0 <= i < |r| ==> r[i] == MemberRecord(h, ms[i])
  {
    seq(|ms|, i requires 0 <= i < |ms| => MemberRecord(h, ms[i]))
  }

  function RecordKey(r: Record): seq<int> { NameBytes(r.path) }

  /** The seal `_tar_tree_summary` returns for a valid archive. */
  ghost function TarSeal(h: Digest, ms: seq<Member>): string { Seal(h, Sort(MemberRecords(h, ms), RecordKey)) }

  // ----------------------------------------------------------------------- extraction

  function Index(cs: seq<Child>, name: string): (i: nat)
    ensures i <= |cs| && (i < |cs| ==> cs[i].name == name) && forall j :: 0 <= j < i ==> cs[j].name != name
  {
    if cs == [] || cs[0].name == name then 0 else 1 + Index(cs[1..], name)
  }

  /** The entries of the directory with the given name: none yet when it is still to be made. */
  function Below(cs: seq<Child>, name: string): Option<seq<Child>>
  {
    var i := Index(cs, name);
    if i == |cs| then Some([]) else if cs[i].node.Dir? then Some(cs[i].node.children) else None
  }

  function WithDir(cs: seq<Child>, name: string, below: seq<Child>): seq<Child>
  {
    var i, dir := Index(cs, name), Child(name, Dir(below));
    if i == |cs| then cs + [dir] else cs[i := dir]
  }

  /** Creating the parents of a file that must not exist yet, and the file; nothing on a collision. */
  function Put(cs: seq<Child>, path: seq<string>, file: Node): Option<seq<Child>>
    requires path != []
    decreases |path|
  {
    if |path| == 1 then
      if Index(cs, path[0]) < |cs| then None else Some(cs + [Child(path[0], file)])
    else
      var below := Below(cs, path[0]);
      if below.None? then None
      else
        var r := Put(below.value, path[1..], file);
        if r.None? then None else Some(WithDir(cs, path[0], r.value))
  }

  function FileOf(m: Member): Node { File(REGULAR_FILE + m.mode, m.data) }

  /** `_extract_tar_safely` of valid members, in order. */
  function Extract(cs: seq<Child>, ms: seq<Member>): Option<seq<Child>>
    decreases |ms|
  {
    if ms == [] then Some(cs)
    else
      var parts := SafeRelative(ms[0].name);
      if parts.None? || parts.value == [] then None
      else
        var next := Put(cs, parts.value, FileOf(ms[0]));
        if next.None? then None else Extract(next.value, ms[1..])
  }

  // --------------------------------------------------------------- unpacked payloads

  /** What the manifest records of a payload. */
  datatype Tally = Tally(count: nat, seal: string)

  const TOOLCHAIN := "toolchain"
  const VENDOR := "vendor"

  /** The entry of a directory with the given name; a missing one is no directory. */
  function EntryOf(cs: seq<Child>, name: string): Node
  {
    var i := Index(cs, name);
    if i < |cs| then cs[i].node else Special
  }

  /** A tree walks to as many files as recorded, with the recorded seal. */
  ghost predicate Matches(h: Digest, root: Node, prefix: string, t: Tally)
  {
    var entries := Walk(root, prefix);
    entries.Some? && |entries.value| == t.count && TreeSeal(h, entries.value) == t.seal
  }

  /** What `_tar_tree_summary` finds in an archive. */
  ghost function TallyOf(h: Digest, a: Archive): Tally
    requires a.members.Some?
  {
    Tally(|a.members.value|, TarSeal(h, a.members.value))
  }
}
