/** Relative archive paths, as `_safe_relative` of scripts/build_offline_kit.py accepts them. */
module KitPaths {
  import opened Wrappers
  import Separated

  function Split(s: string): seq<string> { Separated.Split('/', s) }

  function Join(parts: seq<string>): string { Separated.Join('/', parts) }

  predicate Dropped(part: string) { part == "" || part == "." }

  function Kept(parts: seq<string>): seq<string>
  {
    if parts == [] then [] else (if Dropped(parts[0]) then [] else [parts[0]]) + Kept(parts[1..])
  }

  /** `PurePosixPath(path).parts` of a relative path. */
  function Parts(path: string): seq<string> { Kept(Split(path)) }

  function AsPosix(parts: seq<string>): string { if parts == [] then "." else Join(parts) }

  /** The components of a safe path, or nothing. */
  function SafeRelative(path: string): Option<seq<string>>
  {
    if path == "" || '\0' in path || '\r' in path || '\n' in path then None
    else if path[0] == '/' || ".." in Parts(path) then None
    else if AsPosix(Parts(path)) != path then None
    else Some(Parts(path))
  }

  predicate GoodPart(part: string)
  {
    part != "" && part != "." && part != ".." && '/' !in part && '\0' !in part && '\r' !in part && '\n' !in part
  }

  predicate GoodParts(parts: seq<string>) { forall i :: 0 <= i < |parts| ==> GoodPart(parts[i]) }

  // ----------------------------------------------------------------- exactly which

  lemma {:induction false} KeptAll(parts: seq<string>)
    requires forall i :: 0 <= i < |parts| ==> !Dropped(parts[i])
    ensures Kept(parts) == parts
  {
    if parts != [] { KeptAll(parts[1..]); }
  }

  lemma {:induction false} KeptParts(parts: seq<string>, i: nat)
    requires i < |Kept(parts)|
    ensures Kept(parts)[i] in parts && !Dropped(Kept(parts)[i])
  {
    if Dropped(parts[0]) { KeptParts(parts[1..], i); } else if i > 0 { KeptParts(parts[1..], i - 1); }
  }

  lemma {:induction false} JoinStep(parts: seq<string>)
    requires |parts| > 1
    ensures Join(parts) == parts[0] + ("/" + Join(parts[1..]))
  {
  }

  lemma {:induction false} JoinChars(parts: seq<string>, c: char)
    requires c != '/'
    ensures c in Join(parts) <==> exists i :: 0 <= i < |parts| && c in parts[i]
  {
    if |parts| > 1 {
      JoinStep(parts);
      JoinChars(parts[1..], c);
      if exists i :: 0 <= i < |parts[1..]| && c in parts[1..][i] {
        var i :| 0 <= i < |parts[1..]| && c in parts[1..][i];
        assert c in parts[i + 1];
      }
      if exists i :: 0 < i < |parts| && c in parts[i] {
        var i :| 0 < i < |parts| && c in parts[i];
        assert parts[1..][i - 1] == parts[i];
      }
    }
  }

  lemma {:induction false} JoinHead(parts: seq<string>)
    requires parts != [] && parts[0] != ""
    ensures Join(parts) != "" && Join(parts)[0] == parts[0][0]
  {
  }

  lemma {:induction false} GoodIsSafe(parts: seq<string>)
    requires parts != [] && GoodParts(parts)
    ensures SafeRelative(Join(parts)) == Some(parts)
  {
    Separated.SplitJoin('/', parts);
    KeptAll(parts);
    JoinHead(parts);
    JoinChars(parts, '\0');
    JoinChars(parts, '\r');
    JoinChars(parts, '\n');
    hide Split, Kept, Join;
    assert parts[0][0] in parts[0];
  }

  lemma {:induction false} SafeIsGood(path: string)
    requires SafeRelative(path).Some?
    ensures GoodParts(SafeRelative(path).value) && path == AsPosix(SafeRelative(path).value)
  {
    var parts := Parts(path);
    forall i | 0 <= i < |parts| ensures GoodPart(parts[i]) {
      KeptParts(Split(path), i);
      var j :| 0 <= j < |Split(path)| && Split(path)[j] == parts[i];
      Separated.SplitParts('/', path, j);
    }
  }

  /** The safe paths are `.` and the good components joined by slashes, each in one way. */
  lemma {:induction false} SafeExactly(path: string, parts: seq<string>)
    ensures SafeRelative(path) == Some(parts) <==> GoodParts(parts) && path == AsPosix(parts)
  {
    hide SafeRelative, GoodParts, AsPosix, Join;
    if SafeRelative(path) == Some(parts) { SafeIsGood(path); }
    if GoodParts(parts) && path == AsPosix(parts) {
      if parts == [] { DotIsSafe(); } else { GoodIsSafe(parts); }
      AsPosixIs(parts);
    }
  }

  lemma {:induction false} AsPosixIs(parts: seq<string>)
    ensures AsPosix(parts) == if parts == [] then "." else Join(parts)
  {
  }

  lemma {:induction false} DotIsSafe()
    ensures SafeRelative(".") == Some([])
  {
    Separated.SplitLast('/', ".");
    assert ["."][1..] == [] && Kept([]) == [];
    assert Parts(".") == [];
  }

  lemma {:induction false} JoinInjective(a: seq<string>, b: seq<string>)
    requires a != [] && b != [] && GoodParts(a) && GoodParts(b) && Join(a) == Join(b)
    ensures a == b
  {
    Separated.SplitJoin('/', a);
    Separated.SplitJoin('/', b);
  }
}
