/** Text split at, and joined by, a separator. */
module Separated {
  /** The length of the text before the first separator. */
  function Cut(sep: char, s: string): (n: nat)
    ensures n <= |s| && sep !in s[..n] && (n < |s| ==> s[n] == sep)
  {
    if s == "" || s[0] == sep then 0
    else
      var n := 1 + Cut(sep, s[1..]);
      assert s[..n] == [s[0]] + s[1..][..n - 1];
      n
  }

  function Split(sep: char, s: string): seq<string>
  {
    var n := Cut(sep, s);
    if n == |s| then [s] else [s[..n]] + Split(sep, s[n + 1..])
  }

  function Join(sep: char, parts: seq<string>): string
  {
    if parts == [] then "" else if |parts| == 1 then parts[0] else parts[0] + ([sep] + Join(sep, parts[1..]))
  }

  lemma {:induction false} CutIs(sep: char, a: string, rest: string)
    requires sep !in a && (rest == "" || rest[0] == sep)
    ensures Cut(sep, a + rest) == |a|
  {
    if a == "" {
      assert a + rest == rest;
    } else {
      assert (a + rest)[1..] == a[1..] + rest;
      CutIs(sep, a[1..], rest);
    }
  }

  lemma {:induction false} SplitLast(sep: char, a: string)
    requires sep !in a
    ensures Split(sep, a) == [a]
  {
    hide Cut;
    assert a + "" == a;
    CutIs(sep, a, "");
  }

  lemma {:induction false} SplitFirst(sep: char, a: string, rest: string)
    requires sep !in a
    ensures Split(sep, a + ([sep] + rest)) == [a] + Split(sep, rest)
  {
    hide Cut;
    CutIs(sep, a, [sep] + rest);
    var s := a + ([sep] + rest);
    assert s[..|a|] == a && s[|a| + 1..] == rest;
  }

  /** Splitting undoes joining, when no part holds the separator. */
  lemma {:induction false} SplitJoin(sep: char, parts: seq<string>)
    requires parts != [] && forall i :: 0 <= i < |parts| ==> sep !in parts[i]
    ensures Split(sep, Join(sep, parts)) == parts
  {
    hide Split;
    if |parts| == 1 {
      SplitLast(sep, parts[0]);
    } else {
      SplitFirst(sep, parts[0], Join(sep, parts[1..]));
      SplitJoin(sep, parts[1..]);
      assert parts == [parts[0]] + parts[1..];
    }
  }

  lemma {:induction false} SplitParts(sep: char, s: string, i: nat)
    requires i < |Split(sep, s)|
    ensures sep !in Split(sep, s)[i] && forall c :: c in Split(sep, s)[i] ==> c in s
  {
    hide Cut;
    var n := Cut(sep, s);
    if n < |s| && i > 0 { SplitParts(sep, s[n + 1..], i - 1); }
  }

  /** Parts joined again are the text that was split. */
  lemma {:induction false} JoinSplit(sep: char, s: string)
    ensures Split(sep, s) != [] && Join(sep, Split(sep, s)) == s
  {
    hide Split, Join, Cut;
    var n := Cut(sep, s);
    SplitStep(sep, s);
    if n < |s| {
      var rest := Split(sep, s[n + 1..]);
      JoinSplit(sep, s[n + 1..]);
      JoinStep(sep, s[..n], rest);
      assert s == s[..n] + ([sep] + s[n + 1..]);
    } else {
      JoinOne(sep, s);
    }
  }

  lemma {:induction false} SplitStep(sep: char, s: string)
    ensures var n := Cut(sep, s); Split(sep, s) == if n == |s| then [s] else [s[..n]] + Split(sep, s[n + 1..])
  {
    hide Cut;
  }

  lemma {:induction false} JoinStep(sep: char, a: string, rest: seq<string>)
    requires rest != []
    ensures Join(sep, [a] + rest) == a + ([sep] + Join(sep, rest))
  {
    assert ([a] + rest)[1..] == rest;
  }

  lemma {:induction false} JoinOne(sep: char, a: string)
    ensures Join(sep, [a]) == a
  {
  }
}
