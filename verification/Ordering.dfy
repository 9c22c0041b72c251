/** Bytes and the lexicographic order that the source sorts by: encoded map keys,
    archive paths and global names are all sorted by a sequence of numbers. */
module Ordering {
  type byte = x: int | 0 <= x < 256

  predicate LexLt(a: seq<int>, b: seq<int>)
  {
    b != [] && (a == [] || a[0] < b[0] || (a[0] == b[0] && LexLt(a[1..], b[1..])))
  }

  lemma {:induction false} LexIrreflexive(a: seq<int>)
    ensures !LexLt(a, a)
  {
    if a != [] { LexIrreflexive(a[1..]); }
  }

  lemma {:induction false} LexTransitive(a: seq<int>, b: seq<int>, c: seq<int>)
    requires LexLt(a, b) && LexLt(b, c)
    ensures LexLt(a, c)
  {
    if a != [] && a[0] == b[0] && b[0] == c[0] { LexTransitive(a[1..], b[1..], c[1..]); }
  }

  lemma {:induction false} LexTotal(a: seq<int>, b: seq<int>)
    requires a != b
    ensures LexLt(a, b) || LexLt(b, a)
  {
    if a != [] && b != [] && a[0] == b[0] {
      assert a == [a[0]] + a[1..] && b == [b[0]] + b[1..];
      LexTotal(a[1..], b[1..]);
    }
  }

  /** The first difference is at `k`, where `a` has ended or has the smaller number. */
  predicate SmallerAt(a: seq<int>, b: seq<int>, k: nat)
  {
    k <= |a| && k < |b| && a[..k] == b[..k] && (k == |a| || a[k] < b[k])
  }

  ghost predicate Smaller(a: seq<int>, b: seq<int>) { exists k: nat :: SmallerAt(a, b, k) }

  lemma {:induction false} LexAt(a: seq<int>, b: seq<int>) returns (k: nat)
    requires LexLt(a, b)
    ensures SmallerAt(a, b, k)
  {
    if a == [] || a[0] < b[0] {
      k := 0;
    } else {
      k := LexAt(a[1..], b[1..]);
      assert a[..k + 1] == [a[0]] + a[1..][..k] && b[..k + 1] == [b[0]] + b[1..][..k];
      k := k + 1;
    }
  }

  lemma {:induction false} LexFrom(a: seq<int>, b: seq<int>, k: nat)
    requires SmallerAt(a, b, k)
    ensures LexLt(a, b)
  {
    if k > 0 {
      assert a[0] == a[..k][0] && b[0] == b[..k][0];
      assert a[1..][..k - 1] == a[..k][1..] && b[1..][..k - 1] == b[..k][1..];
      LexFrom(a[1..], b[1..], k - 1);
    }
  }

  /** The order everything is sorted by: what decides is the first difference. */
  lemma {:induction false} LexExactly(a: seq<int>, b: seq<int>)
    ensures LexLt(a, b) <==> Smaller(a, b)
  {
    if LexLt(a, b) {
      var k := LexAt(a, b);
    }
    if Smaller(a, b) {
      var k: nat :| SmallerAt(a, b, k);
      LexFrom(a, b, k);
    }
  }

  /** Stable insertion sort by a key, standing for Python's `sorted(..., key=...)`. */
  function Insert<T>(x: T, ys: seq<T>, key: T -> seq<int>): (r: seq<T>)
    ensures multiset(r) == multiset(ys) + multiset{x}
  {
    if ys == [] || !LexLt(key(ys[0]), key(x)) then [x] + ys
    else
      assert ys == [ys[0]] + ys[1..];
      [ys[0]] + Insert(x, ys[1..], key)
  }

  function Sort<T>(xs: seq<T>, key: T -> seq<int>): (r: seq<T>)
    ensures multiset(r) == multiset(xs)
    ensures |r| == |xs|
  {
    if xs == [] then []
    else
      assert xs == [xs[0]] + xs[1..];
      var r := Insert(xs[0], Sort(xs[1..], key), key);
      assert |multiset(r)| == |multiset(xs)|;
      r
  }

  ghost predicate Ascending<T>(xs: seq<T>, key: T -> seq<int>)
  {
    forall i, j :: 0 <= i < j < |xs| ==> LexLt(key(xs[i]), key(xs[j]))
  }

  ghost predicate DistinctKeys<T>(xs: seq<T>, key: T -> seq<int>)
  {
    forall i, j :: 0 <= i < j < |xs| ==> key(xs[i]) != key(xs[j])
  }

  lemma {:induction false} InsertAscending<T>(x: T, ys: seq<T>, key: T -> seq<int>)
    requires Ascending(ys, key)
    requires forall y :: y in ys ==> key(y) != key(x)
    ensures Ascending(Insert(x, ys, key), key)
  {
    if ys == [] {
    } else if !LexLt(key(ys[0]), key(x)) {
      LexTotal(key(ys[0]), key(x));
      forall j | 0 < j < |ys| ensures LexLt(key(x), key(ys[j])) {
        LexTransitive(key(x), key(ys[0]), key(ys[j]));
      }
    } else {
      var t := Insert(x, ys[1..], key);
      InsertAscending(x, ys[1..], key);
      forall y | y in t ensures LexLt(key(ys[0]), key(y)) {
        assert y in multiset(t);
        assert y == x || y in ys[1..];
      }
    }
  }

  /** Sorting a sequence with distinct keys gives strictly ascending keys. */
  lemma {:induction false} SortAscending<T>(xs: seq<T>, key: T -> seq<int>)
    requires DistinctKeys(xs, key)
    ensures Ascending(Sort(xs, key), key)
  {
    if xs != [] {
      SortAscending(xs[1..], key);
      var t := Sort(xs[1..], key);
      forall y | y in t ensures key(y) != key(xs[0]) {
        assert y in multiset(t);
        assert y in xs[1..];
      }
      InsertAscending(xs[0], t, key);
    }
  }

  lemma {:induction false} LexAsymmetric(a: seq<int>, b: seq<int>)
    requires LexLt(a, b)
    ensures !LexLt(b, a)
  {
    if a != [] && a[0] == b[0] { LexAsymmetric(a[1..], b[1..]); }
  }

  lemma {:induction false} HeadIsLeast<T>(xs: seq<T>, y: T, key: T -> seq<int>)
    requires Ascending(xs, key) && y in xs
    ensures y == xs[0] || LexLt(key(xs[0]), key(y))
  {
  }

  lemma {:induction false} SameHead<T>(xs: seq<T>, ys: seq<T>, key: T -> seq<int>)
    requires Ascending(xs, key) && Ascending(ys, key)
    requires xs != [] && ys != [] && xs[0] in ys && ys[0] in xs
    ensures xs[0] == ys[0]
  {
    HeadIsLeast(xs, ys[0], key);
    HeadIsLeast(ys, xs[0], key);
    if LexLt(key(xs[0]), key(ys[0])) { LexAsymmetric(key(xs[0]), key(ys[0])); }
  }

  lemma {:induction false} SameLength<T>(xs: seq<T>, ys: seq<T>)
    requires multiset(xs) == multiset(ys)
    ensures |xs| == |ys|
  {
    assert |multiset(xs)| == |xs| && |multiset(ys)| == |ys|;
  }

  lemma {:induction false} Tail<T>(xs: seq<T>)
    requires xs != []
    ensures multiset(xs[1..]) == multiset(xs) - multiset{xs[0]}
  {
    assert xs == [xs[0]] + xs[1..];
  }

  lemma {:induction false} AscendingTail<T>(xs: seq<T>, key: T -> seq<int>)
    requires xs != [] && Ascending(xs, key)
    ensures Ascending(xs[1..], key)
  {
    hide LexLt;
  }

  lemma {:induction false} AscendingUnique<T>(xs: seq<T>, ys: seq<T>, key: T -> seq<int>)
    requires Ascending(xs, key) && Ascending(ys, key)
    requires multiset(xs) == multiset(ys)
    ensures xs == ys
  {
    hide Ascending;
    SameLength(xs, ys);
    if xs != [] {
      assert xs[0] in multiset(xs) && ys[0] in multiset(ys);
      SameHead(xs, ys, key);
      Tail(xs);
      Tail(ys);
      AscendingTail(xs, key);
      AscendingTail(ys, key);
      AscendingUnique(xs[1..], ys[1..], key);
      assert xs == [xs[0]] + xs[1..] && ys == [ys[0]] + ys[1..];
    }
  }

  lemma {:induction false} CountPair<T>(s: seq<T>, i: nat, j: nat)
    requires i < j < |s|
    ensures s[i] == s[j] ==> multiset(s)[s[i]] >= 2
  {
    assert s == s[..j] + [s[j]] + s[j + 1..];
    assert s[i] in s[..j];
  }

  lemma {:induction false} CountAtMostOne<T>(s: seq<T>, x: T, key: T -> seq<int>)
    requires DistinctKeys(s, key)
    ensures multiset(s)[x] <= 1
  {
    if x in s {
      var a :| 0 <= a < |s| && s[a] == x;
      assert x !in s[..a] && x !in s[a + 1..];
      hide DistinctKeys;
      CountSplit(s, a);
    }
  }

  lemma {:induction false} CountSplit<T>(s: seq<T>, a: nat)
    requires a < |s| && s[a] !in s[..a] && s[a] !in s[a + 1..]
    ensures multiset(s)[s[a]] == 1
  {
    assert s == s[..a] + [s[a]] + s[a + 1..];
    assert multiset(s[..a])[s[a]] == 0 && multiset(s[a + 1..])[s[a]] == 0;
  }

  /** Distinct keys are a property of the elements, not of the order they come in. */
  lemma {:induction false} DistinctKeysPermutation<T>(xs: seq<T>, ys: seq<T>, key: T -> seq<int>)
    requires DistinctKeys(xs, key)
    requires multiset(xs) == multiset(ys)
    ensures DistinctKeys(ys, key)
  {
    forall i, j | 0 <= i < j < |ys| ensures key(ys[i]) != key(ys[j]) {
      assert ys[i] in multiset(xs) && ys[j] in multiset(xs);
      assert key(ys[i]) == key(ys[j]) ==> ys[i] == ys[j];
      CountPair(ys, i, j);
      CountAtMostOne(xs, ys[i], key);
    }
  }

  /** The sorted form does not depend on the order of the input. */
  lemma {:induction false} SortPermutation<T>(xs: seq<T>, ys: seq<T>, key: T -> seq<int>)
    requires DistinctKeys(xs, key)
    requires multiset(xs) == multiset(ys)
    ensures Sort(xs, key) == Sort(ys, key)
  {
    DistinctKeysPermutation(xs, ys, key);
    SortAscending(xs, key);
    SortAscending(ys, key);
    AscendingUnique(Sort(xs, key), Sort(ys, key), key);
  }

  /** An already ascending sequence is its own sorted form. */
  lemma {:induction false} SortOfAscending<T>(xs: seq<T>, key: T -> seq<int>)
    requires Ascending(xs, key)
    ensures Sort(xs, key) == xs
  {
    forall i, j | 0 <= i < j < |xs| ensures key(xs[i]) != key(xs[j]) {
      LexIrreflexive(key(xs[i]));
    }
    SortAscending(xs, key);
    AscendingUnique(Sort(xs, key), xs, key);
  }

  /** Code points of a text: the order in which Python compares strings. */
  function CodePoints(s: string): (r: seq<int>)
    ensures |r| == |s|
  {
    seq(|s|, i requires 0 <= i < |s| => s[i] as int)
  }

  lemma {:induction false} CodePointsInjective(s: string, t: string)
    requires CodePoints(s) == CodePoints(t)
    ensures s == t
  {
    assert |s| == |t|;
    forall i | 0 <= i < |s| ensures s[i] == t[i] {
      assert CodePoints(s)[i] == s[i] as int && CodePoints(t)[i] == t[i] as int;
    }
  }

  ghost function Enumerate(s: set<string>): (r: seq<string>)
    ensures multiset(r) == multiset(s)
  {
    if s == {} then []
    else
      var x :| x in s;
      [x] + Enumerate(s - {x})
  }

  lemma {:induction false} EnumerationDistinct(q: seq<string>, s: set<string>)
    requires multiset(q) == multiset(s)
    ensures DistinctKeys(q, CodePoints)
  {
    forall i, j | 0 <= i < j < |q| ensures CodePoints(q[i]) != CodePoints(q[j]) {
      CountPair(q, i, j);
      assert q[i] != q[j];
      if CodePoints(q[i]) == CodePoints(q[j]) { CodePointsInjective(q[i], q[j]); }
    }
  }

  /** `sorted(names)` for a set of names, whatever order they are enumerated in. */
  ghost function SortedNames(s: set<string>): (r: seq<string>)
    ensures forall x :: x in r <==> x in s
    ensures Ascending(r, CodePoints)
  {
    var q := Enumerate(s);
    EnumerationDistinct(q, s);
    SortAscending(q, CodePoints);
    var r := Sort(q, CodePoints);
    assert forall x :: x in r <==> x in multiset(r);
    r
  }

  lemma {:induction false} SortedNamesOf(q: seq<string>, s: set<string>)
    requires multiset(q) == multiset(s)
    ensures Sort(q, CodePoints) == SortedNames(s)
  {
    EnumerationDistinct(q, s);
    SortPermutation(q, Enumerate(s), CodePoints);
  }

  /** Two ascending name lists with the same names are the same list. */
  lemma {:induction false} AscendingSameNames(xs: seq<string>, ys: seq<string>)
    requires Ascending(xs, CodePoints) && Ascending(ys, CodePoints)
    requires forall x :: x in xs <==> x in ys
    ensures xs == ys
  {
    var x0, y0 := if xs == [] then "" else xs[0], if ys == [] then "" else ys[0];
    assert (x0 in xs <==> x0 in ys) && (y0 in xs <==> y0 in ys);
    if xs != [] {
      SameHead(xs, ys, CodePoints);
      forall x | x in xs[1..] || x in ys[1..] ensures x in xs[1..] && x in ys[1..] {
        TailWithoutHead(xs, x);
        TailWithoutHead(ys, x);
      }
      AscendingSameNames(xs[1..], ys[1..]);
    }
  }

  lemma {:induction false} TailWithoutHead(xs: seq<string>, x: string)
    requires xs != [] && Ascending(xs, CodePoints)
    ensures x in xs[1..] <==> x in xs && x != xs[0]
  {
    LexIrreflexive(CodePoints(xs[0]));
    if x in xs[1..] {
      var i :| 0 < i < |xs| && xs[i] == x;
    }
  }

  /** How Python compares texts: by the first character that differs, or by length. */
  predicate TextSmallerAt(s: string, t: string, k: nat)
  {
    k <= |s| && k < |t| && s[..k] == t[..k] && (k == |s| || s[k] < t[k])
  }

  ghost predicate Precedes(s: string, t: string) { exists k: nat :: TextSmallerAt(s, t, k) }

  lemma {:induction false} PrecedesExactly(s: string, t: string)
    ensures LexLt(CodePoints(s), CodePoints(t)) <==> Precedes(s, t)
  {
    var a, b := CodePoints(s), CodePoints(t);
    LexExactly(a, b);
    forall k: nat ensures SmallerAt(a, b, k) <==> TextSmallerAt(s, t, k) {
      if k <= |s| && k < |t| {
        assert a[..k] == CodePoints(s[..k]) && b[..k] == CodePoints(t[..k]);
        if a[..k] == b[..k] { CodePointsInjective(s[..k], t[..k]); }
      }
    }
  }

  /** Sorted names stand in Python's order of texts. */
  lemma {:induction false} NamesInOrder(s: set<string>, i: nat, j: nat)
    requires i < j < |SortedNames(s)|
    ensures Precedes(SortedNames(s)[i], SortedNames(s)[j])
  {
    PrecedesExactly(SortedNames(s)[i], SortedNames(s)[j]);
  }

  /** `sorted(names)`. */
  method SortNames(names: set<string>) returns (r: seq<string>)
    ensures r == SortedNames(names)
  {
    var todo, q := names, [];
    while todo != {}
      invariant multiset(q) + multiset(todo) == multiset(names)
      decreases todo
    {
      var n :| n in todo;
      todo := todo - {n};
      q := q + [n];
    }
    SortedNamesOf(q, names);
    r := Sort(q, CodePoints);
  }
}
