/** The wire codec is self-delimiting, canonical and bounded. */
module CborTheorems {
  import opened Wrappers
  import opened Ordering
  import opened Cbor
  import Utf8

  /** `x` stands in `b` at `pos`. */
  ghost predicate At(b: seq<byte>, pos: nat, x: seq<byte>)
  {
    pos + |x| <= |b| && b[pos..pos + |x|] == x
  }

  lemma {:induction false} AtSplit(b: seq<byte>, pos: nat, x: seq<byte>, y: seq<byte>)
    requires At(b, pos, x + y)
    ensures At(b, pos, x) && At(b, pos + |x|, y)
  {
    var s := b[pos..pos + |x + y|];
    assert s[..|x|] == x && s[|x|..] == y;
    assert b[pos..pos + |x|] == s[..|x|];
    assert b[pos + |x|..pos + |x| + |y|] == s[|x|..];
  }

  // ------------------------------------------------------------------ heads

  function Pow256(n: nat): nat { if n == 0 then 1 else 256 * Pow256(n - 1) }

  lemma {:induction false} BigEndianRoundTrip(n: nat, width: nat)
    requires n < Pow256(width)
    ensures FromBigEndian(BigEndian(n, width)) == n
  {
    if width > 0 {
      BigEndianRoundTrip(n / 256, width - 1);
      var r := BigEndian(n, width);
      assert r[..|r| - 1] == BigEndian(n / 256, width - 1);
    }
  }

  /** The first byte counts most. */
  lemma {:induction false} MostSignificantFirst(b: seq<byte>)
    requires b != []
    ensures FromBigEndian(b) == b[0] * Pow256(|b| - 1) + FromBigEndian(b[1..])
    decreases |b|
  {
    var init, last := b[..|b| - 1], b[|b| - 1];
    if |b| > 1 {
      MostSignificantFirst(init);
      assert b[1..][..|b[1..]| - 1] == init[1..] && b[1..][|b[1..]| - 1] == last;
      var p := Pow256(|b| - 2);
      assert (b[0] * p) * 256 == b[0] * (256 * p);
    }
  }

  lemma {:induction false} HeadFits(n: nat)
    requires n < TWO64
    ensures n < Pow256(8)
    ensures n <= 0xFFFF_FFFF ==> n < Pow256(4)
    ensures n <= 0xFFFF ==> n < Pow256(2)
    ensures n <= 0xFF ==> n < Pow256(1)
  {
    assert Pow256(2) == 0x1_0000;
    assert Pow256(4) == 0x1_0000_0000;
    assert Pow256(8) == TWO64;
  }

  function Width(n: nat): nat
  {
    if n <= 23 then 0 else if n <= 0xFF then 1 else if n <= 0xFFFF then 2 else if n <= 0xFFFF_FFFF then 4 else 8
  }

  function Additional(n: nat): (a: nat)
    ensures a < 32
  {
    if n <= 23 then n else if n <= 0xFF then 24 else if n <= 0xFFFF then 25 else if n <= 0xFFFF_FFFF then 26 else 27
  }

  lemma {:induction false} HeadShape(major: nat, n: nat)
    requires major < 8
    ensures Head(major, n) == [major * 32 + Additional(n)] + BigEndian(n, Width(n))
  {
    assert n <= 23 ==> BigEndian(n, Width(n)) == [];
    hide BigEndian;
  }

  lemma {:induction false} ArgumentRoundTrip(b: seq<byte>, at: nat, n: nat)
    requires n < TWO64 && at <= |b| && At(b, at, BigEndian(n, Width(n)))
    ensures ReadLen(b, at, Additional(n)) == Some((n, at + Width(n)))
  {
    hide FromBigEndian, BigEndian, Pow256;
    HeadFits(n);
    if n > 23 { BigEndianRoundTrip(n, Width(n)); }
  }

  lemma {:induction false} HeadRoundTrip(b: seq<byte>, pos: nat, major: nat, n: nat)
    requires major < 8 && n < TWO64 && At(b, pos, Head(major, n))
    ensures b[pos] / 32 == major
    ensures ReadLen(b, pos + 1, b[pos] % 32) == Some((n, pos + |Head(major, n)|))
  {
    hide Head, ReadLen, BigEndian, Additional, Width;
    HeadShape(major, n);
    AtSplit(b, pos, [major * 32 + Additional(n)], BigEndian(n, Width(n)));
    assert b[pos..pos + 1][0] == major * 32 + Additional(n);
    ArgumentRoundTrip(b, pos + 1, n);
  }

  // ------------------------------------------------------------ sorted entries

  lemma {:induction false} PairsOfInsert(e: Entry, es: seq<Entry>)
    ensures EncodePairs(Insert(e, es, EntryKey))
         == Insert((EncodeText(e.key), Encode(e.value)), EncodePairs(es), PairKey)
  {
    hide Encode, EncodeText, LexLt;
    if es != [] && LexLt(EntryKey(es[0]), EntryKey(e)) {
      PairsOfInsert(e, es[1..]);
      assert EncodePairs(es)[1..] == EncodePairs(es[1..]);
      var r := Insert(e, es, EntryKey);
      assert r[1..] == Insert(e, es[1..], EntryKey);
    } else {
      assert ([e] + es)[1..] == es;
    }
  }

  /** Sorting encoded pairs is encoding sorted entries. */
  lemma {:induction false} PairsOfSort(es: seq<Entry>)
    ensures EncodePairs(Sort(es, EntryKey)) == Sort(EncodePairs(es), PairKey)
  {
    if es != [] {
      PairsOfSort(es[1..]);
      PairsOfInsert(es[0], Sort(es[1..], EntryKey));
      assert EncodePairs(es)[1..] == EncodePairs(es[1..]);
    }
  }

  lemma {:induction false} EncodeTextInjective(s: string, t: string)
    requires EncodeText(s) == EncodeText(t)
    requires |Utf8.Encode(s)| < TWO64 && |Utf8.Encode(t)| < TWO64
    ensures s == t
  {
    var u, w := Utf8.Encode(s), Utf8.Encode(t);
    var b := EncodeText(s);
    assert b[0..|b|] == b;
    AtSplit(b, 0, Head(3, |u|), u);
    AtSplit(b, 0, Head(3, |w|), w);
    HeadRoundTrip(b, 0, 3, |u|);
    HeadRoundTrip(b, 0, 3, |w|);
    Utf8.EncodeInjective(s, t);
  }

  ghost predicate ShortKeys(es: seq<Entry>)
  {
    forall i :: 0 <= i < |es| ==> |Utf8.Encode(es[i].key)| < TWO64
  }

  lemma {:induction false} DistinctEntryKeys(es: seq<Entry>)
    requires Distinct(es) && ShortKeys(es)
    ensures DistinctKeys(es, EntryKey)
  {
    forall i, j | 0 <= i < j < |es| ensures EntryKey(es[i]) != EntryKey(es[j]) {
      var k, l := EncodeText(es[i].key), EncodeText(es[j].key);
      assert EntryKey(es[i])[1..] == k && EntryKey(es[j])[1..] == l;
      if k == l { EncodeTextInjective(es[i].key, es[j].key); }
    }
  }

  // ------------------------------------------------------------- round trip

  /** Wherever the encoding of `v` stands, the decoder reads `Norm(v)` and stops at its end. */
  ghost predicate Trips(v: Value)
  {
    forall b: seq<byte>, pos: nat :: At(b, pos, Encode(v)) ==>
      DecodeAt(b, pos) == Some((Norm(v), pos + |Encode(v)|))
  }

  // One step of the decoder, by what its initial byte announces.

  lemma {:induction false} WholeStep(b: seq<byte>, pos: nat, v: Value, end: nat)
    requires pos <= |b| && ReadItem(b, pos) == Some(Whole(v, end))
    ensures DecodeAt(b, pos) == Some((v, end))
  {
    hide ReadItem;
  }

  lemma {:induction false} ItemsStep(b: seq<byte>, pos: nat, n: nat, at: nat, items: seq<Value>, end: nat)
    requires pos <= |b| && ReadItem(b, pos) == Some(Items(n, at))
    requires DecodeItems(b, at, n) == Some((items, end))
    ensures DecodeAt(b, pos) == Some((List(items), end))
  {
    hide ReadItem, DecodeItems;
  }

  lemma {:induction false} EntriesStep(b: seq<byte>, pos: nat, n: nat, at: nat, es: seq<Entry>, end: nat)
    requires pos <= |b| && ReadItem(b, pos) == Some(Entries(n, at))
    requires DecodeEntries(b, at, n, []) == Some((es, end))
    ensures DecodeAt(b, pos) == Some((Map(es), end))
  {
    hide ReadItem, DecodeEntries;
  }

  lemma {:induction false} SizedStep(b: seq<byte>, pos: nat, major: nat, n: nat)
    requires major < 6 && n < TWO64 && At(b, pos, Head(major, n))
    ensures ReadItem(b, pos) == ReadSized(b, major, n, pos + |Head(major, n)|)
  {
    hide ReadSized, ReadSimple, ReadLen, Head;
    HeadRoundTrip(b, pos, major, n);
  }

  lemma {:induction false} ItemStep(b: seq<byte>, pos: nat, v: Value, at: nat, rest: seq<Value>, end: nat)
    requires pos <= |b| && DecodeAt(b, pos) == Some((v, at))
    requires DecodeItems(b, at, |rest|) == Some((rest, end))
    ensures DecodeItems(b, pos, 1 + |rest|) == Some(([v] + rest, end))
  {
    hide DecodeAt;
  }

  lemma {:induction false} ItemsTrip(items: seq<Value>, b: seq<byte>, pos: nat)
    requires forall i :: 0 <= i < |items| ==> Trips(items[i])
    requires At(b, pos, EncodeItems(items))
    ensures DecodeItems(b, pos, |items|) == Some((NormItems(items), pos + |EncodeItems(items)|))
  {
    hide DecodeAt, Norm, Encode, DecodeItems, EncodeItems, NormItems, Trips;
    if items == [] {
      NoItems(b, pos);
    } else {
      var e, rest := Encode(items[0]), EncodeItems(items[1..]);
      ItemsCons(items);
      AtSplit(b, pos, e, rest);
      TripsAt(items[0], b, pos);
      ItemsTrip(items[1..], b, pos + |e|);
      ItemStep(b, pos, Norm(items[0]), pos + |e|, NormItems(items[1..]), pos + |e| + |rest|);
    }
  }

  lemma {:induction false} NoItems(b: seq<byte>, pos: nat)
    requires pos <= |b|
    ensures DecodeItems(b, pos, 0) == Some((NormItems([]), pos)) && EncodeItems([]) == []
  {
  }

  lemma {:induction false} ItemsCons(items: seq<Value>)
    requires items != []
    ensures EncodeItems(items) == Encode(items[0]) + EncodeItems(items[1..])
    ensures NormItems(items) == [Norm(items[0])] + NormItems(items[1..])
  {
    hide Encode, Norm;
  }

  lemma {:induction false} TripsAt(v: Value, b: seq<byte>, pos: nat)
    requires Trips(v) && At(b, pos, Encode(v))
    ensures DecodeAt(b, pos) == Some((Norm(v), pos + |Encode(v)|))
  {
    hide DecodeAt, Encode, Norm;
  }

  lemma {:induction false} TextTrips(s: string)
    requires |Utf8.Encode(s)| < TWO64
    ensures Trips(Text(s))
  {
    var u := Utf8.Encode(s);
    hide DecodeAt, ReadItem, Utf8.Encode, Utf8.Decode, Head;
    forall b: seq<byte>, pos: nat | At(b, pos, Encode(Text(s)))
      ensures DecodeAt(b, pos) == Some((Text(s), pos + |Encode(Text(s))|))
    {
      AtSplit(b, pos, Head(3, |u|), u);
      SizedStep(b, pos, 3, |u|);
      Utf8.DecodeEncode(s);
      WholeStep(b, pos, Text(s), pos + |Encode(Text(s))|);
    }
  }

  lemma {:induction false} KeyStep(s: string, b: seq<byte>, pos: nat)
    requires Trips(Text(s)) && At(b, pos, EncodeText(s))
    ensures DecodeAt(b, pos) == Some((Text(s), pos + |EncodeText(s)|))
  {
    hide DecodeAt, EncodeText;
    assert Encode(Text(s)) == EncodeText(s);
  }

  lemma {:induction false} PutFresh(es: seq<Entry>, k: string, v: Value)
    requires forall i :: 0 <= i < |es| ==> es[i].key != k
    ensures Put(es, k, v) == es + [Entry(k, v)]
  {
    if es != [] { PutFresh(es[1..], k, v); }
  }

  lemma {:induction false} ConcatCons(es: seq<Entry>)
    requires es != []
    ensures Concat(EncodePairs(es))
         == EncodeText(es[0].key) + Encode(es[0].value) + Concat(EncodePairs(es[1..]))
  {
    hide EncodeText, Encode;
    assert EncodePairs(es)[1..] == EncodePairs(es[1..]);
  }

  lemma {:induction false} EntryStep(b: seq<byte>, pos: nat, n: nat, acc: seq<Entry>,
                                     k: string, at: nat, v: Value, end: nat)
    requires pos <= |b| && n > 0
    requires DecodeAt(b, pos) == Some((Text(k), at)) && DecodeAt(b, at) == Some((v, end))
    requires forall i :: 0 <= i < |acc| ==> acc[i].key != k
    ensures DecodeEntries(b, pos, n, acc) == DecodeEntries(b, end, n - 1, acc + [Entry(k, v)])
  {
    PutFresh(acc, k, v);
    hide DecodeAt, Put;
  }

  lemma {:induction false} FreshKey(acc: seq<Entry>, n: Entry, rest: seq<Entry>)
    requires Distinct(acc + [n] + rest)
    ensures forall i :: 0 <= i < |acc| ==> acc[i].key != n.key
  {
    var all := acc + [n] + rest;
    forall i | 0 <= i < |acc| ensures acc[i].key != n.key {
      assert all[i] == acc[i] && all[|acc|] == n;
    }
  }

  lemma {:induction false} EntriesTrip(es: seq<Entry>, b: seq<byte>, pos: nat, acc: seq<Entry>)
    requires Distinct(acc + NormEntries(es)) && ShortKeys(es)
    requires forall i :: 0 <= i < |es| ==> Trips(es[i].value)
    requires At(b, pos, Concat(EncodePairs(es)))
    ensures DecodeEntries(b, pos, |es|, acc)
         == Some((acc + NormEntries(es), pos + |Concat(EncodePairs(es))|))
  {
    hide DecodeAt, DecodeEntries, Norm, NormEntries, Encode, EncodeText, Concat, EncodePairs, Distinct;
    if es == [] {
      NoEntries(b, pos, acc);
    } else {
      var k, e := EncodeText(es[0].key), Encode(es[0].value);
      ConcatCons(es);
      AtSplit(b, pos, k + e, Concat(EncodePairs(es[1..])));
      AtSplit(b, pos, k, e);
      TextTrips(es[0].key);
      KeyStep(es[0].key, b, pos);
      assert Trips(es[0].value);
      var n := Entry(es[0].key, Norm(es[0].value));
      NormCons(es);
      assert acc + NormEntries(es) == (acc + [n]) + NormEntries(es[1..]);
      FreshKey(acc, n, NormEntries(es[1..]));
      EntryStep(b, pos, |es|, acc, n.key, pos + |k|, n.value, pos + |k| + |e|);
      EntriesTrip(es[1..], b, pos + |k| + |e|, acc + [n]);
    }
  }

  lemma {:induction false} NormCons(es: seq<Entry>)
    requires es != []
    ensures NormEntries(es) == [Entry(es[0].key, Norm(es[0].value))] + NormEntries(es[1..])
  {
    hide Norm;
  }

  lemma {:induction false} NoEntries(b: seq<byte>, pos: nat, acc: seq<Entry>)
    requires pos <= |b|
    ensures DecodeEntries(b, pos, 0, acc) == Some((acc + NormEntries([]), pos))
    ensures Concat(EncodePairs([])) == []
  {
    assert acc + NormEntries([]) == acc;
  }

  lemma {:induction false} NormOfInsert(e: Entry, es: seq<Entry>)
    ensures NormEntries(Insert(e, es, EntryKey))
         == Insert(Entry(e.key, Norm(e.value)), NormEntries(es), EntryKey)
  {
    hide Norm, NormEntries, EncodeText, LexLt, EntryKey;
    var r, n := Insert(e, es, EntryKey), Entry(e.key, Norm(e.value));
    KeyOfKey(e, n);
    NormCons(r);
    if es == [] {
      NormNone();
    } else {
      NormCons(es);
      KeyOfKey(es[0], NormEntries(es)[0]);
      assert NormEntries(es)[1..] == NormEntries(es[1..]);
      if LexLt(EntryKey(es[0]), EntryKey(e)) {
        NormOfInsert(e, es[1..]);
        assert r[1..] == Insert(e, es[1..], EntryKey);
      } else {
        assert r[1..] == es;
      }
    }
  }

  lemma {:induction false} NormNone()
    ensures NormEntries([]) == []
  {
  }

  lemma {:induction false} NormOfSort(es: seq<Entry>)
    ensures NormEntries(Sort(es, EntryKey)) == Sort(NormEntries(es), EntryKey)
  {
    if es != [] {
      NormOfSort(es[1..]);
      NormOfInsert(es[0], Sort(es[1..], EntryKey));
      assert NormEntries(es)[1..] == NormEntries(es[1..]);
    }
  }

  lemma {:induction false} SortedEntriesKeep(es: seq<Entry>, i: nat)
    requires i < |es|
    ensures Sort(es, EntryKey)[i] in es
  {
    assert Sort(es, EntryKey)[i] in multiset(Sort(es, EntryKey));
  }

  lemma {:induction false} SortedDistinct(es: seq<Entry>)
    requires Distinct(es) && ShortKeys(es)
    ensures Distinct(Sort(es, EntryKey)) && ShortKeys(Sort(es, EntryKey))
  {
    var s := Sort(es, EntryKey);
    DistinctEntryKeys(es);
    DistinctKeysPermutation(es, s, EntryKey);
    forall i, j | 0 <= i < j < |s| ensures s[i].key != s[j].key {
      assert EntryKey(s[i]) != EntryKey(s[j]);
    }
    forall i | 0 <= i < |s| ensures |Utf8.Encode(s[i].key)| < TWO64 { SortedEntriesKeep(es, i); }
  }

  lemma {:induction false} MapTrips(es: seq<Entry>, b: seq<byte>, pos: nat)
    requires |es| < TWO64 && Distinct(es) && ShortKeys(es)
    requires forall i :: 0 <= i < |es| ==> Trips(es[i].value)
    requires At(b, pos, Encode(Map(es)))
    ensures DecodeAt(b, pos) == Some((Norm(Map(es)), pos + |Encode(Map(es))|))
  {
    hide DecodeAt, Head, Concat, NormEntries, EncodePairs, Trips, Sort;
    PairsOfSort(es);
    NormOfSort(es);
    MapBodyTrips(es, b, pos);
  }

  lemma {:induction false} MapBodyTrips(es: seq<Entry>, b: seq<byte>, pos: nat)
    requires |es| < TWO64 && Distinct(es) && ShortKeys(es)
    requires forall i :: 0 <= i < |es| ==> Trips(es[i].value)
    requires At(b, pos, Head(5, |es|) + Concat(EncodePairs(Sort(es, EntryKey))))
    ensures DecodeAt(b, pos) == Some((Map(NormEntries(Sort(es, EntryKey))),
                                      pos + |Head(5, |es|)| + |Concat(EncodePairs(Sort(es, EntryKey)))|))
  {
    hide DecodeAt, DecodeEntries, Trips, Head, Concat, NormEntries, EncodePairs, ReadItem, Sort;
    var s := Sort(es, EntryKey);
    SortedDistinct(es);
    forall i | 0 <= i < |s| ensures Trips(s[i].value) { SortedEntriesKeep(es, i); }
    var at := pos + |Head(5, |es|)|;
    AtSplit(b, pos, Head(5, |es|), Concat(EncodePairs(s)));
    SizedStep(b, pos, 5, |es|);
    assert [] + NormEntries(s) == NormEntries(s);
    EntriesTrip(s, b, at, []);
    EntriesStep(b, pos, |es|, at, NormEntries(s), at + |Concat(EncodePairs(s))|);
  }

  /** Decoding the encoding of any in-range value, whatever follows it, gives the value
      back (byte strings as integer lists) and stops exactly at its end. */
  lemma {:induction false} RoundTrip(v: Value)
    requires InRange(v)
    ensures Trips(v)
  {
    hide DecodeAt, Norm, Encode;
    match v
    case List(items) =>
      forall i | 0 <= i < |items| ensures Trips(items[i]) { RoundTrip(items[i]); }
      forall b: seq<byte>, pos: nat | At(b, pos, Encode(v))
        ensures DecodeAt(b, pos) == Some((Norm(v), pos + |Encode(v)|))
      {
        ListTrips(items, b, pos);
      }
    case Map(es) =>
      forall i | 0 <= i < |es| ensures Trips(es[i].value) { RoundTrip(es[i].value); }
      forall b: seq<byte>, pos: nat | At(b, pos, Encode(v))
        ensures DecodeAt(b, pos) == Some((Norm(v), pos + |Encode(v)|))
      {
        MapTrips(es, b, pos);
      }
    case Text(s) => TextTrips(s);
    case _ => LeafTrips(v);
  }

  lemma {:induction false} ListTrips(items: seq<Value>, b: seq<byte>, pos: nat)
    requires |items| < TWO64
    requires forall i :: 0 <= i < |items| ==> Trips(items[i])
    requires At(b, pos, Encode(List(items)))
    ensures DecodeAt(b, pos) == Some((Norm(List(items)), pos + |Encode(List(items))|))
  {
    hide DecodeAt, DecodeItems, Trips, Head, EncodeItems, NormItems, ReadItem;
    var at := pos + |Head(4, |items|)|;
    AtSplit(b, pos, Head(4, |items|), EncodeItems(items));
    SizedStep(b, pos, 4, |items|);
    ItemsTrip(items, b, at);
    ItemsStep(b, pos, |items|, at, NormItems(items), at + |EncodeItems(items)|);
  }

  lemma {:induction false} LeafTrips(v: Value)
    requires InRange(v) && !v.List? && !v.Map? && !v.Text?
    ensures Trips(v)
  {
    hide DecodeAt, ReadItem, Encode, Norm;
    forall b: seq<byte>, pos: nat | At(b, pos, Encode(v))
      ensures DecodeAt(b, pos) == Some((Norm(v), pos + |Encode(v)|))
    {
      LeafRead(v, b, pos);
      WholeStep(b, pos, Norm(v), pos + |Encode(v)|);
    }
  }

  lemma {:induction false} LeafRead(v: Value, b: seq<byte>, pos: nat)
    requires InRange(v) && !v.List? && !v.Map? && !v.Text? && At(b, pos, Encode(v))
    ensures ReadItem(b, pos) == Some(Whole(Norm(v), pos + |Encode(v)|))
  {
    hide Head, ReadItem, At, Ints;
    if v.Int? {
      IntRead(v.n, b, pos);
    } else if v.Bytes? {
      BytesRead(v.data, b, pos);
    } else {
      SimpleRead(v, b, pos);
    }
  }

  lemma {:induction false} IntRead(n: int, b: seq<byte>, pos: nat)
    requires InRange(Int(n)) && At(b, pos, Encode(Int(n)))
    ensures ReadItem(b, pos) == Some(Whole(Int(n), pos + |Encode(Int(n))|))
  {
    hide Head, ReadItem;
    SizedStep(b, pos, if n >= 0 then 0 else 1, if n >= 0 then n else -1 - n);
  }

  lemma {:induction false} BytesRead(data: seq<byte>, b: seq<byte>, pos: nat)
    requires |data| < TWO64 && At(b, pos, Head(2, |data|) + data)
    ensures ReadItem(b, pos) == Some(Whole(List(Ints(data)), pos + |Head(2, |data|)| + |data|))
  {
    hide Head, ReadItem, Ints;
    AtSplit(b, pos, Head(2, |data|), data);
    SizedStep(b, pos, 2, |data|);
  }

  lemma {:induction false} SimpleRead(v: Value, b: seq<byte>, pos: nat)
    requires InRange(v) && (v.Null? || v.Bool? || v.Float?) && At(b, pos, Encode(v))
    ensures ReadItem(b, pos) == Some(Whole(v, pos + |Encode(v)|))
  {
    hide ReadSized, ReadLen;
    if v.Float? {
      AtSplit(b, pos, [0xFB], v.bits);
      assert b[pos..pos + 1][0] == 0xFB;
    } else {
      assert b[pos..pos + 1][0] == Encode(v)[0];
    }
  }

  /** One message per payload: the top-level decoder inverts the encoder. */
  lemma {:induction false} DecodeEncode(v: Value)
    requires InRange(v)
    ensures Cbor.Decode(Encode(v)) == Some(Norm(v))
  {
    RoundTrip(v);
    var b := Encode(v);
    assert b[0..|b|] == b;
    assert At(b, 0, b);
  }

  /** No encoding is a proper prefix of another, and values that encode alike are read alike. */
  lemma {:induction false} PrefixFree(v: Value, w: Value)
    requires InRange(v) && InRange(w)
    requires Encode(v) <= Encode(w)
    ensures Encode(v) == Encode(w) && Norm(v) == Norm(w)
  {
    RoundTrip(v);
    RoundTrip(w);
    var b := Encode(w);
    assert b[0..|b|] == b;
    assert At(b, 0, Encode(v)) && At(b, 0, Encode(w));
  }

  // --------------------------------------------------------- canonical form

  /** A dict encodes the same whatever order its entries were inserted in. */
  lemma {:induction false} InsertionOrderIrrelevant(es: seq<Entry>, fs: seq<Entry>)
    requires InRange(Map(es)) && multiset(es) == multiset(fs)
    ensures Encode(Map(es)) == Encode(Map(fs))
  {
    assert |multiset(es)| == |multiset(fs)|;
    DistinctEntryKeys(es);
    SortPermutation(es, fs, EntryKey);
    PairsOfSort(es);
    PairsOfSort(fs);
  }

  lemma {:induction false} ItemsOfNorm(items: seq<Value>)
    requires forall i :: 0 <= i < |items| ==> Encode(Norm(items[i])) == Encode(items[i])
    ensures EncodeItems(NormItems(items)) == EncodeItems(items)
  {
    if items != [] {
      ItemsOfNorm(items[1..]);
      assert NormItems(items)[1..] == NormItems(items[1..]);
    }
  }

  lemma {:induction false} PairsOfNorm(es: seq<Entry>)
    requires forall i :: 0 <= i < |es| ==> Encode(Norm(es[i].value)) == Encode(es[i].value)
    ensures EncodePairs(NormEntries(es)) == EncodePairs(es)
  {
    if es != [] {
      PairsOfNorm(es[1..]);
      assert NormEntries(es)[1..] == NormEntries(es[1..]);
    }
  }

  lemma {:induction false} SortTwice(es: seq<Entry>)
    requires Distinct(es) && ShortKeys(es)
    ensures Sort(Sort(es, EntryKey), EntryKey) == Sort(es, EntryKey)
  {
    DistinctEntryKeys(es);
    SortAscending(es, EntryKey);
    SortOfAscending(Sort(es, EntryKey), EntryKey);
  }

  /** Re-encoding what a reader saw reproduces the bytes, for values without byte strings. */
  lemma {:induction false} EncodeNorm(v: Value)
    requires InRange(v) && BytesFree(v)
    ensures Encode(Norm(v)) == Encode(v)
  {
    match v
    case List(items) =>
      forall i | 0 <= i < |items| ensures Encode(Norm(items[i])) == Encode(items[i]) { EncodeNorm(items[i]); }
      ItemsOfNorm(items);
    case Map(es) =>
      forall i | 0 <= i < |es| ensures Encode(Norm(es[i].value)) == Encode(es[i].value) { EncodeNorm(es[i].value); }
      PairsOfNorm(es);
      var n := NormEntries(es);
      PairsOfSort(n);
      PairsOfSort(Sort(n, EntryKey));
      SortTwice(n);
    case _ =>
  }

  /** For values without byte strings the bytes are a canonical form: two values encode
      alike exactly when a reader cannot tell them apart. */
  lemma {:induction false} EncodeCanonical(v: Value, w: Value)
    requires InRange(v) && BytesFree(v) && InRange(w) && BytesFree(w)
    ensures Encode(v) == Encode(w) <==> Norm(v) == Norm(w)
  {
    EncodeNorm(v);
    EncodeNorm(w);
    DecodeEncode(v);
    DecodeEncode(w);
  }

  // ------------------------------------------------- what a reader re-encodes

  lemma {:induction false} NormKeepsKeys(es: seq<Entry>)
    requires Distinct(es) && ShortKeys(es)
    ensures Distinct(NormEntries(es)) && ShortKeys(NormEntries(es))
    ensures Distinct(Sort(NormEntries(es), EntryKey))
  {
    hide Norm, Sort;
    SortedDistinct(NormEntries(es));
  }

  lemma {:induction false} MapInRange(es: seq<Entry>)
    requires |es| < TWO64 && Distinct(es) && ShortKeys(es)
    requires forall i :: 0 <= i < |es| ==> InRange(es[i].value)
    ensures InRange(Map(es))
  {
  }

  lemma {:induction false} MapBytesFree(es: seq<Entry>)
    requires forall i :: 0 <= i < |es| ==> BytesFree(es[i].value)
    ensures BytesFree(Map(es))
  {
  }

  lemma {:induction false} EntriesInRangeNorm(es: seq<Entry>)
    requires |es| < TWO64 && Distinct(es) && ShortKeys(es)
    requires forall i :: 0 <= i < |es| ==> InRange(Norm(es[i].value)) && BytesFree(Norm(es[i].value))
    ensures InRange(Map(Sort(NormEntries(es), EntryKey))) && BytesFree(Map(Sort(NormEntries(es), EntryKey)))
  {
    hide *;
    var n := NormEntries(es);
    var s := Sort(n, EntryKey);
    NormKeepsKeys(es);
    SortedDistinct(n);
    forall i | 0 <= i < |s| ensures InRange(s[i].value) && BytesFree(s[i].value) {
      SortedEntriesKeep(n, i);
      var j :| 0 <= j < |n| && n[j] == s[i];
    }
    MapInRange(s);
    MapBytesFree(s);
  }

  /** What a reader holds can be encoded again, and never has a byte string in it. */
  lemma {:induction false} InRangeNorm(v: Value)
    requires InRange(v)
    ensures InRange(Norm(v)) && BytesFree(Norm(v))
  {
    match v
    case List(items) =>
      forall i | 0 <= i < |items| ensures InRange(Norm(items[i])) && BytesFree(Norm(items[i])) {
        InRangeNorm(items[i]);
      }
    case Map(es) =>
      forall i | 0 <= i < |es| ensures InRange(Norm(es[i].value)) && BytesFree(Norm(es[i].value)) {
        InRangeNorm(es[i].value);
      }
      EntriesInRangeNorm(es);
    case _ =>
  }

  lemma {:induction false} HeadByte(major: nat, n: nat, rest: seq<byte>)
    requires major < 8
    ensures (Head(major, n) + rest)[0] / 32 == major
  {
    HeadShape(major, n);
    hide Head, BigEndian, Additional;
  }

  /** Equal concatenations of encodings begin with the same encoding. */
  lemma {:induction false} SplitFirst(v: Value, w: Value, a: seq<byte>, b: seq<byte>)
    requires InRange(v) && InRange(w) && Encode(v) + a == Encode(w) + b
    ensures Encode(v) == Encode(w) && a == b
  {
    hide *;
    var x, y := Encode(v), Encode(w);
    assert (x + a)[..|x|] == x && (y + b)[..|y|] == y;
    if |x| <= |y| {
      assert x == y[..|x|];
      PrefixFree(v, w);
    } else {
      assert y == x[..|y|];
      PrefixFree(w, v);
    }
    assert (x + a)[|x|..] == a && (y + b)[|y|..] == b;
  }

  lemma {:induction false} SplitItems(xs: seq<Value>, ys: seq<Value>)
    requires |xs| == |ys| && EncodeItems(xs) == EncodeItems(ys)
    requires forall i :: 0 <= i < |xs| ==> InRange(xs[i]) && InRange(ys[i])
    ensures forall i :: 0 <= i < |xs| ==> Encode(xs[i]) == Encode(ys[i])
  {
    hide Encode, InRange;
    if xs != [] {
      SplitFirst(xs[0], ys[0], EncodeItems(xs[1..]), EncodeItems(ys[1..]));
      SplitItems(xs[1..], ys[1..]);
      forall i | 0 <= i < |xs| ensures Encode(xs[i]) == Encode(ys[i]) {
        if i > 0 { assert xs[i] == xs[1..][i - 1] && ys[i] == ys[1..][i - 1]; }
      }
    }
  }

  lemma {:induction false} SplitPairs(es: seq<Entry>)
    requires forall i :: 0 <= i < |es| ==> InRange(es[i].value) && InRange(Norm(es[i].value))
    requires Concat(EncodePairs(NormEntries(es))) == Concat(EncodePairs(es))
    ensures forall i :: 0 <= i < |es| ==> Encode(Norm(es[i].value)) == Encode(es[i].value)
  {
    hide *;
    if es != [] {
      NormCons(es);
      ConcatCons(es);
      var n := NormEntries(es);
      assert n[1..] == NormEntries(es[1..]);
      ConcatCons(n);
      var k, a, b := EncodeText(es[0].key), Concat(EncodePairs(n[1..])), Concat(EncodePairs(es[1..]));
      assert k + (Encode(n[0].value) + a) == k + Encode(n[0].value) + a;
      assert k + (Encode(es[0].value) + b) == k + Encode(es[0].value) + b;
      Strip(k, Encode(n[0].value) + a, Encode(es[0].value) + b);
      SplitFirst(n[0].value, es[0].value, a, b);
      SplitPairs(es[1..]);
      forall i | 0 <= i < |es| ensures Encode(Norm(es[i].value)) == Encode(es[i].value) {
        if i > 0 { assert es[i] == es[1..][i - 1]; }
      }
    }
  }

  lemma {:induction false} Strip(k: seq<byte>, a: seq<byte>, b: seq<byte>)
    requires k + a == k + b
    ensures a == b
  {
    assert (k + a)[|k|..] == a && (k + b)[|k|..] == b;
  }

  lemma {:induction false} ListKept(items: seq<Value>)
    requires InRange(List(items)) && Encode(Norm(List(items))) == Encode(List(items))
    ensures forall i :: 0 <= i < |items| ==> Encode(Norm(items[i])) == Encode(items[i])
  {
    hide Encode, Norm, Head;
    var n := NormItems(items);
    ListEncoding(items);
    ListEncoding(n);
    Strip(Head(4, |items|), EncodeItems(n), EncodeItems(items));
    forall i | 0 <= i < |items| ensures InRange(n[i]) { InRangeNorm(items[i]); }
    SplitItems(n, items);
  }

  lemma {:induction false} ListEncoding(items: seq<Value>)
    ensures Encode(List(items)) == Head(4, |items|) + EncodeItems(items)
    ensures Norm(List(items)) == List(NormItems(items)) && |NormItems(items)| == |items|
    ensures forall i :: 0 <= i < |items| ==> NormItems(items)[i] == Norm(items[i])
  {
    hide Head, EncodeItems;
  }

  /** A dict's bytes are its sorted entries', and a reader's dict is already sorted. */
  lemma {:induction false} MapEncoding(es: seq<Entry>)
    requires Distinct(es) && ShortKeys(es)
    ensures Encode(Map(es)) == Head(5, |es|) + Concat(EncodePairs(Sort(es, EntryKey)))
    ensures Encode(Norm(Map(es))) == Head(5, |es|) + Concat(EncodePairs(NormEntries(Sort(es, EntryKey))))
  {
    hide Head, Concat, EncodePairs, Sort, NormEntries;
    var n := NormEntries(es);
    PairsOfSort(es);
    NormOfSort(es);
    NormKeepsKeys(es);
    SortTwice(n);
    PairsOfSort(Sort(n, EntryKey));
    assert |multiset(Sort(n, EntryKey))| == |multiset(n)|;
  }

  lemma {:induction false} MapKept(es: seq<Entry>)
    requires InRange(Map(es)) && Encode(Norm(Map(es))) == Encode(Map(es))
    ensures forall i :: 0 <= i < |es| ==> Encode(Norm(es[i].value)) == Encode(es[i].value)
  {
    hide Encode, Norm, Head, Concat, EncodePairs, NormEntries, Sort;
    var s := Sort(es, EntryKey);
    MapEncoding(es);
    Strip(Head(5, |es|), Concat(EncodePairs(NormEntries(s))), Concat(EncodePairs(s)));
    forall i | 0 <= i < |s| ensures InRange(s[i].value) && InRange(Norm(s[i].value)) {
      SortedEntriesKeep(es, i);
      InRangeNorm(s[i].value);
    }
    SplitPairs(s);
    forall i | 0 <= i < |es| ensures Encode(Norm(es[i].value)) == Encode(es[i].value) {
      assert es[i] in multiset(s);
      var j :| 0 <= j < |s| && s[j] == es[i];
    }
  }

  lemma {:induction false} KeptIsBytesFree(v: Value)
    requires InRange(v) && Encode(Norm(v)) == Encode(v)
    ensures BytesFree(v)
  {
    match v
    case Bytes(data) =>
      HeadByte(2, |data|, data);
      HeadByte(4, |data|, EncodeItems(Ints(data)));
    case List(items) =>
      ListKept(items);
      forall i | 0 <= i < |items| ensures BytesFree(items[i]) { KeptIsBytesFree(items[i]); }
    case Map(es) =>
      MapKept(es);
      forall i | 0 <= i < |es| ensures BytesFree(es[i].value) { KeptIsBytesFree(es[i].value); }
    case _ =>
  }

  /** A reader that encodes what it holds writes the bytes it was sent exactly when the
      value sent has no byte string anywhere in it. */
  lemma {:induction false} ReencodedExactly(v: Value)
    requires InRange(v)
    ensures Encode(Norm(v)) == Encode(v) <==> BytesFree(v)
  {
    hide Encode, Norm, BytesFree;
    if BytesFree(v) { EncodeNorm(v); }
    if Encode(Norm(v)) == Encode(v) { KeptIsBytesFree(v); }
  }

  /** Reading is settled after one trip: what a reader holds it would read back unchanged. */
  lemma {:induction false} NormTwice(v: Value)
    requires InRange(v)
    ensures Norm(Norm(v)) == Norm(v)
  {
    match v
    case List(items) =>
      forall i | 0 <= i < |items| ensures Norm(Norm(items[i])) == Norm(items[i]) { NormTwice(items[i]); }
      assert NormItems(NormItems(items)) == NormItems(items);
    case Map(es) =>
      forall i | 0 <= i < |es| ensures Norm(Norm(es[i].value)) == Norm(es[i].value) { NormTwice(es[i].value); }
      MapNormTwice(es);
    case _ =>
  }

  lemma {:induction false} MapNormTwice(es: seq<Entry>)
    requires Distinct(es) && ShortKeys(es)
    requires forall i :: 0 <= i < |es| ==> Norm(Norm(es[i].value)) == Norm(es[i].value)
    ensures Norm(Norm(Map(es))) == Norm(Map(es))
  {
    hide Sort, Norm, EntryKey;
    var n := NormEntries(es);
    NormKeepsKeys(es);
    NormOfMap(es);
    NormOfMap(Sort(n, EntryKey));
    NormOfSort(n);
    SortTwice(n);
    assert NormEntries(n) == n;
  }

  /** A value is encodable when what a reader would hold of it is. */
  lemma {:induction false} InRangeBack(v: Value)
    requires InRange(Norm(v))
    ensures InRange(v)
  {
    match v
    case List(items) =>
      forall i | 0 <= i < |items| ensures InRange(items[i]) {
        assert Norm(v).items[i] == Norm(items[i]);
        InRangeBack(items[i]);
      }
    case Map(es) =>
      MapRangeBack(es);
      forall i | 0 <= i < |es| ensures InRange(es[i].value) { InRangeBack(es[i].value); }
    case Bytes(data) => assert |Norm(v).items| == |data|;
    case _ =>
  }

  lemma {:induction false} MapRangeBack(es: seq<Entry>)
    requires InRange(Norm(Map(es)))
    ensures |es| < TWO64 && Distinct(es) && ShortKeys(es)
    ensures forall i :: 0 <= i < |es| ==> InRange(Norm(es[i].value))
  {
    hide Norm, Sort, EntryKey;
    var n := NormEntries(es);
    var s := Sort(n, EntryKey);
    NormOfMap(es);
    assert |multiset(s)| == |multiset(n)|;
    DistinctEntryKeys(s);
    DistinctKeysPermutation(s, n, EntryKey);
    forall i | 0 <= i < |es| ensures |Utf8.Encode(es[i].key)| < TWO64 && InRange(Norm(es[i].value)) {
      assert n[i] in multiset(s);
      var j :| 0 <= j < |s| && s[j] == n[i];
    }
    forall i, j | 0 <= i < j < |es| ensures es[i].key != es[j].key {
      assert EntryKey(n[i]) != EntryKey(n[j]);
      KeyOfKey(n[i], n[j]);
    }
  }

  lemma {:induction false} KeyOfKey(e: Entry, f: Entry)
    ensures e.key == f.key ==> EntryKey(e) == EntryKey(f)
  {
  }

  lemma {:induction false} NormOfMap(es: seq<Entry>)
    ensures Norm(Map(es)) == Map(Sort(NormEntries(es), EntryKey))
  {
  }

  /** Values that are read alike, and have no byte strings, are written alike. */
  lemma {:induction false} ReadAlike(v: Value, w: Value)
    requires InRange(v) && BytesFree(v) && BytesFree(w) && Norm(v) == Norm(w)
    ensures InRange(w) && Encode(w) == Encode(v)
  {
    InRangeNorm(v);
    InRangeBack(w);
    EncodeNorm(v);
    EncodeNorm(w);
  }

  /** With a byte string the re-encoding differs: the reader holds a list of integers. */
  lemma {:induction false} BytesAreNotKept()
    ensures Cbor.Decode(Encode(Bytes([7]))) == Some(List([Int(7)]))
    ensures Encode(List([Int(7)])) != Encode(Bytes([7]))
  {
    DecodeEncode(Bytes([7]));
    assert Ints([7]) == [Int(7)];
    assert Encode(List([Int(7)])) == Head(4, 1) + EncodeItems([Int(7)]);
  }

  // ------------------------------------------------------------- size bound

  lemma {:induction false} NodesOfPut(es: seq<Entry>, k: string, v: Value)
    ensures NodesOfEntries(Put(es, k, v)) <= NodesOfEntries(es) + 1 + Nodes(v)
  {
    if es == [] {
      assert NodesOfEntries([Entry(k, v)]) == 1 + Nodes(v) + NodesOfEntries([]);
    } else if es[0].key == k {
      assert ([Entry(k, v)] + es[1..])[1..] == es[1..];
    } else {
      NodesOfPut(es[1..], k, v);
      assert ([es[0]] + Put(es[1..], k, v))[1..] == Put(es[1..], k, v);
    }
  }

  lemma {:induction false} NodesOfInts(data: seq<byte>)
    ensures NodesOfItems(Ints(data)) == |data|
  {
    if data != [] {
      NodesOfInts(data[1..]);
      assert Ints(data)[1..] == Ints(data[1..]);
    }
  }

  /** Whatever lengths the input declares, a decoded value has no more objects than the
      bytes it was read from. */
  lemma {:induction false} DecodedSize(b: seq<byte>, pos: nat)
    requires pos <= |b| && DecodeAt(b, pos).Some?
    ensures Nodes(DecodeAt(b, pos).value.0) <= DecodeAt(b, pos).value.1 - pos
    decreases |b| - pos, 0
  {
    hide ReadItem, DecodeItems, DecodeEntries, NodesOfItems;
    match ReadItem(b, pos).value
    case Whole(v, end) => WholeSize(b, pos);
    case Items(n, at) => DecodedItemsSize(b, at, n);
    case Entries(n, at) => DecodedEntriesSize(b, at, n, []);
  }

  lemma {:induction false} WholeSize(b: seq<byte>, pos: nat)
    requires pos <= |b| && ReadItem(b, pos).Some? && ReadItem(b, pos).value.Whole?
    ensures Nodes(ReadItem(b, pos).value.value) <= ReadItem(b, pos).value.end - pos
  {
    if b[pos] / 32 == 2 {
      var (n, at) := ReadLen(b, pos + 1, b[pos] % 32).value;
      NodesOfInts(b[at..at + n]);
    }
  }

  lemma {:induction false} DecodedItemsSize(b: seq<byte>, pos: nat, n: nat)
    requires pos <= |b| && DecodeItems(b, pos, n).Some?
    ensures NodesOfItems(DecodeItems(b, pos, n).value.0) <= DecodeItems(b, pos, n).value.1 - pos
    decreases |b| - pos, 1
  {
    hide DecodeAt, Nodes;
    if n > 0 {
      var (v, at) := DecodeAt(b, pos).value;
      DecodedSize(b, pos);
      DecodedItemsSize(b, at, n - 1);
      var rest := DecodeItems(b, at, n - 1).value.0;
      assert ([v] + rest)[1..] == rest;
    }
  }

  lemma {:induction false} DecodedEntriesSize(b: seq<byte>, pos: nat, n: nat, acc: seq<Entry>)
    requires pos <= |b| && DecodeEntries(b, pos, n, acc).Some?
    ensures NodesOfEntries(DecodeEntries(b, pos, n, acc).value.0)
         <= NodesOfEntries(acc) + DecodeEntries(b, pos, n, acc).value.1 - pos
    decreases |b| - pos, 1
  {
    hide DecodeAt, Put, NodesOfEntries, Nodes;
    if n > 0 {
      var (key, at) := DecodeAt(b, pos).value;
      DecodedSize(b, at);
      var (v, end) := DecodeAt(b, at).value;
      NodesOfPut(acc, key.s, v);
      DecodedEntriesSize(b, end, n - 1, Put(acc, key.s, v));
    }
  }
}
