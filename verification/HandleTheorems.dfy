/** What descriptors resolve to, over every run. */
module HandleTheorems {
  import opened Wrappers
  import opened Json
  import opened Handles
  import Separated

  // --------------------------------------------------------------------- descriptors

  lemma {:induction false} HexExactly(s: string)
    ensures Hex64(s) <==> |s| == 64 && forall i :: 0 <= i < |s| ==> s[i] in "0123456789abcdef"
  {
    forall i | 0 <= i < |s| ensures HexChar(s[i]) <==> s[i] in "0123456789abcdef" {
      var n := s[i] as int;
      if HexChar(s[i]) && n <= 57 {
        assert "0123456789abcdef"[n - 48] as int == n;
      } else if HexChar(s[i]) {
        assert "0123456789abcdef"[n - 87] as int == n;
      }
    }
  }

  lemma {:induction false} HexHasNoColon(s: string)
    requires Hex64(s)
    ensures ':' !in s
  {
  }

  lemma {:induction false} LiveSplit(origin: string, token: string)
    requires Hex64(origin) && Hex64(token)
    ensures Separated.Split(':', Live(origin, token)) == ["python", origin, token]
  {
    hide Hex64, Separated.Split, Separated.Join;
    HexHasNoColon(origin);
    HexHasNoColon(token);
    assert ':' !in "python";
    Separated.SplitJoin(':', ["python", origin, token]);
  }

  lemma {:induction false} DescriptorFields(origin: string, token: string, info: Info)
    ensures var d := Descriptor(origin, token, info);
      NativeShape(d) && Get(Get(Get(d, "v"), "identity"), "live") == Str(Live(origin, token))
  {
    hide Live, Metadata;
    assert "t"[0] == 't' && "v"[0] == 'v';
    assert "stable"[0] == 's' && "live"[0] == 'l';
  }

  lemma {:induction false} DescriptorParts(origin: string, token: string, info: Info)
    requires Hex64(origin) && Hex64(token)
    ensures LiveParts(Descriptor(origin, token, info)) == Some((origin, token))
  {
    hide Descriptor, Get, Live, Hex64, Separated.Split;
    DescriptorFields(origin, token, info);
    LiveSplit(origin, token);
  }

  lemma {:induction false} TextPlain(s: string)
    ensures Plain(TextValue(s))
  {
    var inner := map["utf8" := Str(s), "encoding" := Null];
    assert forall k :: k in inner ==> Plain(inner[k]);
    assert Plain(Obj(inner)) && Plain(Str("text"));
  }

  lemma {:induction false} MetadataPlain(origin: string, info: Info)
    ensures Plain(Metadata(origin, info))
  {
    hide TextValue;
    TextPlain(origin);
    TextPlain("owner-process-until-release");
    TextPlain("same-python-object");
    TextPlain(info.session);
    TextPlain(info.generation);
    TextPlain(info.instance);
  }

  lemma {:induction false} CapsulePlain(origin: string, token: string, info: Info)
    ensures Plain(Capsule(origin, token, info))
  {
    hide Metadata, Live;
    MetadataPlain(origin, info);
    var identity := map["stable" := Null, "live" := Str(Live(origin, token))];
    assert forall k :: k in identity ==> Plain(identity[k]);
    assert Plain(Obj(identity)) && Plain(Arr([]));
  }

  lemma {:induction false} DescriptorPlain(origin: string, token: string, info: Info)
    ensures Plain(Descriptor(origin, token, info))
  {
    hide Capsule;
    CapsulePlain(origin, token, info);
    assert Plain(Str("native"));
  }

  // ---------------------------------------------------------------------- one lookup

  /** An unaltered descriptor of a stored object finds it. */
  lemma {:induction false} LookupFinds<O>(s: Store<O>, token: string, info: Info)
    requires Hex64(s.origin) && Hex64(token) && token in s.entries
    requires s.entries[token].text == Write(Descriptor(s.origin, token, info))
    ensures Lookup(s, Descriptor(s.origin, token, info)) == Ok(Found(token, s.entries[token].value))
  {
    hide Descriptor, Write, Plain, LiveParts, Hex64, NativeShape;
    DescriptorFields(s.origin, token, info);
    DescriptorParts(s.origin, token, info);
    DescriptorPlain(s.origin, token, info);
  }

  /** Whatever finds a stored object is its unaltered descriptor. */
  lemma {:induction false} LookupSound<O>(s: Store<O>, d: Json, origin: string, token: string, info: Info)
    requires Lookup(s, d).Ok? && Lookup(s, d).value.token == token
    requires token in s.entries && s.entries[token].text == Write(Descriptor(origin, token, info))
    ensures d == Descriptor(origin, token, info) && Lookup(s, d).value.value == s.entries[token].value
  {
    hide Descriptor, Write, Plain, LiveParts, NativeShape;
    DescriptorPlain(origin, token, info);
    WriteInjective(d, Descriptor(origin, token, info));
  }

  function Member(d: Json, key: string): Json { Get(Get(d, "v"), key) }

  lemma {:induction false} CapsuleFields(origin: string, token: string, info: Info)
    ensures var d := Descriptor(origin, token, info);
      && Member(d, "implementation") == Str(info.implementation) && Member(d, "version") == Str(info.version)
      && Member(d, "type_name") == Str(info.typeName) && Member(d, "metadata") == Metadata(origin, info)
  {
    hide Live, Metadata;
  }

  lemma {:induction false} CapsuleMarks(origin: string, token: string, info: Info)
    ensures var d := Descriptor(origin, token, info);
      && Member(d, "lang") == Str("python") && Member(d, "codec") == Str("ostadix.python-owner-handle/v1")
      && Member(d, "safety") == Str("live_handle") && Member(d, "rehydrate") == Str("same_process")
  {
    hide Live, Metadata;
  }

  lemma {:induction false} MetadataFields(origin: string, info: Info)
    ensures var m := Metadata(origin, info);
      && Get(m, "session") == TextValue(info.session) && Get(m, "generation") == TextValue(info.generation)
      && Get(m, "instance") == TextValue(info.instance) && Get(m, "owner") == TextValue(origin)
      && Get(m, "lifetime") == TextValue("owner-process-until-release")
      && Get(m, "equivalence") == TextValue("same-python-object")
  {
    hide TextValue;
  }

  /** Everything a descriptor says: whose object it is, under which token, and how it is described. */
  lemma {:induction false} DescriptorSays(origin: string, token: string, info: Info)
    ensures
      var d := Descriptor(origin, token, info);
      && Get(d, "t") == Str("native") && Get(Member(d, "identity"), "live") == Str("python:" + origin + ":" + token)
      && Member(d, "implementation") == Str(info.implementation) && Member(d, "version") == Str(info.version)
      && Member(d, "type_name") == Str(info.typeName)
      && Member(d, "lang") == Str("python") && Member(d, "codec") == Str("ostadix.python-owner-handle/v1")
      && Member(d, "safety") == Str("live_handle") && Member(d, "rehydrate") == Str("same_process")
    ensures
      var m := Member(Descriptor(origin, token, info), "metadata");
      && TextIn(m, "owner", origin) && TextIn(m, "session", info.session)
      && TextIn(m, "generation", info.generation) && TextIn(m, "instance", info.instance)
  {
    hide Descriptor, Metadata, TextValue, Live, Get;
    DescriptorFields(origin, token, info);
    CapsuleFields(origin, token, info);
    CapsuleMarks(origin, token, info);
    MetadataFields(origin, info);
    LiveText(origin, token);
    TextSays(origin);
    TextSays(info.session);
    TextSays(info.generation);
    TextSays(info.instance);
  }

  predicate TextIn(m: Json, key: string, s: string)
  {
    Get(Get(m, key), "t") == Str("text") && Get(Get(Get(m, key), "v"), "utf8") == Str(s)
  }

  lemma {:induction false} TextSays(s: string)
    ensures Get(TextValue(s), "t") == Str("text") && Get(Get(TextValue(s), "v"), "utf8") == Str(s)
  {
  }

  lemma {:induction false} LiveText(origin: string, token: string)
    ensures Live(origin, token) == "python:" + origin + ":" + token
  {
    var parts := ["python", origin, token];
    assert parts[1..] == [origin, token] && [origin, token][1..] == [token];
    assert Separated.Join(':', [token]) == token;
    assert Separated.Join(':', [origin, token]) == origin + ([':'] + token);
    assert "python" + ([':'] + (origin + ([':'] + token))) == "python:" + origin + ":" + token;
  }

  // ------------------------------------------------------------------- refused lookups

  /** The live identity a descriptor claims. */
  predicate Claims(d: Json, origin: string, token: string)
  {
    && Hex64(origin) && Hex64(token)
    && Get(Get(Get(d, "v"), "identity"), "live") == Str("python:" + origin + ":" + token)
  }

  lemma {:induction false} ClaimsExactly(d: Json, origin: string, token: string)
    ensures LiveParts(d) == Some((origin, token)) <==> Claims(d, origin, token)
  {
    hide Get, Hex64, Separated.Split, Separated.Join, Live;
    var live := Get(Get(Get(d, "v"), "identity"), "live");
    LiveText(origin, token);
    if LiveParts(d) == Some((origin, token)) {
      Separated.JoinSplit(':', live.str);
      assert Separated.Split(':', live.str) == ["python", origin, token];
      LiveIs(origin, token);
    }
    if Claims(d, origin, token) { LiveSplit(origin, token); }
  }

  lemma {:induction false} LiveIs(origin: string, token: string)
    ensures Live(origin, token) == Separated.Join(':', ["python", origin, token])
  {
  }

  /** Why a descriptor is refused, check by check. */
  lemma {:induction false} LookupErrors<O>(s: Store<O>, d: Json, origin: string, token: string)
    ensures Lookup(s, d) == Err(NotNative) <==> !(d.Obj? && "t" in d.fields && d.fields["t"] == Str("native"))
    ensures Lookup(s, d) == Err(Malformed) ==> !Claims(d, origin, token)
    ensures NativeShape(d) && (forall o, t :: !Claims(d, o, t)) ==> Lookup(s, d) == Err(Malformed)
    ensures NativeShape(d) && Claims(d, origin, token) ==>
      if origin != s.origin then Lookup(s, d) == Err(OwnerMismatch)
      else if token !in s.entries then Lookup(s, d) == Err(Expired)
      else if !Plain(d) then Lookup(s, d) == Err(NotCanonical)
      else if Write(d) != s.entries[token].text then Lookup(s, d) == Err(Altered)
      else Lookup(s, d) == Ok(Found(token, s.entries[token].value))
  {
    hide Claims, LiveParts, Plain, Write;
    ClaimsExactly(d, origin, token);
    var parts := LiveParts(d);
    if parts.Some? { ClaimsExactly(d, parts.value.0, parts.value.1); }
  }

  lemma {:induction false} TextOne(s: string, t: string)
    requires TextValue(s) == TextValue(t)
    ensures s == t
  {
    assert Get(Get(TextValue(s), "v"), "utf8") == Str(s);
    assert Get(Get(TextValue(t), "v"), "utf8") == Str(t);
  }

  /** One owner's descriptors are equal only for the same token and the same description. */
  lemma {:induction false} DescriptorOne(origin: string, t: string, u: string, a: Info, b: Info)
    requires Hex64(origin) && Hex64(t) && Hex64(u)
    ensures Descriptor(origin, t, a) == Descriptor(origin, u, b) <==> t == u && a == b
  {
    hide Descriptor, LiveParts, Hex64, Metadata, Member, TextValue;
    if Descriptor(origin, t, a) == Descriptor(origin, u, b) {
      DescriptorParts(origin, t, a);
      DescriptorParts(origin, u, b);
      CapsuleFields(origin, t, a);
      CapsuleFields(origin, u, b);
      MetadataFields(origin, a);
      MetadataFields(origin, b);
      TextOne(a.session, b.session);
      TextOne(a.generation, b.generation);
      TextOne(a.instance, b.instance);
    }
  }

  // ----------------------------------------------------------------------- whole runs

  ghost predicate HasToken<O>(ops: seq<Op<O>>, i: nat, token: string)
  {
    i < |ops| && ops[i].Export? && ops[i].token == token
  }

  /** The export at `i` is in the store, with its value and its descriptor's text. */
  ghost predicate Stored<O>(s: Store<O>, ops: seq<Op<O>>, i: nat)
  {
    && i < |ops| && ops[i].Export? && Hex64(ops[i].token) && ops[i].token in s.entries
    && s.entries[ops[i].token] == Entry(ops[i].value, Write(DescriptorOf(s.origin, ops[i])))
  }

  ghost predicate Known<O>(ops: seq<Op<O>>, live: set<nat>,
                           token: string) { exists i :: i in live && HasToken(ops, i, token) }

  ghost predicate Apart<O>(ops: seq<Op<O>>, i: nat, j: nat)
  {
    i < |ops| && j < |ops| && ops[i].Export? && ops[j].Export? && ops[i].token != ops[j].token
  }

  /** The store holds exactly the given exports, under different tokens. */
  ghost predicate Holds<O>(s: Store<O>, ops: seq<Op<O>>, live: set<nat>)
  {
    && (forall i :: i in live ==> Stored(s, ops, i))
    && (forall t :: t in s.entries ==> Known(ops, live, t))
    && (forall i, j :: i in live && j in live && i != j ==> Apart(ops, i, j))
    && |s.entries| == |live| <= s.limit
  }

  lemma {:induction false} KnownIn<O>(ops: seq<Op<O>>, live: set<nat>, token: string) returns (i: nat)
    requires Known(ops, live, token)
    ensures i in live && HasToken(ops, i, token)
  {
    i :| i in live && HasToken(ops, i, token);
  }

  lemma {:induction false} KnownBy<O>(ops: seq<Op<O>>, live: set<nat>, token: string, i: nat)
    requires i in live && HasToken(ops, i, token)
    ensures Known(ops, live, token)
  {
  }

  lemma {:induction false} HoldsExport<O>(s: Store<O>, ops: seq<Op<O>>, live: set<nat>, n: nat)
    requires Holds(s, ops, live) && n < |ops| && ops[n].Export? && (forall i :: i in live ==> i < n)
    requires |s.entries| < s.limit ==> Hex64(ops[n].token) && ops[n].token !in s.entries
    ensures |live| < s.limit ==> Holds(Step(s, ops[n]), ops, live + {n})
    ensures |live| >= s.limit ==> Step(s, ops[n]) == s
  {
    hide Descriptor, Write, Known, Lookup, Stored, Hex64;
    if |live| < s.limit { AddOne(s, ops, live, n); }
  }

  lemma {:induction false} AddOne<O>(s: Store<O>, ops: seq<Op<O>>, live: set<nat>, n: nat)
    requires Holds(s, ops, live) && n < |ops| && ops[n].Export? && (forall i :: i in live ==> i < n)
    requires |live| < s.limit && Hex64(ops[n].token) && ops[n].token !in s.entries
    ensures Holds(Step(s, ops[n]), ops, live + {n})
  {
    hide Descriptor, Write, Known, Lookup, Stored, Hex64, Apart;
    var op, next, s' := ops[n], live + {n}, Step(s, ops[n]);
    forall i | i in next ensures Stored(s', ops, i) { StaysStored(s, ops, n, i); }
    forall t | t in s'.entries ensures Known(ops, next, t) { StaysKnown(ops, live, n, t, op.token); }
    forall i, j | i in next && j in next && i != j ensures Apart(ops, i, j) { StaysApart(s, ops, live, n, i, j); }
    OneMoreEntry(s.entries, op.token, s'.entries[op.token]);
  }

  lemma {:induction false} OneMoreEntry<O>(m: map<string, Entry<O>>, k: string, v: Entry<O>)
    requires k !in m
    ensures |m[k := v]| == |m| + 1
  {
    assert m[k := v].Keys == m.Keys + {k};
    assert |m[k := v]| == |m[k := v].Keys| == |m.Keys| + 1;
  }

  lemma {:induction false} StaysApart<O>(s: Store<O>, ops: seq<Op<O>>, live: set<nat>, n: nat, i: nat, j: nat)
    requires Holds(s, ops, live) && n < |ops| && ops[n].Export? && ops[n].token !in s.entries
    requires i in live + {n} && j in live + {n} && i != j
    ensures Apart(ops, i, j)
  {
    hide Apart, Stored, Known;
    if j == n { NewApart(s, ops, n, i); }
    if i == n { NewApart(s, ops, n, j); }
  }

  lemma {:induction false} StaysKnown<O>(ops: seq<Op<O>>, live: set<nat>, n: nat, t: string, token: string)
    requires HasToken(ops, n, token) && (t == token || Known(ops, live, t))
    ensures Known(ops, live + {n}, t)
  {
    var i := n;
    if t != token { i := KnownIn(ops, live, t); }
    KnownBy(ops, live + {n}, t, i);
  }

  lemma {:induction false} NewApart<O>(s: Store<O>, ops: seq<Op<O>>, n: nat, i: nat)
    requires n < |ops| && ops[n].Export? && ops[n].token !in s.entries && Stored(s, ops, i)
    ensures Apart(ops, i, n) && Apart(ops, n, i)
  {
    hide Descriptor, Write, Hex64;
  }

  lemma {:induction false} StaysStored<O>(s: Store<O>, ops: seq<Op<O>>, n: nat, i: nat)
    requires n < |ops| && ops[n].Export? && Hex64(ops[n].token) && ops[n].token !in s.entries
    requires |s.entries| < s.limit && (i == n || Stored(s, ops, i))
    ensures Stored(Step(s, ops[n]), ops, i)
  {
    hide Descriptor, Write, Lookup, Hex64;
  }

  /** Which standing export a descriptor names: the one its lookup finds, or none. */
  lemma {:induction false} LookupNames<O>(s: Store<O>, ops: seq<Op<O>>, live: set<nat>, d: Json, i: nat)
    requires Holds(s, ops, live) && Hex64(s.origin) && i in live
    ensures i < |ops| && ops[i].Export?
    ensures DescriptorOf(s.origin, ops[i]) == d <==> Lookup(s, d).Ok? && Lookup(s, d).value.token == ops[i].token
    ensures DescriptorOf(s.origin, ops[i]) == d ==> Lookup(s, d) == Ok(Found(ops[i].token, ops[i].value))
  {
    hide Descriptor, Write, Lookup, Known, Hex64, Apart;
    assert Stored(s, ops, i);
    LookupFinds(s, ops[i].token, ops[i].info);
    if Lookup(s, d).Ok? && Lookup(s, d).value.token == ops[i].token {
      LookupSound(s, d, s.origin, ops[i].token, ops[i].info);
    }
  }

  lemma {:induction false} FoundStored<O>(s: Store<O>, d: Json)
    requires Lookup(s, d).Ok?
    ensures Lookup(s, d).value.token in s.entries
  {
    hide Write, Plain, LiveParts, NativeShape;
  }

  function Others<O>(origin: string, ops: seq<Op<O>>, live: set<nat>, d: Json): set<nat>
  {
    set i | i in live && (i < |ops| && ops[i].Export? ==> DescriptorOf(origin, ops[i]) != d)
  }

  /** A descriptor that finds an export names that one only. */
  lemma {:induction false} NamesOne<O>(s: Store<O>, ops: seq<Op<O>>, live: set<nat>, d: Json, r: nat)
    requires Holds(s, ops, live) && Hex64(s.origin)
    requires Lookup(s, d).Ok? && r in live && HasToken(ops, r, Lookup(s, d).value.token)
    ensures Others(s.origin, ops, live, d) == live - {r}
  {
    hide Descriptor, Hex64, Lookup, Stored, Known;
    forall i | i in live ensures i in Others(s.origin, ops, live, d) <==> i != r {
      LookupNames(s, ops, live, d, i);
      if i != r { assert Apart(ops, i, r); }
    }
  }

  lemma {:induction false} NamesNone<O>(s: Store<O>, ops: seq<Op<O>>, live: set<nat>, d: Json)
    requires Holds(s, ops, live) && Hex64(s.origin) && Lookup(s, d).Err?
    ensures Others(s.origin, ops, live, d) == live
  {
    hide Descriptor, Hex64, Lookup, Holds;
    forall i | i in live ensures i in Others(s.origin, ops, live, d) { LookupNames(s, ops, live, d, i); }
  }

  /** A release removes the export it names, and no other. */
  lemma {:induction false} HoldsRelease<O>(s: Store<O>, ops: seq<Op<O>>, live: set<nat>, d: Json)
    requires Holds(s, ops, live) && Hex64(s.origin)
    ensures Holds(Step(s, Release(d)), ops, Others(s.origin, ops, live, d))
  {
    hide Hex64, Lookup, Others, Holds;
    if Lookup(s, d).Ok? {
      var token := Lookup(s, d).value.token;
      FoundStored(s, d);
      var r := HoldsKnown(s, ops, live, token);
      NamesOne(s, ops, live, d, r);
      RemoveOne(s, ops, live, r);
    } else {
      NamesNone(s, ops, live, d);
    }
  }

  lemma {:induction false} HoldsKnown<O>(s: Store<O>, ops: seq<Op<O>>, live: set<nat>, token: string) returns (i: nat)
    requires Holds(s, ops, live) && token in s.entries
    ensures i in live && HasToken(ops, i, token)
  {
    hide Stored, Known, Apart;
    i := KnownIn(ops, live, token);
  }

  lemma {:induction false} RemoveOne<O>(s: Store<O>, ops: seq<Op<O>>, live: set<nat>, r: nat)
    requires Holds(s, ops, live) && r in live && r < |ops| && ops[r].Export?
    ensures Holds(s.(entries := s.entries - {ops[r].token}), ops, live - {r})
  {
    hide Descriptor, Write, Known, Hex64;
    var token := ops[r].token;
    var s' := s.(entries := s.entries - {token});
    assert Stored(s, ops, r);
    assert s'.entries.Keys == s.entries.Keys - {token};
    assert |s'.entries| == |s'.entries.Keys| == |s.entries.Keys| - 1;
    forall i | i in live - {r} ensures Stored(s', ops, i) {
      assert Stored(s, ops, i) && Apart(ops, i, r);
    }
    forall t | t in s'.entries ensures Known(ops, live - {r}, t) {
      var i := KnownIn(ops, live, t);
      KnownBy(ops, live - {r}, t, i);
    }
  }

  lemma {:induction false} RunStep<O>(origin: string, limit: nat, ops: seq<Op<O>>, n: nat)
    requires n < |ops|
    ensures Run(origin, limit, ops[..n + 1]) == Step(Run(origin, limit, ops[..n]), ops[n])
  {
    hide Step;
    assert ops[..n + 1][..n] == ops[..n];
  }

  /** Which exports stand after one more request. */
  ghost predicate Next<O>(origin: string, limit: nat, ops: seq<Op<O>>, live: set<nat>, n: nat, next: set<nat>)
    requires n < |ops|
  {
    match ops[n]
    case Export(_, _, _) => next == if |live| < limit then live + {n} else live
    case Release(d) => next == Others(origin, ops, live, d)
    case Clear => next == {}
  }

  lemma {:induction false} StandingStep<O>(origin: string, limit: nat, ops: seq<Op<O>>, n: nat)
    requires n < |ops|
    ensures Next(origin, limit, ops, Standing(origin, limit, ops[..n]), n, Standing(origin, limit, ops[..n + 1]))
    ensures forall i :: i in Standing(origin, limit, ops[..n]) ==> i < n
  {
    hide Descriptor, Others, Standing;
    StandingNow(origin, limit, ops[..n + 1]);
    var live := Standing(origin, limit, ops[..n]);
    assert ops[..n + 1][..n] == ops[..n] && ops[..n + 1][n] == ops[n];
    OthersLonger(origin, ops, n, live, if ops[n].Release? then ops[n].descriptor else Null);
  }

  lemma {:induction false} StandingNow<O>(origin: string, limit: nat, ops: seq<Op<O>>)
    requires ops != []
    ensures Next(origin, limit, ops, Standing(origin, limit, ops[..|ops| - 1]), |ops| - 1, Standing(origin, limit, ops))
  {
    hide Descriptor;
    var n := |ops| - 1;
    var live := Standing(origin, limit, ops[..n]);
    assert forall i :: i in live ==> ops[i] == ops[..n][i];
  }

  lemma {:induction false} OthersLonger<O>(origin: string, ops: seq<Op<O>>, n: nat, live: set<nat>, d: Json)
    requires n < |ops| && forall i :: i in live ==> i < n
    ensures Others(origin, ops[..n + 1], live, d) == Others(origin, ops, live, d)
  {
    hide Descriptor;
    assert forall i :: 0 <= i < n ==> ops[..n + 1][i] == ops[i];
  }

  lemma {:induction false} HoldsStep<O>(s: Store<O>, ops: seq<Op<O>>, live: set<nat>, n: nat, next: set<nat>)
    requires Holds(s, ops, live) && Hex64(s.origin) && n < |ops| && (forall i :: i in live ==> i < n)
    requires ops[n].Export? && |s.entries| < s.limit ==> Hex64(ops[n].token) && ops[n].token !in s.entries
    requires Next(s.origin, s.limit, ops, live, n, next)
    ensures Holds(Step(s, ops[n]), ops, next)
  {
    hide Hex64, Holds, Step, Others;
    match ops[n] {
      case Export(_, _, _) => HoldsExport(s, ops, live, n);
      case Release(d) => HoldsRelease(s, ops, live, d);
      case Clear => ClearHolds(s, ops);
    }
  }

  /** After any run the store holds exactly the exports still standing, and no more than the limit. */
  lemma {:induction false} RunHolds<O>(origin: string, limit: nat, ops: seq<Op<O>>, n: nat)
    requires FreshDraws(origin, limit, ops) && Hex64(origin) && n <= |ops|
    ensures Holds(Run(origin, limit, ops[..n]), ops, Standing(origin, limit, ops[..n]))
  {
    hide *;
    if n == 0 {
      StartHolds(origin, limit, ops);
    } else {
      RunHolds(origin, limit, ops, n - 1);
      RunStep(origin, limit, ops, n - 1);
      StandingStep(origin, limit, ops, n - 1);
      FreshAt(origin, limit, ops, n - 1);
      HoldsStep(Run(origin, limit, ops[..n - 1]), ops, Standing(origin, limit, ops[..n - 1]), n - 1,
                Standing(origin, limit, ops[..n]));
    }
  }

  lemma {:induction false} FreshAt<O>(origin: string, limit: nat, ops: seq<Op<O>>, n: nat)
    requires FreshDraws(origin, limit, ops) && n < |ops|
    ensures var s := Run(origin, limit, ops[..n]);
      ops[n].Export? && |s.entries| < limit ==> Hex64(ops[n].token) && ops[n].token !in s.entries
  {
    hide Hex64, Run;
    assert DrawnFree(origin, limit, ops, n);
  }

  lemma {:induction false} StartHolds<O>(origin: string, limit: nat, ops: seq<Op<O>>)
    ensures Holds(Run(origin, limit, ops[..0]), ops, Standing(origin, limit, ops[..0]))
  {
    hide Step;
    HoldsNothing(Run(origin, limit, ops[..0]), ops);
  }

  lemma {:induction false} ClearHolds<O>(s: Store<O>, ops: seq<Op<O>>)
    ensures Holds(Step(s, Clear), ops, {})
  {
    hide Lookup, Write;
    HoldsNothing(s, ops);
  }

  lemma {:induction false} HoldsNothing<O>(s: Store<O>, ops: seq<Op<O>>)
    ensures Holds(s.(entries := map[]), ops, {})
  {
  }

  /** A descriptor resolves exactly when it is the unaltered descriptor of an export still standing, and
      then to that export's object; the store never holds more than its limit. */
  lemma {:induction false} ResolveExactly<O>(origin: string, limit: nat, ops: seq<Op<O>>, d: Json)
    requires FreshDraws(origin, limit, ops) && Hex64(origin)
    ensures var s, live := Run(origin, limit, ops), Standing(origin, limit, ops);
      && (Lookup(s, d).Ok? <==> exists i :: i in live && DescriptorOf(origin, ops[i]) == d)
      && (forall i :: i in live && DescriptorOf(origin, ops[i]) == d ==>
          Lookup(s, d) == Ok(Found(ops[i].token, ops[i].value)))
      && |s.entries| == |live| <= limit
  {
    hide Descriptor, Hex64, FreshDraws, Step, Run, Standing, Lookup, Stored, Known, Others, Apart;
    RunHolds(origin, limit, ops, |ops|);
    assert ops[..|ops|] == ops;
    var s, live := Run(origin, limit, ops), Standing(origin, limit, ops);
    forall i | i in live && DescriptorOf(origin, ops[i]) == d
      ensures Lookup(s, d) == Ok(Found(ops[i].token, ops[i].value))
    {
      LookupNames(s, ops, live, d, i);
    }
    if Lookup(s, d).Ok? {
      FoundStored(s, d);
      var r := HoldsKnown(s, ops, live, Lookup(s, d).value.token);
      LookupNames(s, ops, live, d, r);
    }
  }

  /** An export stands exactly when it was admitted and nothing since has cleared the store or released it. */
  lemma {:induction false} StandsUntil<O>(origin: string, limit: nat, ops: seq<Op<O>>, i: nat, n: nat)
    requires i < n <= |ops| && ops[i].Export?
    ensures i in Standing(origin, limit, ops[..n]) <==>
      && |Standing(origin, limit, ops[..i])| < limit
      && forall j :: i < j < n ==> !ops[j].Clear? && ops[j] != Release(DescriptorOf(origin, ops[i]))
  {
    hide Descriptor, Standing, Next;
    StandingStep(origin, limit, ops, n - 1);
    StandsNext(origin, limit, ops, Standing(origin, limit, ops[..n - 1]), n - 1, Standing(origin, limit, ops[..n]), i);
    if i < n - 1 { StandsUntil(origin, limit, ops, i, n - 1); }
  }

  lemma {:induction false} StandsNext<O>(origin: string, limit: nat, ops: seq<Op<O>>, live: set<nat>, n: nat,
                                         next: set<nat>, i: nat)
    requires i <= n < |ops| && ops[i].Export? && (forall k :: k in live ==> k < n)
    requires Next(origin, limit, ops, live, n, next)
    ensures i == n ==> (i in next <==> |live| < limit)
    ensures i < n ==> (i in next <==> i in live && !ops[n].Clear? && ops[n] != Release(DescriptorOf(origin, ops[i])))
  {
    hide Descriptor;
  }

  /** Releasing one export leaves every other standing as it was. */
  lemma {:induction false} ReleaseOne<O>(origin: string, limit: nat, ops: seq<Op<O>>, i: nat)
    requires FreshDraws(origin, limit, ops) && Hex64(origin) && i in Standing(origin, limit, ops)
    ensures Standing(origin, limit, ops + [Release(DescriptorOf(origin, ops[i]))]) == Standing(origin, limit, ops) - {i}
  {
    hide Descriptor, Standing, Hex64, FreshDraws, Known, Holds;
    var d, live := DescriptorOf(origin, ops[i]), Standing(origin, limit, ops);
    var all := ops + [Release(d)];
    assert all[..|ops|] == ops && all[..|all|] == all && ops[..|ops|] == ops;
    RunHolds(origin, limit, ops, |ops|);
    StandingStep(origin, limit, all, |ops|);
    forall j | j in live ensures j in Others(origin, all, live, d) <==> j != i {
      assert all[j] == ops[j];
      if j != i {
        HoldsApart(Run(origin, limit, ops), ops, live, i, j);
        DescriptorOne(origin, ops[i].token, ops[j].token, ops[i].info, ops[j].info);
      }
    }
  }

  lemma {:induction false} HoldsApart<O>(s: Store<O>, ops: seq<Op<O>>, live: set<nat>, i: nat, j: nat)
    requires Holds(s, ops, live) && i in live && j in live && i != j
    ensures i < |ops| && j < |ops| && ops[i].Export? && ops[j].Export?
    ensures ops[i].token != ops[j].token && Hex64(ops[i].token) && Hex64(ops[j].token)
  {
    hide Known, Hex64, Descriptor, Write;
    assert Stored(s, ops, i) && Stored(s, ops, j) && Apart(ops, i, j);
  }

  lemma {:induction false} HoldsStored<O>(s: Store<O>, ops: seq<Op<O>>, live: set<nat>, i: nat)
    requires Holds(s, ops, live) && i in live
    ensures i < |ops| && ops[i].Export? && Hex64(ops[i].token) && ops[i].token in s.entries
  {
    hide Known, Hex64, Descriptor, Write, Apart;
    assert Stored(s, ops, i);
  }

  /** An export that stands now was standing at every earlier point after it was made, so a
      later export that was admitted drew another token. */
  lemma {:induction false} LaterDraw<O>(origin: string, limit: nat, ops: seq<Op<O>>, i: nat, j: nat)
    requires FreshDraws(origin, limit, ops) && Hex64(origin)
    requires j < i < |ops| && ops[i].Export? && |Standing(origin, limit, ops[..i])| < limit
    requires j in Standing(origin, limit, ops)
    ensures ops[i].token != ops[j].token
  {
    hide Hex64, Standing, Run, Holds, Descriptor;
    assert ops[..|ops|] == ops;
    StandsUntil(origin, limit, ops, j, |ops|);
    StandsUntil(origin, limit, ops, j, i);
    RunHolds(origin, limit, ops, i);
    var s, live := Run(origin, limit, ops[..i]), Standing(origin, limit, ops[..i]);
    HoldsStored(s, ops, live, j);
    HoldsSize(s, ops, live);
    FreshAt(origin, limit, ops, i);
  }

  lemma {:induction false} HoldsSize<O>(s: Store<O>, ops: seq<Op<O>>, live: set<nat>)
    requires Holds(s, ops, live)
    ensures |s.entries| == |live|
  {
  }

  /** A descriptor whose export no longer stands resolves again exactly when a later export
      that still stands drew the same token for an object described alike, and then to that
      object. */
  lemma {:induction false} RevivedExactly<O>(origin: string, limit: nat, ops: seq<Op<O>>, i: nat)
    requires FreshDraws(origin, limit, ops) && Hex64(origin)
    requires i < |ops| && ops[i].Export? && |Standing(origin, limit, ops[..i])| < limit
    requires i !in Standing(origin, limit, ops)
    ensures var s, live, d := Run(origin, limit, ops), Standing(origin, limit, ops), DescriptorOf(origin, ops[i]);
      && (Lookup(s, d).Ok? <==>
          exists j :: i < j && j in live && ops[j].token == ops[i].token && ops[j].info == ops[i].info)
      && (forall j :: j in live && ops[j].token == ops[i].token && ops[j].info == ops[i].info ==>
            Lookup(s, d) == Ok(Found(ops[j].token, ops[j].value)))
  {
    hide Descriptor, Hex64, Lookup, Run, Standing, Step, Write, Holds;
    var s, live, d := Run(origin, limit, ops), Standing(origin, limit, ops), DescriptorOf(origin, ops[i]);
    ResolveExactly(origin, limit, ops, d);
    RunHolds(origin, limit, ops, i);
    HoldsSize(Run(origin, limit, ops[..i]), ops, Standing(origin, limit, ops[..i]));
    FreshAt(origin, limit, ops, i);
    RunHolds(origin, limit, ops, |ops|);
    assert ops[..|ops|] == ops;
    if Lookup(s, d).Ok? {
      var j :| j in live && DescriptorOf(origin, ops[j]) == d;
      HoldsStored(s, ops, live, j);
      DescriptorOne(origin, ops[j].token, ops[i].token, ops[j].info, ops[i].info);
      if j < i { LaterDraw(origin, limit, ops, i, j); }
    }
  }

  /** The shortest such run: the token of a released descriptor is drawn again, and the descriptor
      comes back to life for another object. */
  lemma {:induction false} RepeatedTokenRevives<O>(origin: string, limit: nat, token: string, info: Info, first: O,
                                                   second: O)
    requires Hex64(origin) && Hex64(token) && limit > 0
    ensures var d := Descriptor(origin, token, info);
      var ops := [Export(first, info, token), Release(d), Export(second, info, token)];
      Lookup(Run(origin, limit, ops[..2]), d).Err? && Lookup(Run(origin, limit, ops), d) == Ok(Found(token, second))
  {
    hide Descriptor, Write, Lookup, Hex64;
    var d := Descriptor(origin, token, info);
    var ops := [Export(first, info, token), Release(d), Export(second, info, token)];
    assert ops[..1][..0] == [] && ops[..2][..1] == ops[..1] && ops[..2] + [ops[2]] == ops && ops[..3] == ops;
    RunStep(origin, limit, ops, 0);
    RunStep(origin, limit, ops, 1);
    RunStep(origin, limit, ops, 2);
    var s1, s2, s3 := Run(origin, limit, ops[..1]), Run(origin, limit, ops[..2]), Run(origin, limit, ops);
    assert ops[..0] == [] && Run(origin, limit, ops[..0]).entries == map[];
    assert s1.entries == map[token := Entry(first, Write(d))];
    LookupFinds(s1, token, info);
    assert s2.entries == map[];
    NothingFound(s2, d);
    assert s3.entries == map[token := Entry(second, Write(d))];
    LookupFinds(s3, token, info);
  }

  lemma {:induction false} NothingFound<O>(s: Store<O>, d: Json)
    requires s.entries == map[]
    ensures Lookup(s, d).Err?
  {
    hide Write, Plain, LiveParts, NativeShape;
  }
}
