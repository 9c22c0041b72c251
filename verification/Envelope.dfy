/** The checkpoint envelope: `make_checkpoint`, `validate_checkpoint` and the digests of
    backends/o_shim_common.py. SHA-256 is a parameter, a function from bytes to text. */
module Envelope {
  import opened Wrappers
  import opened Ordering
  import opened Cbor
  import opened CborTheorems
  import Wire

  const SCHEMA := "ostadix.backend-checkpoint/v1"
  const PROTOCOL := "ostadix.backend-state/v1"

  type Digest = seq<byte> -> string

  // ------------------------------------------------------------- dict access

  /** `value.get(key)` on a dict. */
  function Lookup(es: seq<Entry>, key: string): Option<Value>
  {
    if es == [] then None else if es[0].key == key then Some(es[0].value) else Lookup(es[1..], key)
  }

  function Field(v: Value, key: string): Option<Value>
  {
    if v.Map? then Lookup(v.entries, key) else None
  }

  predicate IsText(v: Option<Value>, s: string) { v == Some(Text(s)) }

  predicate NonEmptyText(v: Option<Value>) { v.Some? && v.value.Text? && v.value.s != "" }

  lemma {:induction false} LookupAt(es: seq<Entry>, i: nat)
    requires Distinct(es) && i < |es|
    ensures Lookup(es, es[i].key) == Some(es[i].value)
  {
    if i > 0 { LookupAt(es[1..], i - 1); }
  }

  lemma {:induction false} LookupFound(es: seq<Entry>, key: string) returns (i: nat)
    requires Lookup(es, key).Some?
    ensures i < |es| && es[i] == Entry(key, Lookup(es, key).value)
  {
    if es[0].key == key {
      i := 0;
    } else {
      i := LookupFound(es[1..], key);
      i := i + 1;
    }
  }

  /** Looking a key up does not depend on the order of the entries. */
  lemma {:induction false} LookupPermutation(es: seq<Entry>, fs: seq<Entry>, key: string)
    requires Distinct(es) && Distinct(fs) && multiset(es) == multiset(fs)
    ensures Lookup(es, key) == Lookup(fs, key)
  {
    if Lookup(es, key).Some? {
      var i := LookupFound(es, key);
      assert es[i] in multiset(fs);
      var j :| 0 <= j < |fs| && fs[j] == es[i];
      LookupAt(fs, j);
    } else if Lookup(fs, key).Some? {
      var i := LookupFound(fs, key);
      assert fs[i] in multiset(es);
      var j :| 0 <= j < |es| && es[j] == fs[i];
      LookupAt(es, j);
    }
  }

  lemma {:induction false} LookupNorm(es: seq<Entry>, key: string)
    ensures Lookup(NormEntries(es), key)
         == (if Lookup(es, key).None? then None else Some(Norm(Lookup(es, key).value)))
  {
    hide Norm;
    if es != [] {
      LookupNorm(es[1..], key);
      assert NormEntries(es)[1..] == NormEntries(es[1..]);
    }
  }

  /** A reader finds under each key what the writer put there. */
  lemma {:induction false} FieldNorm(v: Value, key: string)
    requires InRange(v)
    ensures Field(Norm(v), key) == (if Field(v, key).None? then None else Some(Norm(Field(v, key).value)))
  {
    if v.Map? {
      NormKeepsKeys(v.entries);
      LookupPermutation(NormEntries(v.entries), Sort(NormEntries(v.entries), EntryKey), key);
      LookupNorm(v.entries, key);
      hide NormEntries, Sort;
    }
  }

  lemma {:induction false} FieldInRange(v: Value, key: string)
    requires InRange(v) && Field(v, key).Some?
    ensures InRange(Field(v, key).value)
    ensures BytesFree(v) ==> BytesFree(Field(v, key).value)
  {
    var i := LookupFound(v.entries, key);
  }

  // -------------------------------------------------------------- validation

  predicate IsHex(c: char) { '0' <= c <= '9' || 'a' <= c <= 'f' || 'A' <= c <= 'F' }

  predicate IsSha256(v: Option<Value>)
  {
    v.Some? && v.value.Text? && |v.value.s| == 64 && forall i :: 0 <= i < 64 ==> IsHex(v.value.s[i])
  }

  function Lower(s: string): string
  {
    seq(|s|, i requires 0 <= i < |s| => if 'A' <= s[i] <= 'Z' then s[i] + ' ' else s[i])
  }

  const REQUIRED := {
    "schema", "protocol", "backend", "tier", "codec", "runtime_binding_sha256", "payload", "payload_sha256"
  }
  const RESOURCES := "external_resources"

  predicate KeysAllowed(es: seq<Entry>)
  {
    && (forall i :: 0 <= i < |es| ==> es[i].key in REQUIRED || es[i].key == RESOURCES)
    && (forall k :: k in REQUIRED ==> Lookup(es, k).Some?)
  }

  predicate CompleteResource(v: Value)
  {
    v.Map? && NonEmptyText(Field(v, "kind")) && NonEmptyText(Field(v, "identity")) && NonEmptyText(Field(v, "recovery"))
  }

  predicate ResourcesFit(resources: Value, pinned: bool)
  {
    && resources.List?
    && (forall i :: 0 <= i < |resources.items| ==> CompleteResource(resources.items[i]))
    && (pinned <==> resources.items != [])
  }

  /** `payload_sha256` and `checkpoint_sha256`; nothing when the value cannot be encoded. */
  function DigestOf(sha: Digest, v: Value): Option<string> { if InRange(v) then Some(sha(Encode(v))) else None }

  /** `validate_checkpoint`, as the condition under which it raises nothing. */
  predicate Validates(sha: Digest, c: Value)
  {
    && c.Map? && KeysAllowed(c.entries)
    && IsText(Field(c, "schema"), SCHEMA) && IsText(Field(c, "protocol"), PROTOCOL)
    && (IsText(Field(c, "tier"), "stateless") || IsText(Field(c, "tier"), "semantic_snapshot")
        || IsText(Field(c, "tier"), "external_pinned"))
    && NonEmptyText(Field(c, "backend")) && NonEmptyText(Field(c, "codec"))
    && IsSha256(Field(c, "runtime_binding_sha256")) && IsSha256(Field(c, "payload_sha256"))
    && Field(c, "payload").Some?
    && DigestOf(sha, Field(c, "payload").value) == Some(Lower(Field(c, "payload_sha256").value.s))
    && ResourcesFit(if Field(c, RESOURCES).Some? then Field(c, RESOURCES).value else List([]),
                    IsText(Field(c, "tier"), "external_pinned"))
  }

  /** `make_checkpoint`. */
  function MakeCheckpoint(sha: Digest, backend: string, tier: string, codec: string, payload: Value,
                          resources: seq<Value>, binding: string): Option<Value>
  {
    if !InRange(payload) then None
    else
      var c := Map([
        Entry("schema", Text(SCHEMA)), Entry("protocol", Text(PROTOCOL)), Entry("backend", Text(backend)),
        Entry("tier", Text(tier)), Entry("codec", Text(codec)), Entry("runtime_binding_sha256", Text(binding)),
        Entry("payload", payload), Entry("payload_sha256", Text(sha(Encode(payload))))
      ] + if resources == [] then [] else [Entry(RESOURCES, List(resources))]);
      if Validates(sha, c) then Some(c) else None
  }

  // ------------------------------------------------------ crossing the wire

  lemma {:induction false} TextNorm(v: Value, key: string, s: string)
    requires InRange(v)
    ensures IsText(Field(Norm(v), key), s) <==> IsText(Field(v, key), s)
    ensures NonEmptyText(Field(Norm(v), key)) <==> NonEmptyText(Field(v, key))
    ensures IsSha256(Field(Norm(v), key)) <==> IsSha256(Field(v, key))
    ensures IsSha256(Field(v, key)) ==> Field(Norm(v), key) == Field(v, key)
  {
    hide Field, NormItems, NormEntries, Sort;
    FieldNorm(v, key);
  }

  lemma {:induction false} ResourceNorm(v: Value)
    requires InRange(v)
    ensures CompleteResource(Norm(v)) <==> CompleteResource(v)
  {
    TextNorm(v, "kind", "");
    TextNorm(v, "identity", "");
    TextNorm(v, "recovery", "");
    hide Field, NonEmptyText;
  }

  lemma {:induction false} ResourcesNorm(v: Value, pinned: bool)
    requires InRange(v) && !v.Bytes?
    ensures ResourcesFit(Norm(v), pinned) <==> ResourcesFit(v, pinned)
  {
    hide CompleteResource;
    if v.List? {
      forall i | 0 <= i < |v.items| ensures CompleteResource(Norm(v).items[i]) <==> CompleteResource(v.items[i]) {
        ResourceNorm(v.items[i]);
      }
    }
  }

  lemma {:induction false} KeysNorm(es: seq<Entry>)
    requires InRange(Map(es))
    ensures KeysAllowed(Norm(Map(es)).entries) <==> KeysAllowed(es)
  {
    var fs := Norm(Map(es)).entries;
    forall k ensures Lookup(fs, k).Some? <==> Lookup(es, k).Some? { FieldNorm(Map(es), k); }
    KeysOnly(es);
    KeysOnly(fs);
    NormKeepsKeys(es);
  }

  /** In a dict the keys present are the keys that can be looked up. */
  lemma {:induction false} KeysOnly(es: seq<Entry>)
    ensures (forall i :: 0 <= i < |es| ==> es[i].key in REQUIRED || es[i].key == RESOURCES)
       <==> (forall k :: Lookup(es, k).Some? ==> k in REQUIRED || k == RESOURCES)
  {
    forall i | 0 <= i < |es| ensures Lookup(es, es[i].key).Some? { LookupPresent(es, i); }
    forall k | Lookup(es, k).Some? ensures exists i :: 0 <= i < |es| && es[i].key == k {
      var i := LookupFound(es, k);
    }
  }

  lemma {:induction false} LookupPresent(es: seq<Entry>, i: nat)
    requires i < |es|
    ensures Lookup(es, es[i].key).Some?
  {
    if i > 0 { LookupPresent(es[1..], i - 1); }
  }

  /** A checkpoint without byte strings validates where it arrives exactly when it validates
      where it was made, with the same payload digest and the same checkpoint digest. */
  lemma {:induction false} ValidatesAcrossWire(sha: Digest, c: Value)
    requires InRange(c) && BytesFree(c)
    ensures Validates(sha, Norm(c)) <==> Validates(sha, c)
    ensures DigestOf(sha, Norm(c)) == DigestOf(sha, c)
    ensures Field(c, "payload").Some? ==>
      Field(Norm(c), "payload").Some?
      && DigestOf(sha, Field(Norm(c), "payload").value) == DigestOf(sha, Field(c, "payload").value)
  {
    hide Norm, Encode, InRange, BytesFree, Field, IsSha256, NonEmptyText, KeysAllowed, ResourcesFit, Lower;
    DigestKept(sha, c);
    PayloadNorm(sha, c);
    HeaderNorm(c);
    if c.Map? {
      KeysNorm(c.entries);
      if Field(c, RESOURCES).Some? { FieldInRange(c, RESOURCES); BytesNotFree(Field(c, RESOURCES).value); }
      ResourcesFieldNorm(c, IsText(Field(c, "tier"), "external_pinned"));
    }
    assert Norm(c).Map? <==> c.Map? by { NormShape(c); }
  }

  lemma {:induction false} BytesNotFree(v: Value)
    ensures BytesFree(v) ==> !v.Bytes?
  {
  }

  /** The digest does not take a value and what a reader holds of it for one another. */
  ghost predicate NoCollision(sha: Digest, v: Value)
  {
    sha(Encode(Norm(v))) == sha(Encode(v)) ==> Encode(Norm(v)) == Encode(v)
  }

  /** The digest of a value survives the wire when the value has no byte string in it, and
      only then. */
  lemma {:induction false} DigestKept(sha: Digest, v: Value)
    requires InRange(v)
    ensures BytesFree(v) ==> DigestOf(sha, Norm(v)) == DigestOf(sha, v)
    ensures NoCollision(sha, v) ==> (DigestOf(sha, Norm(v)) == DigestOf(sha, v) <==> BytesFree(v))
  {
    hide Norm, Encode, InRange, BytesFree;
    InRangeNorm(v);
    ReencodedExactly(v);
  }

  /** A checkpoint that validates where it was made validates where it arrives exactly when
      the recomputed payload digest is unchanged, so exactly when the payload has no byte
      string in it; the digest of the whole checkpoint depends on all of it in the same way. */
  lemma {:induction false} ValidArrivesExactly(sha: Digest, c: Value)
    requires InRange(c) && Validates(sha, c)
    ensures
      var p := Field(c, "payload").value;
      && (BytesFree(p) ==> Validates(sha, Norm(c)))
      && (NoCollision(sha, p) ==> (Validates(sha, Norm(c)) <==> BytesFree(p)))
    ensures BytesFree(c) ==> DigestOf(sha, Norm(c)) == DigestOf(sha, c)
    ensures NoCollision(sha, c) ==> (DigestOf(sha, Norm(c)) == DigestOf(sha, c) <==> BytesFree(c))
  {
    hide Norm, Encode, InRange, BytesFree, Field, IsSha256, NonEmptyText, KeysAllowed, Lower, CompleteResource,
         NoCollision;
    DigestKept(sha, c);
    FieldInRange(c, "payload");
    FieldNorm(c, "payload");
    DigestKept(sha, Field(c, "payload").value);
    HeaderNorm(c);
    KeysNorm(c.entries);
    ResourcesFieldNorm(c, IsText(Field(c, "tier"), "external_pinned"));
    NormShape(c);
  }

  lemma {:induction false} NormShape(v: Value)
    ensures Norm(v).Map? <==> v.Map?
  {
  }

  lemma {:induction false} PayloadNorm(sha: Digest, c: Value)
    requires InRange(c) && BytesFree(c)
    ensures Field(Norm(c), "payload").Some? <==> Field(c, "payload").Some?
    ensures Field(c, "payload").Some? ==>
      DigestOf(sha, Field(Norm(c), "payload").value) == DigestOf(sha, Field(c, "payload").value)
  {
    hide Norm, Encode, InRange, BytesFree, Field;
    FieldNorm(c, "payload");
    if Field(c, "payload").Some? {
      FieldInRange(c, "payload");
      EncodeNorm(Field(c, "payload").value);
      InRangeNorm(Field(c, "payload").value);
    }
  }

  lemma {:induction false} ResourcesFieldNorm(c: Value, pinned: bool)
    requires InRange(c) && (Field(c, RESOURCES).Some? ==> !Field(c, RESOURCES).value.Bytes?)
    ensures ResourcesFit(if Field(Norm(c), RESOURCES).Some? then Field(Norm(c), RESOURCES).value else List([]), pinned)
       <==> ResourcesFit(if Field(c, RESOURCES).Some? then Field(c, RESOURCES).value else List([]), pinned)
  {
    hide Norm, InRange, Field, ResourcesFit;
    FieldNorm(c, RESOURCES);
    if Field(c, RESOURCES).Some? {
      FieldInRange(c, RESOURCES);
      ResourcesNorm(Field(c, RESOURCES).value, pinned);
    }
  }

  lemma {:induction false} HeaderNorm(c: Value)
    requires InRange(c)
    ensures IsText(Field(Norm(c), "schema"), SCHEMA) <==> IsText(Field(c, "schema"), SCHEMA)
    ensures IsText(Field(Norm(c), "protocol"), PROTOCOL) <==> IsText(Field(c, "protocol"), PROTOCOL)
    ensures IsText(Field(Norm(c), "tier"), "stateless") <==> IsText(Field(c, "tier"), "stateless")
    ensures IsText(Field(Norm(c), "tier"), "semantic_snapshot") <==> IsText(Field(c, "tier"), "semantic_snapshot")
    ensures IsText(Field(Norm(c), "tier"), "external_pinned") <==> IsText(Field(c, "tier"), "external_pinned")
    ensures NonEmptyText(Field(Norm(c), "backend")) <==> NonEmptyText(Field(c, "backend"))
    ensures NonEmptyText(Field(Norm(c), "codec")) <==> NonEmptyText(Field(c, "codec"))
    ensures IsSha256(Field(Norm(c), "runtime_binding_sha256")) <==> IsSha256(Field(c, "runtime_binding_sha256"))
    ensures IsSha256(Field(Norm(c), "payload_sha256")) <==> IsSha256(Field(c, "payload_sha256"))
    ensures IsSha256(Field(c, "payload_sha256")) ==> Field(Norm(c), "payload_sha256") == Field(c, "payload_sha256")
  {
    hide *;
    TextNorm(c, "schema", SCHEMA);
    TextNorm(c, "protocol", PROTOCOL);
    TextNorm(c, "tier", "stateless");
    TextNorm(c, "tier", "semantic_snapshot");
    TextNorm(c, "tier", "external_pinned");
    TextNorm(c, "backend", "");
    TextNorm(c, "codec", "");
    TextNorm(c, "runtime_binding_sha256", "");
    TextNorm(c, "payload_sha256", "");
  }

  // --------------------------------------------------- which checkpoints there are

  /** Everything a checkpoint says. */
  datatype Checkpoint = Checkpoint(
    backend: string, tier: string, codec: string, binding: string, payload: Value, digest: string,
    resources: Option<seq<Value>>)

  /** The dict that says it, in the order `make_checkpoint` writes it. */
  function Spelled(r: Checkpoint): (es: seq<Entry>)
    ensures |es| == if r.resources.Some? then 9 else 8
  {
    [
      Entry("schema", Text("ostadix.backend-checkpoint/v1")), Entry("protocol", Text("ostadix.backend-state/v1")),
      Entry("backend", Text(r.backend)), Entry("tier", Text(r.tier)), Entry("codec", Text(r.codec)),
      Entry("runtime_binding_sha256", Text(r.binding)), Entry("payload", r.payload),
      Entry("payload_sha256", Text(r.digest))
    ] + if r.resources.Some? then [Entry("external_resources", List(r.resources.value))] else []
  }

  predicate HexText(s: string)
  {
    |s| == 64 && forall i :: 0 <= i < 64 ==> '0' <= s[i] <= '9' || 'a' <= s[i] <= 'f' || 'A' <= s[i] <= 'F'
  }

  predicate LowerHex(s: string)
  {
    |s| == 64 && forall i :: 0 <= i < 64 ==> '0' <= s[i] <= '9' || 'a' <= s[i] <= 'f'
  }

  /** What `hexdigest` returns. */
  ghost predicate HexDigest(sha: Digest) { forall b: seq<byte> :: LowerHex(sha(b)) }

  /** Every digit is the lower-case one or its capital. */
  predicate SameHex(s: string, lower: string)
  {
    |s| == |lower| && forall i :: 0 <= i < |s| ==>
      s[i] == lower[i] || ('a' <= lower[i] <= 'f' && s[i] as int == lower[i] as int - 32)
  }

  /** What a caller of `make_checkpoint` has to pass besides the payload. */
  predicate Makeable(backend: string, tier: string, codec: string, resources: seq<Value>, binding: string)
  {
    && tier in {"stateless", "semantic_snapshot", "external_pinned"}
    && backend != "" && codec != "" && HexText(binding)
    && (forall i :: 0 <= i < |resources| ==>
          && resources[i].Map? && NonEmptyText(Field(resources[i], "kind"))
          && NonEmptyText(Field(resources[i], "identity")) && NonEmptyText(Field(resources[i], "recovery")))
    && (tier == "external_pinned" <==> resources != [])
  }

  /** A checkpoint whose digest is that of its payload, in either case, and whose tier and resources fit. */
  predicate Genuine(sha: Digest, r: Checkpoint)
  {
    && Makeable(r.backend, r.tier, r.codec, if r.resources.Some? then r.resources.value else [], r.binding)
    && InRange(r.payload) && LowerHex(sha(Encode(r.payload))) && SameHex(r.digest, sha(Encode(r.payload)))
  }

  lemma {:induction false} LowerSame(s: string, lower: string)
    ensures HexText(s) && Lower(s) == lower <==> LowerHex(lower) && SameHex(s, lower)
  {
    if HexText(s) && Lower(s) == lower {
      forall i | 0 <= i < 64 ensures '0' <= lower[i] <= '9' || 'a' <= lower[i] <= 'f' {
        assert lower[i] == Lower(s)[i] && IsHex(s[i]);
      }
      forall i | 0 <= i < |s|
        ensures s[i] == lower[i] || ('a' <= lower[i] <= 'f' && s[i] as int == lower[i] as int - 32)
      {
        assert lower[i] == Lower(s)[i] && IsHex(s[i]);
      }
    }
    if LowerHex(lower) && SameHex(s, lower) {
      forall i | 0 <= i < 64 ensures IsHex(s[i]) && Lower(s)[i] == lower[i] { }
    }
  }

  function Keys(): seq<string>
  {
    ["schema", "protocol", "backend", "tier", "codec", "runtime_binding_sha256", "payload", "payload_sha256",
     "external_resources"]
  }

  lemma {:induction false} KeyAt(r: Checkpoint, i: nat)
    requires i < |Spelled(r)|
    ensures Spelled(r)[i].key == Keys()[i]
  {
  }

  lemma {:induction false} KeysDiffer(i: nat, j: nat)
    requires i < j < 9
    ensures Keys()[i] != Keys()[j]
  {
  }

  lemma {:induction false} SpelledDistinct(r: Checkpoint)
    ensures Distinct(Spelled(r))
    ensures r.resources.None? ==> forall i :: 0 <= i < |Spelled(r)| ==> Spelled(r)[i].key != "external_resources"
  {
    hide Spelled, Keys;
    var es := Spelled(r);
    forall i, j | 0 <= i < j < |es| ensures es[i].key != es[j].key {
      KeyAt(r, i);
      KeyAt(r, j);
      KeysDiffer(i, j);
    }
    forall i | 0 <= i < |es| && r.resources.None? ensures es[i].key != "external_resources" {
      KeyAt(r, i);
      KeysDiffer(i, 8);
      LastKey();
    }
  }

  lemma {:induction false} LastKey()
    ensures |Keys()| == 9 && Keys()[8] == "external_resources"
  {
  }

  /** What is found in a spelled checkpoint. */
  lemma {:induction false} SpelledFields(r: Checkpoint)
    ensures
      var c := Map(Spelled(r));
      && IsText(Field(c, "schema"), "ostadix.backend-checkpoint/v1")
      && IsText(Field(c, "protocol"), "ostadix.backend-state/v1")
      && IsText(Field(c, "backend"), r.backend) && IsText(Field(c, "tier"), r.tier)
      && IsText(Field(c, "codec"), r.codec) && IsText(Field(c, "runtime_binding_sha256"), r.binding)
      && Field(c, "payload") == Some(r.payload) && IsText(Field(c, "payload_sha256"), r.digest)
      && Field(c, "external_resources") ==
           (if r.resources.Some? then Some(List(r.resources.value)) else None)
  {
    hide Lookup, Distinct;
    SpelledDistinct(r);
    var es := Spelled(r);
    LookupAt(es, 0);
    LookupAt(es, 1);
    LookupAt(es, 2);
    LookupAt(es, 3);
    LookupAt(es, 4);
    LookupAt(es, 5);
    LookupAt(es, 6);
    LookupAt(es, 7);
    if r.resources.Some? { LookupAt(es, 8); } else { LookupMissing(es, "external_resources"); }
  }

  lemma {:induction false} SpelledKeys(r: Checkpoint)
    ensures Distinct(Spelled(r)) && KeysAllowed(Spelled(r))
  {
    SpelledDistinct(r);
    forall i | 0 <= i < |Spelled(r)| ensures Spelled(r)[i].key in REQUIRED || Spelled(r)[i].key == RESOURCES { }
    SpelledFields(r);
    hide Lookup, Spelled;
  }

  /** The validator accepts a spelled checkpoint exactly when it is genuine. */
  lemma {:induction false} SpelledValid(sha: Digest, r: Checkpoint)
    ensures Validates(sha, Map(Spelled(r))) <==> Genuine(sha, r)
  {
    hide Field, Encode, InRange, Lower, HexText, LowerHex, SameHex, Spelled, KeysAllowed, NonEmptyText;
    SpelledFields(r);
    SpelledKeys(r);
    NonEmptyIs(r.backend);
    NonEmptyIs(r.codec);
    Sha256Is(r.binding);
    Sha256Is(r.digest);
    ResourcesIs(if r.resources.Some? then r.resources.value else [], r.tier == "external_pinned");
    if InRange(r.payload) { LowerSame(r.digest, sha(Encode(r.payload))); }
  }

  lemma {:induction false} NonEmptyIs(s: string)
    ensures NonEmptyText(Some(Text(s))) <==> s != ""
  {
  }

  lemma {:induction false} Sha256Is(s: string)
    ensures IsSha256(Some(Text(s))) <==> HexText(s)
  {
  }

  lemma {:induction false} ResourcesIs(resources: seq<Value>, pinned: bool)
    ensures ResourcesFit(List(resources), pinned) <==>
      && (forall i :: 0 <= i < |resources| ==>
            && resources[i].Map? && NonEmptyText(Field(resources[i], "kind"))
            && NonEmptyText(Field(resources[i], "identity")) && NonEmptyText(Field(resources[i], "recovery")))
      && (pinned <==> resources != [])
  {
    hide Field, NonEmptyText;
  }

  /** What `make_checkpoint` does with what it is passed: it returns exactly when this holds. */
  lemma {:induction false} MadeExactly(sha: Digest, backend: string, tier: string, codec: string, payload: Value,
                                       resources: seq<Value>, binding: string)
    ensures
      var c := MakeCheckpoint(sha, backend, tier, codec, payload, resources, binding);
      && (c.Some? <==>
            InRange(payload) && LowerHex(sha(Encode(payload))) && Makeable(backend, tier, codec, resources, binding))
      && (c.Some? ==>
            c.value == Map(Spelled(Checkpoint(backend, tier, codec, binding, payload, sha(Encode(payload)),
                                              if resources == [] then None else Some(resources)))))
  {
    hide Encode, InRange, Validates, LowerHex, SameHex, Makeable;
    var digest := sha(Encode(payload));
    var r := Checkpoint(backend, tier, codec, binding, payload, digest,
      if resources == [] then None else Some(resources));
    SpelledValid(sha, r);
    SameSelf(digest);
  }

  lemma {:induction false} SameSelf(s: string)
    ensures SameHex(s, s)
  {
  }

  /** The checkpoint that `make_checkpoint` returns. */
  ghost function Made(sha: Digest, backend: string, tier: string, codec: string, payload: Value,
                      resources: seq<Value>, binding: string): (c: Value)
    requires InRange(payload) && LowerHex(sha(Encode(payload))) && Makeable(backend, tier, codec, resources, binding)
    ensures MakeCheckpoint(sha, backend, tier, codec, payload, resources, binding) == Some(c)
  {
    MadeExactly(sha, backend, tier, codec, payload, resources, binding);
    MakeCheckpoint(sha, backend, tier, codec, payload, resources, binding).value
  }

  lemma {:induction false} CountEntry(es: seq<Entry>, e: Entry)
    requires Distinct(es)
    ensures multiset(es)[e] == if Lookup(es, e.key) == Some(e.value) then 1 else 0
  {
    if es != [] {
      assert es == [es[0]] + es[1..];
      CountEntry(es[1..], e);
      if Lookup(es[1..], e.key).Some? {
        var i := LookupFound(es[1..], e.key);
        assert es[i + 1].key == e.key && es[0].key != es[i + 1].key;
      }
    }
  }

  /** Dicts in which every key finds the same hold the same entries. */
  lemma {:induction false} SameLookups(es: seq<Entry>, fs: seq<Entry>)
    requires Distinct(es) && Distinct(fs) && forall k :: Lookup(es, k) == Lookup(fs, k)
    ensures multiset(es) == multiset(fs)
  {
    forall e: Entry ensures multiset(es)[e] == multiset(fs)[e] {
      CountEntry(es, e);
      CountEntry(fs, e);
      assert Lookup(es, e.key) == Lookup(fs, e.key);
    }
  }

  /** Validation does not depend on the order of a dict. */
  lemma {:induction false} ValidatesPermutation(sha: Digest, es: seq<Entry>, fs: seq<Entry>)
    requires Distinct(es) && Distinct(fs) && multiset(es) == multiset(fs) && Validates(sha, Map(es))
    ensures Validates(sha, Map(fs))
  {
    hide Encode, InRange, Lookup, Lower, ResourcesFit, IsSha256, NonEmptyText;
    forall k ensures Lookup(es, k) == Lookup(fs, k) { LookupPermutation(es, fs, k); }
    forall i | 0 <= i < |fs| ensures fs[i].key in REQUIRED || fs[i].key == RESOURCES {
      assert fs[i] in multiset(es);
    }
  }

  /** What a checkpoint that validates says. */
  lemma {:induction false} SaidBy(sha: Digest, c: Value) returns (r: Checkpoint)
    requires Validates(sha, c) && Distinct(c.entries)
    ensures multiset(c.entries) == multiset(Spelled(r))
  {
    hide Encode, InRange, Lower, Lookup, Spelled, CompleteResource;
    r := Checkpoint(Field(c, "backend").value.s, TierOf(c), Field(c, "codec").value.s,
      Field(c, "runtime_binding_sha256").value.s, Field(c, "payload").value, Field(c, "payload_sha256").value.s,
      if Field(c, RESOURCES).None? then None else Some(Field(c, RESOURCES).value.items));
    SpelledFields(r);
    SpelledKeys(r);
    var es, fs := c.entries, Spelled(r);
    KeysOnly(es);
    KeysOnly(fs);
    forall k ensures Lookup(es, k) == Lookup(fs, k) {
      if k !in REQUIRED && k != RESOURCES {
        assert Lookup(es, k).None? && Lookup(fs, k).None?;
      }
    }
    SameLookups(es, fs);
  }

  function TierOf(c: Value): string
  {
    var t := Field(c, "tier");
    if t.Some? && t.value.Text? then t.value.s else ""
  }

  /** The validator accepts a dict exactly when it is a genuine checkpoint, in any order. */
  lemma {:induction false} ValidatesExactly(sha: Digest, es: seq<Entry>)
    requires Distinct(es)
    ensures Validates(sha, Map(es)) <==>
      exists r: Checkpoint :: Genuine(sha, r) && multiset(es) == multiset(Spelled(r))
  {
    hide Validates, Spelled, Genuine;
    if Validates(sha, Map(es)) {
      var r := SaidBy(sha, Map(es));
      SpelledKeys(r);
      ValidatesPermutation(sha, es, Spelled(r));
      SpelledValid(sha, r);
    }
    if exists r: Checkpoint :: Genuine(sha, r) && multiset(es) == multiset(Spelled(r)) {
      var r: Checkpoint :| Genuine(sha, r) && multiset(es) == multiset(Spelled(r));
      SpelledKeys(r);
      SpelledValid(sha, r);
      ValidatesPermutation(sha, Spelled(r), es);
    }
  }

  /** What `make_checkpoint` returns, framed, sent and read: the reader holds the same fields
      and the same recorded digest, and accepts the checkpoint exactly when its payload has
      no byte string in it. */
  lemma {:induction false} CheckpointCrossesWire(sha: Digest, backend: string, tier: string, codec: string,
                                                 payload: Value, resources: seq<Value>, binding: string,
                                                 rest: seq<byte>)
    requires InRange(payload) && LowerHex(sha(Encode(payload))) && Makeable(backend, tier, codec, resources, binding)
    requires Wire.Fits(Made(sha, backend, tier, codec, payload, resources, binding))
    ensures
      var c := Made(sha, backend, tier, codec, payload, resources, binding);
      && Wire.Next(Wire.Frame(c) + rest) == (Wire.Message(Norm(c)), rest)
      && Field(Norm(c), "payload_sha256") == Field(c, "payload_sha256")
      && Field(c, "payload") == Some(payload) && Field(Norm(c), "payload") == Some(Norm(payload))
      && (BytesFree(payload) ==> Validates(sha, Norm(c)))
      && (NoCollision(sha, payload) ==> (Validates(sha, Norm(c)) <==> BytesFree(payload)))
    ensures
      var c := Made(sha, backend, tier, codec, payload, resources, binding);
      && (BytesFree(c) <==> BytesFree(payload) && forall i :: 0 <= i < |resources| ==> BytesFree(resources[i]))
      && (BytesFree(c) ==> DigestOf(sha, Norm(c)) == DigestOf(sha, c))
      && (NoCollision(sha, c) ==> (DigestOf(sha, Norm(c)) == DigestOf(sha, c) <==> BytesFree(c)))
  {
    hide Made, MakeCheckpoint, Wire.Frame, Wire.Next, Norm, Encode, KeysAllowed, ResourcesFit, BytesFree, NoCollision,
         Lookup, InRange, Makeable, LowerHex;
    var c := Made(sha, backend, tier, codec, payload, resources, binding);
    MadeFields(sha, backend, tier, codec, payload, resources, binding);
    FitsIn(c);
    Wire.NextFrame(c, rest);
    ValidArrivesExactly(sha, c);
    TextNorm(c, "payload_sha256", "");
    FieldNorm(c, "payload");
  }

  lemma {:induction false} FitsIn(c: Value)
    requires Wire.Fits(c)
    ensures InRange(c)
  {
  }

  lemma {:induction false} MadeFields(sha: Digest, backend: string, tier: string, codec: string, payload: Value,
                      resources: seq<Value>, binding: string)
    requires MakeCheckpoint(sha, backend, tier, codec, payload, resources, binding).Some?
    ensures
      var c := MakeCheckpoint(sha, backend, tier, codec, payload, resources, binding).value;
      && Field(c, "payload") == Some(payload) && Validates(sha, c)
      && (BytesFree(c) <==> BytesFree(payload) && forall i :: 0 <= i < |resources| ==> BytesFree(resources[i]))
  {
    hide Validates, Encode, InRange, BytesFree, Lookup;
    MadeExactly(sha, backend, tier, codec, payload, resources, binding);
    var c := MakeCheckpoint(sha, backend, tier, codec, payload, resources, binding).value;
    SpelledFields(Checkpoint(backend, tier, codec, binding, payload, sha(Encode(payload)),
      if resources == [] then None else Some(resources)));
    assert resources != [] ==> c.entries[8].value == List(resources);
    forall i | 0 <= i < |c.entries| && i != 6 && i != 8 ensures c.entries[i].value.Text? { }
    MadeFree(c.entries, payload, resources);
  }

  /** Of the values of a checkpoint only the payload and the resources can hold a byte string. */
  lemma {:induction false} MadeFree(es: seq<Entry>, payload: Value, resources: seq<Value>)
    requires |es| == (if resources == [] then 8 else 9) && es[6].value == payload
    requires resources != [] ==> es[8].value == List(resources)
    requires forall i :: 0 <= i < |es| && i != 6 && i != 8 ==> es[i].value.Text?
    ensures BytesFree(Map(es)) <==>
      BytesFree(payload) && forall i :: 0 <= i < |resources| ==> BytesFree(resources[i])
  {
    assert BytesFree(List(resources)) <==> forall i :: 0 <= i < |resources| ==> BytesFree(resources[i]);
    if BytesFree(Map(es)) {
      assert BytesFree(es[6].value);
      if resources != [] { assert BytesFree(es[8].value); }
    }
  }

  lemma {:induction false} MadeHeader(sha: Digest, backend: string, tier: string, codec: string, payload: Value,
                      resources: seq<Value>, binding: string)
    requires MakeCheckpoint(sha, backend, tier, codec, payload, resources, binding).Some?
    ensures
      var c := MakeCheckpoint(sha, backend, tier, codec, payload, resources, binding).value;
      && InRange(payload)
      && IsText(Field(c, "backend"), backend) && IsText(Field(c, "tier"), tier) && IsText(Field(c, "codec"), codec)
      && IsText(Field(c, "runtime_binding_sha256"), binding)
      && (resources == [] ==> Field(c, RESOURCES).None?)
  {
    hide MakeCheckpoint, Spelled, Field, InRange, Encode, Makeable, LowerHex;
    MadeExactly(sha, backend, tier, codec, payload, resources, binding);
    SpelledFields(Checkpoint(backend, tier, codec, binding, payload, sha(Encode(payload)),
      if resources == [] then None else Some(resources)));
  }

  lemma {:induction false} LookupMissing(es: seq<Entry>, key: string)
    requires forall i :: 0 <= i < |es| ==> es[i].key != key
    ensures Lookup(es, key).None?
  {
    LookupSkip(es, key, |es|);
  }

  lemma {:induction false} LookupSkip(es: seq<Entry>, key: string, n: nat)
    requires n <= |es| && forall i :: 0 <= i < n ==> es[i].key != key
    ensures Lookup(es, key) == Lookup(es[n..], key)
  {
    if n > 0 {
      LookupSkip(es[1..], key, n - 1);
      assert es[1..][n - 1..] == es[n..];
    } else {
      assert es[0..] == es;
    }
  }
}
