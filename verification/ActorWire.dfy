/** An actor carried over the wire: `handle_restore` on the checkpoint dict it is sent, and
    the whole path from one actor to another. */
module ActorWire {
  import opened Wrappers
  import opened Ordering
  import opened PyHeap
  import opened GraphEncoder
  import opened GraphWire
  import opened GraphWireTheorems
  import opened Arrival
  import C = Cbor
  import GraphDecoder
  import GraphTheorems
  import Envelope
  import Actor
  import GraphReads
  import GraphTables
  import Wire

  const BACKEND := "python"
  const TIER := "semantic_snapshot"
  const CODEC := "ostadix.python-graph/v1"

  datatype Refusal = Invalid | Conflict | Incompatible | Unreadable | Payload(reason: Actor.Refusal)

  /** The runtime checks of `handle_restore`. */
  predicate Compatible(c: C.Value, binding: string)
  {
    && Envelope.IsText(Envelope.Field(c, "backend"), BACKEND) && Envelope.IsText(Envelope.Field(c, "tier"), TIER)
    && Envelope.IsText(Envelope.Field(c, "codec"), CODEC)
    && Envelope.IsText(Envelope.Field(c, "runtime_binding_sha256"), binding)
    && (Envelope.Field(c, Envelope.RESOURCES).None? || Envelope.Field(c, Envelope.RESOURCES) == Some(C.List([])))
  }

  function PayloadOf(c: C.Value): Option<Actor.Payload>
  {
    var v := Envelope.Field(c, "payload");
    if v.None? then None else ReadPayload(v.value)
  }

  /** When an actor with this environment, baseline and runtime takes over a checkpoint. */
  predicate Accepts(sha: Envelope.Digest, binding: string, c: C.Value, env: Actor.Env, base: Actor.Env,
                    ambient: string, eq: GraphDecoder.Equality)
  {
    && Envelope.Validates(sha, c) && Actor.Clean(env, base) && Compatible(c, binding)
    && PayloadOf(c).Some? && Actor.Restored(PayloadOf(c).value, base, ambient, eq).Ok?
  }

  /** The literal texts an acceptable checkpoint carries. */
  ghost predicate ForThisRuntime(c: C.Value, binding: string)
  {
    && Envelope.IsText(Envelope.Field(c, "backend"), "python")
    && Envelope.IsText(Envelope.Field(c, "tier"), "semantic_snapshot")
    && Envelope.IsText(Envelope.Field(c, "codec"), "ostadix.python-graph/v1")
    && Envelope.IsText(Envelope.Field(c, "runtime_binding_sha256"), binding)
    && Envelope.Field(c, "external_resources") in {None, Some(C.List([]))}
  }

  /** The payload of a checkpoint says everything `p` does. */
  ghost predicate Carries(c: C.Value, p: Actor.Payload)
  {
    Envelope.Field(c, "payload").Some? && GraphReads.PayloadReads(p, Envelope.Field(c, "payload").value)
  }

  /** Exactly which dicts are taken over, whoever wrote them. */
  lemma {:induction false} AcceptsExactly(sha: Envelope.Digest, binding: string, c: C.Value, env: Actor.Env,
                                          base: Actor.Env, ambient: string, eq: GraphDecoder.Equality)
    ensures Accepts(sha, binding, c, env, base, ambient, eq) <==>
      && Envelope.Validates(sha, c) && Actor.Clean(env, base) && ForThisRuntime(c, binding)
      && exists p :: Carries(c, p) && Actor.Restorable(p, base, ambient)
  {
    hide Envelope.Validates, Actor.Clean, Compatible, ForThisRuntime, PayloadOf, Actor.Restored, Actor.Restorable,
         Carries;
    RuntimeExactly(c, binding);
    PayloadExactly(c, base, ambient, eq);
  }

  lemma {:induction false} RuntimeExactly(c: C.Value, binding: string)
    ensures Compatible(c, binding) <==> ForThisRuntime(c, binding)
  {
    hide Envelope.Field;
  }

  lemma {:induction false} PayloadExactly(c: C.Value, base: Actor.Env, ambient: string, eq: GraphDecoder.Equality)
    ensures PayloadOf(c).Some? && Actor.Restored(PayloadOf(c).value, base, ambient, eq).Ok? <==>
      exists p :: Carries(c, p) && Actor.Restorable(p, base, ambient)
  {
    hide PayloadOf, Actor.Restored, Actor.Restorable, Carries;
    if PayloadOf(c).Some? {
      CarriedExactly(c, PayloadOf(c).value);
      Actor.RestoredExactly(PayloadOf(c).value, base, ambient, eq);
    }
    if exists p :: Carries(c, p) && Actor.Restorable(p, base, ambient) {
      var p :| Carries(c, p) && Actor.Restorable(p, base, ambient);
      CarriedExactly(c, p);
      Actor.RestoredExactly(p, base, ambient, eq);
    }
  }

  lemma {:induction false} CarriedExactly(c: C.Value, p: Actor.Payload)
    ensures PayloadOf(c) == Some(p) <==> Carries(c, p)
  {
    hide Envelope.Field, ReadPayload, GraphReads.PayloadReads;
    var v := Envelope.Field(c, "payload");
    if v.Some? { GraphReads.PayloadExactly(v.value, p); }
  }

  /** What the payload of a dict that is taken over says of its profile and its ambient process. */
  lemma {:induction false} AcceptedTexts(sha: Envelope.Digest, binding: string, c: C.Value, env: Actor.Env,
                                         base: Actor.Env, ambient: string, eq: GraphDecoder.Equality)
    requires Accepts(sha, binding, c, env, base, ambient, eq)
    ensures ForThisRuntime(c, binding) && Envelope.Field(c, "payload").Some?
    ensures SaysOf(Envelope.Field(c, "payload").value, ambient)
  {
    hide Envelope.Validates, Actor.Clean, Envelope.Field, Actor.Restored, Accepts, GraphTables.Faultless;
    AcceptsExactly(sha, binding, c, env, base, ambient, eq);
    var p :| Carries(c, p) && Actor.Restorable(p, base, ambient);
  }

  ghost predicate SaysOf(payload: C.Value, ambient: string)
  {
    && Envelope.IsText(Envelope.Field(payload, "profile"), "constrained-python-graph")
    && Envelope.IsText(Envelope.Field(payload, "ambient_sha256"), ambient)
  }

  /** `handle_restore`: all of the checkpoint is taken over, or nothing changes. */
  method HandleRestore(actor: Actor.PythonActor, sha: Envelope.Digest, binding: string, c: C.Value,
                       eq: GraphDecoder.Equality) returns (refusal: Option<Refusal>)
    requires actor.Valid()
    modifies actor
    ensures actor.Valid()
    ensures refusal.None? <==> Accepts(sha, binding, c, old(actor.env), actor.base, actor.ambient, eq)
    ensures refusal.None? ==>
      (actor.env, actor.heap) == Actor.Restored(PayloadOf(c).value, actor.base, actor.ambient, eq).value
    ensures refusal.Some? ==> actor.env == old(actor.env) && actor.heap == old(actor.heap)
    ensures !Envelope.Validates(sha, c) ==> refusal == Some(Invalid)
    ensures Envelope.Validates(sha, c) && !Actor.Clean(old(actor.env), actor.base) ==> refusal == Some(Conflict)
    ensures !ForThisRuntime(c, binding) ==> refusal.Some?
    ensures Envelope.Field(c, "payload").None? || !SaysOf(Envelope.Field(c, "payload").value, actor.ambient) ==>
      refusal.Some?
  {
    hide Actor.Restored, ReadPayload, Envelope.Validates, Compatible, SaysOf, Actor.Restorable, Actor.RestoredTo,
         ForThisRuntime, Envelope.Field;
    if Accepts(sha, binding, c, actor.env, actor.base, actor.ambient, eq) {
      AcceptedTexts(sha, binding, c, actor.env, actor.base, actor.ambient, eq);
    }
    if !Envelope.Validates(sha, c) { return Some(Invalid); }
    var clean := actor.UserGlobalsAreClean();
    if !clean { return Some(Conflict); }
    if !Compatible(c, binding) { return Some(Incompatible); }
    var p := PayloadOf(c);
    if p.None? { return Some(Unreadable); }
    var r := actor.Restore(p.value, eq);
    refusal := if r.None? then None else Some(Payload(r.value));
  }

  /** The checkpoint `handle_checkpoint` returns for a payload: `make_checkpoint` does return it. */
  ghost function Sealed(sha: Envelope.Digest, binding: string, p: Actor.Payload): (c: C.Value)
    requires Envelope.HexDigest(sha) && Envelope.HexText(binding) && C.InRange(WritePayload(p))
    ensures Envelope.MakeCheckpoint(sha, BACKEND, TIER, CODEC, WritePayload(p), [], binding) == Some(c)
  {
    assert Envelope.LowerHex(sha(C.Encode(WritePayload(p))));
    Envelope.Made(sha, BACKEND, TIER, CODEC, WritePayload(p), [], binding)
  }

  lemma {:induction false} SealedIs(sha: Envelope.Digest, binding: string, p: Actor.Payload)
    requires Envelope.HexDigest(sha) && Envelope.HexText(binding) && C.InRange(WritePayload(p))
    ensures Envelope.LowerHex(sha(C.Encode(WritePayload(p)))) && Envelope.Makeable(BACKEND, TIER, CODEC, [], binding)
    ensures Sealed(sha, binding, p) == Envelope.Made(sha, BACKEND, TIER, CODEC, WritePayload(p), [], binding)
  {
    hide Envelope.LowerHex, Envelope.HexText;
    assert Envelope.LowerHex(sha(C.Encode(WritePayload(p))));
  }

  /** The path of a checkpoint: sealed, framed, sent and read. The reader reads the payload
      back up to opaque values, and validates the checkpoint, with the digests it was sent
      with, exactly when no opaque value the actor reaches has a byte string in it. */
  lemma {:induction false} CheckpointSurvivesWire(h: Heap, env: Actor.Env, base: Actor.Env, ambient: string,
                          eq: GraphDecoder.Equality, sha: Envelope.Digest, binding: string, p: Actor.Payload,
                          rest: seq<byte>)
    requires Actor.GoodActor(h, env, base, eq) && Actor.Checkpoint(h, env, base, ambient) == Some(p)
    requires Envelope.HexDigest(sha) && Envelope.HexText(binding) && C.InRange(WritePayload(p))
    requires Wire.Fits(Sealed(sha, binding, p))
    ensures Actor.Checkpoint(h, env, base, "").Some?
    ensures
      var c := Sealed(sha, binding, p);
      var (m, after) := Wire.Next(Wire.Frame(c) + rest);
      && m == Wire.Message(C.Norm(c)) && after == rest
      && PayloadOf(m.value) == Some(ArrivedPayload(p)) && Compatible(m.value, binding)
      && (FreeActor(h, env, base) ==>
            Envelope.Validates(sha, m.value) && Envelope.DigestOf(sha, m.value) == Envelope.DigestOf(sha, c))
      && (Envelope.NoCollision(sha, WritePayload(p)) ==>
            (Envelope.Validates(sha, m.value) <==> FreeActor(h, env, base)))
      && (Envelope.NoCollision(sha, c) ==>
            (Envelope.DigestOf(sha, m.value) == Envelope.DigestOf(sha, c) <==> FreeActor(h, env, base)))
  {
    hide *;
    SealedIs(sha, binding, p);
    var c := Sealed(sha, binding, p);
    CheckpointWritten(h, env, base, ambient, eq, p);
    Envelope.CheckpointCrossesWire(sha, BACKEND, TIER, CODEC, WritePayload(p), [], binding, rest);
    Envelope.MadeHeader(sha, BACKEND, TIER, CODEC, WritePayload(p), [], binding);
    FitsInRange(c);
    CompatibleAcrossWire(c, binding);
    PayloadCrosses(p);
    PayloadField(C.Norm(c), C.Norm(WritePayload(p)));
  }

  lemma {:induction false} FitsInRange(c: C.Value)
    requires Wire.Fits(c)
    ensures C.InRange(c)
  {
  }

  lemma {:induction false} PayloadField(c: C.Value, v: C.Value)
    requires Envelope.Field(c, "payload") == Some(v)
    ensures PayloadOf(c) == ReadPayload(v)
  {
  }

  lemma {:induction false} CompatibleAcrossWire(c: C.Value, binding: string)
    requires C.InRange(c)
    requires Envelope.IsText(Envelope.Field(c, "backend"), BACKEND) && Envelope.IsText(Envelope.Field(c, "tier"), TIER)
    requires Envelope.IsText(Envelope.Field(c, "codec"), CODEC)
    requires Envelope.IsText(Envelope.Field(c, "runtime_binding_sha256"), binding)
    requires Envelope.Field(c, Envelope.RESOURCES).None?
    ensures Compatible(C.Norm(c), binding)
  {
    hide Envelope.Field, Envelope.IsText, C.Norm, C.InRange;
    Envelope.TextNorm(c, "backend", BACKEND);
    Envelope.TextNorm(c, "tier", TIER);
    Envelope.TextNorm(c, "codec", CODEC);
    Envelope.TextNorm(c, "runtime_binding_sha256", binding);
    Envelope.FieldNorm(c, Envelope.RESOURCES);
  }

  /** The whole path for an actor: checkpoint it, seal it, send it, read it and restore it.
      Unless its tuples lie in a cycle or a scope lost its dict, the restored actor has the checkpointed names with
      values isomorphic to the checkpointed ones up to the content of opaque values, would
      checkpoint to the payload it was restored from, and, without byte strings in opaque
      values, would write the very bytes of the first checkpoint. */
  lemma {:induction false} ActorSurvivesWire(h: Heap, env: Actor.Env, base: Actor.Env, ambient: string,
                          eq: GraphDecoder.Equality, sha: Envelope.Digest, binding: string, p: Actor.Payload,
                          rest: seq<byte>)
    requires Actor.GoodActor(h, env, base, eq) && OpaqueApart(eq)
    requires Actor.Checkpoint(h, env, base, ambient) == Some(p)
    requires Envelope.HexDigest(sha) && Envelope.HexText(binding) && C.InRange(WritePayload(p))
    requires Wire.Fits(Sealed(sha, binding, p))
    ensures Actor.Checkpoint(h, env, base, "").Some?
    ensures
      var m := Wire.Next(Wire.Frame(Sealed(sha, binding, p)) + rest).0;
      && m.Message? && PayloadOf(m.value).Some?
      && var f := Actor.Reached(h, env, base);
      var q := PayloadOf(m.value).value;
      var r := Actor.Restored(q, base, ambient, eq);
      if GraphTheorems.HeapCycle(h, f.Keys) then r == Err(Actor.Graph(GraphDecoder.TupleCycle))
      else if GraphTheorems.BrokenScope(h, f.Keys) then r == Err(Actor.Graph(GraphDecoder.BadScope))
      else
        && r.Ok? && Actor.Reproduces(ArrivedEnv(env), base, f, r.value.0) && Iso(ArrivedHeap(h), r.value.1, f)
        && ClosedHeap(r.value.1) && Actor.EnvClosed(r.value.1, r.value.0)
        && Actor.Checkpoint(r.value.1, r.value.0, base, ambient) == Some(q)
        && (FreeActor(h, env, base) ==> C.Encode(WritePayload(q)) == C.Encode(WritePayload(p)))
  {
    hide *;
    CheckpointSurvivesWire(h, env, base, ambient, eq, sha, binding, p, rest);
    var q := ArrivedPayload(p);
    ClosedActor(h, env, base, eq);
    CheckpointArrived(h, env, base, ambient, p);
    ArrivedActor(h, env, base, eq);
    Actor.RestoreReproduces(ArrivedHeap(h), ArrivedEnv(env), base, ambient, eq);
    ArrivedCycle(h, Actor.Reached(h, env, base).Keys);
    ArrivedScopes(h, Actor.Reached(h, env, base).Keys);
    CheckpointWritten(h, env, base, ambient, eq, p);
    if FreeActor(h, env, base) { RewrittenAlike(p); }
  }

  lemma {:induction false} ClosedActor(h: Heap, env: Actor.Env, base: Actor.Env, eq: GraphDecoder.Equality)
    requires Actor.GoodActor(h, env, base, eq)
    ensures ClosedHeap(h) && Actor.EnvClosed(h, env) && forall n :: n in base ==> base[n].Foreign?
  {
  }

  /** Another process of the same runtime takes the checkpoint over exactly when it holds no
      user state of its own, no reached opaque value has a byte string in it, no reached tuples
      lie in a cycle and every reached scope holds dicts. */
  lemma {:induction false} AcceptedExactly(h: Heap, env: Actor.Env, base: Actor.Env, ambient: string,
                          eq: GraphDecoder.Equality, sha: Envelope.Digest, binding: string, p: Actor.Payload,
                          rest: seq<byte>, other: Actor.Env)
    requires Actor.GoodActor(h, env, base, eq) && OpaqueApart(eq)
    requires Actor.Checkpoint(h, env, base, ambient) == Some(p)
    requires Envelope.HexDigest(sha) && Envelope.HexText(binding) && C.InRange(WritePayload(p))
    requires Wire.Fits(Sealed(sha, binding, p)) && Envelope.NoCollision(sha, WritePayload(p))
    ensures Actor.Checkpoint(h, env, base, "").Some?
    ensures
      var m := Wire.Next(Wire.Frame(Sealed(sha, binding, p)) + rest).0;
      && m.Message?
      && (Accepts(sha, binding, m.value, other, base, ambient, eq) <==>
            Actor.Clean(other, base) && FreeActor(h, env, base)
            && !GraphTheorems.HeapCycle(h, Actor.Reached(h, env, base).Keys)
            && !GraphTheorems.BrokenScope(h, Actor.Reached(h, env, base).Keys))
  {
    hide Actor.GoodActor, Actor.Checkpoint, Actor.Clean, Envelope.MakeCheckpoint, Envelope.NoCollision, FreeActor,
         Envelope.Validates, Compatible, PayloadOf, Actor.Restored, Wire.Fits, Wire.Next, Wire.Frame,
         GraphTheorems.HeapCycle, GraphTheorems.BrokenScope, OpaqueApart, Actor.Reached, Sealed, C.InRange,
         Envelope.HexDigest, Envelope.HexText;
    CheckpointSurvivesWire(h, env, base, ambient, eq, sha, binding, p, rest);
    ActorSurvivesWire(h, env, base, ambient, eq, sha, binding, p, rest);
  }
}
