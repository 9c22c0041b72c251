/** The object store itself, over a source of tokens. */
module NativeObjects {
  import opened Wrappers
  import opened Json
  import opened Handles
  import opened HandleTheorems

  class NativeObjectStore<O(!new)> {
    const limit: nat
    const origin: string
    const draw: nat -> string
    var cursor: nat
    var entries: map<string, Entry<O>>
    ghost var ops: seq<Op<O>>

    ghost function State(): Store<O>
      reads this
    {
      Store(origin, limit, entries)
    }

    /** The store is what its history of requests makes it, and each token of that history
        was free when it was drawn. */
    ghost predicate Valid()
      reads this
    {
      && limit > 0 && Hex64(origin) && (forall k :: Hex64(draw(k)))
      && State() == Run(origin, limit, ops) && FreshDraws(origin, limit, ops)
    }

    /** A store of its own, under an owner identity drawn apart from the tokens. */
    constructor (limit: nat, origin: string, draw: nat -> string)
      requires limit > 0 && Hex64(origin) && forall k :: Hex64(draw(k))
      ensures Valid() && this.limit == limit && this.origin == origin && this.draw == draw && ops == []
      ensures entries == map[]
    {
      this.limit, this.origin, this.draw := limit, origin, draw;
      cursor, entries := 0, map[];
      ops := [];
    }

    /** `live_count`. */
    method LiveCount() returns (n: nat)
      requires Valid()
      ensures n == |Standing(origin, limit, ops)|
    {
      hide Run, Standing, Lookup, Hex64;
      ResolveExactly(origin, limit, ops, Null);
      n := |entries|;
    }

    /** `export`: draws until a token is free, and keeps the object under it. `until` is a draw that is. */
    method Export(value: O, info: Info, ghost until: nat) returns (r: Result<Json, HandleError>)
      requires Valid() && cursor <= until && draw(until) !in entries
      modifies this
      ensures Valid()
      ensures r.Err? <==> old(|entries|) >= limit
      ensures r.Err? ==> r.error == CapacityExhausted && entries == old(entries) && ops == old(ops)
      ensures r.Ok? ==> |ops| == |old(ops)| + 1 && ops[..|ops| - 1] == old(ops)
      ensures r.Ok? ==>
        var op := ops[|ops| - 1];
        && op.Export? && op.value == value && op.info == info && op.token !in old(entries)
        && r.value == DescriptorOf(origin, op)
    {
      hide Run, Descriptor, Write, Plain, Lookup, FreshDraws, Hex64;
      if |entries| >= limit { return Err(CapacityExhausted); }
      var k := cursor;
      while draw(k) in entries
        invariant cursor <= k <= until
        decreases until - k
      {
        k := k + 1;
      }
      var token := draw(k);
      var descriptor := Descriptor(origin, token, info);
      DescriptorPlain(origin, token, info);
      var text := Dumps(descriptor);
      ghost var op: Op<O> := Handles.Export(value, info, token);
      RunSnoc(origin, limit, ops, op);
      FreshSnoc(origin, limit, ops, op);
      entries := entries[token := Entry(value, text.value)];
      cursor := k + 1;
      ops := ops + [op];
      r := Ok(descriptor);
    }

    /** `_lookup`. */
    method Find(d: Json) returns (r: Result<Found<O>, HandleError>)
      ensures r == Lookup(State(), d)
    {
      hide Write, Plain, LiveParts, NativeShape;
      if !NativeShape(d) { return Err(NotNative); }
      var parts := LiveParts(d);
      if parts.None? { return Err(Malformed); }
      var (owner, token) := parts.value;
      if owner != origin { return Err(OwnerMismatch); }
      if token !in entries { return Err(Expired); }
      var text := Dumps(d);
      if text.None? { return Err(NotCanonical); }
      if text.value != entries[token].text { return Err(Altered); }
      r := Ok(Found(token, entries[token].value));
    }

    /** `resolve`: the object of the one standing export the descriptor is of, or nothing. */
    method Resolve(d: Json) returns (r: Result<O, HandleError>)
      requires Valid()
      ensures r.Ok? <==> exists i :: i in Standing(origin, limit, ops) && DescriptorOf(origin, ops[i]) == d
      ensures forall i :: i in Standing(origin, limit, ops) && DescriptorOf(origin, ops[i]) == d ==>
        r == Ok(ops[i].value)
      ensures r.Err? ==> Lookup(Run(origin, limit, ops), d) == Err(r.error)
    {
      hide Lookup, Run, Standing, Hex64, FreshDraws, Descriptor;
      ResolveExactly(origin, limit, ops, d);
      var found := Find(d);
      r := if found.Ok? then Ok(found.value.value) else Err(found.error);
    }

    /** `release`. */
    method Release(d: Json) returns (r: Result<O, HandleError>)
      requires Valid()
      modifies this
      ensures Valid() && ops == old(ops) + [Handles.Release(d)]
      ensures r.Ok? <==> exists i :: i in Standing(origin, limit, old(ops)) && DescriptorOf(origin, old(ops)[i]) == d
      ensures var found := Lookup(old(State()), d);
        && r == (if found.Ok? then Ok(found.value.value) else Err(found.error))
        && entries == if found.Ok? then old(entries) - {found.value.token} else old(entries)
    {
      hide Lookup, Run, Standing, Hex64, FreshDraws, Descriptor;
      ResolveExactly(origin, limit, ops, d);
      var found := Find(d);
      RunSnoc(origin, limit, ops, Handles.Release(d));
      FreshSnoc(origin, limit, ops, Handles.Release(d));
      ops := ops + [Handles.Release(d)];
      if found.Err? { return Err(found.error); }
      entries := entries - {found.value.token};
      r := Ok(found.value.value);
    }

    /** `clear`. */
    method ClearAll()
      requires Valid()
      modifies this
      ensures Valid() && ops == old(ops) + [Clear] && entries == map[]
    {
      hide Lookup, Run, Hex64, FreshDraws;
      RunSnoc(origin, limit, ops, Clear);
      FreshSnoc(origin, limit, ops, Clear);
      ops := ops + [Clear];
      entries := map[];
    }
  }

  /** `NativeObjectStore(max_handles)`: refused unless the limit is positive. */
  method Open<O(!new)>(limit: int, origin: string, draw: nat -> string) returns (r: Option<NativeObjectStore<O>>)
    requires Hex64(origin) && forall k :: Hex64(draw(k))
    ensures r.Some? <==> limit > 0
    ensures r.Some? ==> fresh(r.value) && r.value.Valid() && r.value.limit == limit && r.value.entries == map[]
  {
    if limit <= 0 { return None; }
    var store := new NativeObjectStore(limit, origin, draw);
    r := Some(store);
  }

  lemma {:induction false} RunSnoc<O>(origin: string, limit: nat, ops: seq<Op<O>>, op: Op<O>)
    ensures Run(origin, limit, ops + [op]) == Step(Run(origin, limit, ops), op)
  {
    hide Step;
    assert (ops + [op])[..|ops|] == ops;
  }

  lemma {:induction false} FreshSnoc<O>(origin: string, limit: nat, ops: seq<Op<O>>, op: Op<O>)
    requires FreshDraws(origin, limit, ops)
    requires op.Export? ==> Hex64(op.token) && op.token !in Run(origin, limit, ops).entries
    ensures FreshDraws(origin, limit, ops + [op])
  {
    hide Run, Hex64;
    var all := ops + [op];
    forall n | 0 <= n < |all| ensures DrawnFree(origin, limit, all, n) {
      if n < |ops| {
        assert all[..n] == ops[..n] && all[n] == ops[n];
        assert DrawnFree(origin, limit, ops, n);
      } else {
        assert all[..n] == ops;
      }
    }
  }
}
