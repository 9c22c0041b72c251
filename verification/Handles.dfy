/** Owner-process object handles (backends/o_native_objects.py): what an export, a release and a clear
    do to the store, and what a descriptor resolves to. */
module Handles {
  import opened Wrappers
  import opened Json
  import Separated

  // --------------------------------------------------------------------- descriptors

  /** What an exported object's descriptor says besides its identity. */
  datatype Info = Info(implementation: string, version: string, typeName: string, session: string, generation: string,
                       instance: string)

  function TextValue(s: string): Json {
    Obj(map["t" := Str("text"), "v" := Obj(map["utf8" := Str(s), "encoding" := Null])])
  }

  function Live(origin: string, token: string): string { Separated.Join(':', ["python", origin, token]) }

  function Metadata(origin: string, info: Info): Json
  {
    Obj(map["owner" := TextValue(origin), "lifetime" := TextValue("owner-process-until-release"),
            "equivalence" := TextValue("same-python-object"), "session" := TextValue(info.session),
            "generation" := TextValue(info.generation), "instance" := TextValue(info.instance)])
  }

  function Capsule(origin: string, token: string, info: Info): Json
  {
    var rest := map["lang" := Str("python"), "implementation" := Str(info.implementation),
                    "version" := Str(info.version), "type_name" := Str(info.typeName),
                    "codec" := Str("ostadix.python-owner-handle/v1"), "payload" := Null,
                    "boundary" := Str("effectful"), "safety" := Str("live_handle"), "capabilities" := Arr([]),
                    "metadata" := Metadata(origin, info), "rehydrate" := Str("same_process")];
    Obj(rest["identity" := Obj(map["stable" := Null, "live" := Str(Live(origin, token))])])
  }

  function Descriptor(origin: string, token: string, info: Info): Json
  {
    Obj(map["t" := Str("native"), "v" := Capsule(origin, token, info)])
  }

  predicate HexChar(c: char) { '0' <= c <= '9' || 'a' <= c <= 'f' }

  predicate Hex64(s: string) { |s| == 64 && forall i :: 0 <= i < |s| ==> HexChar(s[i]) }

  function Get(j: Json, key: string): Json { if j.Obj? && key in j.fields then j.fields[key] else Null }

  /** The owner and the token a descriptor names. */
  function LiveParts(d: Json): Option<(string, string)>
  {
    var live := Get(Get(Get(d, "v"), "identity"), "live");
    var parts := if live.Str? then Separated.Split(':', live.str) else [];
    if |parts| != 3 || parts[0] != "python" || !Hex64(parts[1]) || !Hex64(parts[2]) then None
    else Some((parts[1], parts[2]))
  }

  predicate NativeShape(d: Json) { d.Obj? && Get(d, "t") == Str("native") }

  // --------------------------------------------------------------------------- store

  datatype Entry<O> = Entry(value: O, text: string)

  datatype Store<O> = Store(origin: string, limit: nat, entries: map<string, Entry<O>>)

  datatype HandleError = NotNative | Malformed | OwnerMismatch | Expired | NotCanonical | Altered | CapacityExhausted

  datatype Found<O> = Found(token: string, value: O)

  /** `_lookup`. */
  ghost function Lookup<O>(s: Store<O>, d: Json): Result<Found<O>, HandleError>
  {
    if !NativeShape(d) then Err(NotNative)
    else
      var parts := LiveParts(d);
      if parts.None? then Err(Malformed)
      else if parts.value.0 != s.origin then Err(OwnerMismatch)
      else if parts.value.1 !in s.entries then Err(Expired)
      else if !Plain(d) then Err(NotCanonical)
      else if Write(d) != s.entries[parts.value.1].text then Err(Altered)
      else Ok(Found(parts.value.1, s.entries[parts.value.1].value))
  }

  /** A request that changes the store; an export comes with the token drawn for it. */
  datatype Op<O> = Export(value: O, info: Info, token: string) | Release(descriptor: Json) | Clear

  /** What a request leaves behind; a refused one changes nothing. */
  ghost function Step<O>(s: Store<O>, op: Op<O>): Store<O>
  {
    match op
    case Export(value, info, token) =>
      if |s.entries| >= s.limit then s
      else s.(entries := s.entries[token := Entry(value, Write(Descriptor(s.origin, token, info)))])
    case Release(d) =>
      var found := Lookup(s, d);
      if found.Ok? then s.(entries := s.entries - {found.value.token}) else s
    case Clear => s.(entries := map[])
  }

  ghost function Run<O>(origin: string, limit: nat, ops: seq<Op<O>>): (s: Store<O>)
    ensures s.origin == origin && s.limit == limit
  {
    if ops == [] then Store(origin, limit, map[]) else Step(Run(origin, limit, ops[..|ops| - 1]), ops[|ops| - 1])
  }

  // ------------------------------------------------------------- exports still standing

  function DescriptorOf<O>(origin: string, op: Op<O>): Json
    requires op.Export?
  {
    Descriptor(origin, op.token, op.info)
  }

  /** The exports not yet released or cleared, told by their descriptors alone. */
  ghost function Standing<O>(origin: string, limit: nat, ops: seq<Op<O>>): (r: set<nat>)
    ensures forall i :: i in r ==> i < |ops| && ops[i].Export?
  {
    if ops == [] then {}
    else
      var before := Standing(origin, limit, ops[..|ops| - 1]);
      match ops[|ops| - 1]
      case Export(_, _, _) => if |before| < limit then before + {|ops| - 1} else before
      case Release(d) => set i | i in before && DescriptorOf(origin, ops[i]) != d
      case Clear => {}
  }

  /** What the drawing loop of `export` gives: a well-formed token not in use when it is drawn. */
  ghost predicate DrawnFree<O>(origin: string, limit: nat, ops: seq<Op<O>>, n: nat)
    requires n < |ops|
  {
    var s := Run(origin, limit, ops[..n]);
    ops[n].Export? && |s.entries| < limit ==> Hex64(ops[n].token) && ops[n].token !in s.entries
  }

  ghost predicate FreshDraws<O>(origin: string, limit: nat, ops: seq<Op<O>>)
  {
    forall n :: 0 <= n < |ops| ==> DrawnFree(origin, limit, ops, n)
  }
}
