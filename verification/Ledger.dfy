/** The append-only evidence ledger: what `_validate_release_rederive_ledger` of
    scripts/build_source_release.py accepts, stated without reference to order. */
module Ledger {
  import opened Wrappers

  datatype Attestation = Attestation(
    id: string, gate: string, schema: int, recorded: set<string>, current: set<string>, derivation: Option<string>)

  /** A lifecycle event supersedes its subject, or retracts it when `replacement` is empty. */
  datatype Event =
    | Witness(id: string, subject: string, sha: string, subjectSha: string)
    | Lifecycle(id: string, subject: string, sha: string, replacement: string)
    | Rederive(id: string, subject: string, sha: string, prior: string, next: string, lost: set<string>,
        gained: set<string>)

  /** What the record validators have already established of each record. */
  predicate GoodAttestation(a: Attestation) { a.id != "" && (a.schema == 1 <==> a.derivation.None?) }

  predicate GoodEvent(e: Event)
  {
    && e.id != "" && e.subject != ""
    && (e.Lifecycle? ==> e.replacement != e.subject)
    && (e.Rederive? ==> e.prior != e.next)
  }

  predicate GoodRecords(atts: seq<Attestation>, events: seq<Event>)
  {
    (forall a :: a in atts ==> GoodAttestation(a)) && (forall e :: e in events ==> GoodEvent(e))
  }

  // ------------------------------------------------------------- ids and subjects

  function Ids(atts: seq<Attestation>, events: seq<Event>): (r: seq<string>)
    ensures |r| == |atts| + |events|
    ensures forall i :: 0 <= i < |atts| ==> r[i] == atts[i].id
    ensures forall i :: 0 <= i < |events| ==> r[|atts| + i] == events[i].id
  {
    seq(|atts|, i requires 0 <= i < |atts| => atts[i].id) + seq(|events|, i requires 0 <= i < |events| => events[i].id)
  }

  predicate Unique(ids: seq<string>) { forall i, j :: 0 <= i < j < |ids| ==> ids[i] != ids[j] }

  /** Every witness names one other event and carries that event's digest. */
  ghost predicate WitnessesBind(events: seq<Event>)
  {
    forall w :: w in events && w.Witness? ==>
      exists t :: t in events && t.id == w.subject && !t.Witness? && t.sha == w.subjectSha
  }

  ghost predicate HasId(atts: seq<Attestation>, id: string) { exists a :: a in atts && a.id == id }

  // ------------------------------------------------------------------ lifecycle

  ghost predicate Ended(events: seq<Event>, s: string) { exists e :: e in events && e.Lifecycle? && e.subject == s }

  ghost predicate Supersedes(events: seq<Event>, a: string, b: string)
  {
    b != "" && exists e :: e in events && e.Lifecycle? && e.subject == a && e.replacement == b
  }

  ghost predicate Retracts(events: seq<Event>, a: string)
  {
    exists e :: e in events && e.Lifecycle? && e.subject == a && e.replacement == ""
  }

  ghost predicate LifecycleSound(atts: seq<Attestation>, events: seq<Event>)
  {
    && (forall e, f :: e in events && f in events && e.Lifecycle? && f.Lifecycle? && e.subject == f.subject ==> e == f)
    && (forall e :: e in events && e.Lifecycle? && e.replacement != "" ==>
          exists a, b :: a in atts && b in atts && a.id == e.subject && b.id == e.replacement && a.gate == b.gate)
  }

  /** Two lifecycle events put forward the same replacement. */
  predicate Replaces(e: Event, f: Event)
  {
    e.Lifecycle? && f.Lifecycle? && e.replacement != "" && e.replacement == f.replacement
  }

  ghost predicate OnePredecessor(events: seq<Event>)
  {
    forall e, f :: e in events && f in events && Replaces(e, f) ==> e.subject == f.subject
  }

  ghost predicate Chain(events: seq<Event>, p: seq<string>)
  {
    p != [] && forall k :: 0 <= k < |p| - 1 ==> Link(events, p, k)
  }

  ghost predicate Link(events: seq<Event>, p: seq<string>, k: nat)
    requires k + 1 < |p|
  {
    Supersedes(events, p[k], p[k + 1])
  }

  ghost predicate Cyclic(events: seq<Event>)
  {
    exists p: seq<string> :: Chain(events, p) && |p| >= 2 && p[0] == p[|p| - 1]
  }

  // ---------------------------------------------------------------- rederivation

  /** Two rederivations leave the same derivation of the same attestation. */
  predicate Compete(e: Event, f: Event)
  {
    e.Rederive? && f.Rederive? && e.subject == f.subject && e.prior == f.prior
  }

  ghost predicate RederiveSound(atts: seq<Attestation>, events: seq<Event>)
  {
    && (forall e, a :: e in events && e.Rederive? && a in atts && a.id == e.subject ==> a.derivation.Some?)
    && (forall e, f :: e in events && f in events && Compete(e, f) ==> e == f)
  }

  function At(start: string, p: seq<Event>, k: nat): string
    requires k <= |p| && forall i :: 0 <= i < |p| ==> p[i].Rederive?
  {
    if k == 0 then start else p[k - 1].next
  }

  /** Applying claim deltas in order; nothing when one loses an absent or gains a present claim. */
  function Fold(claims: set<string>, p: seq<Event>): Option<set<string>>
    requires forall i :: 0 <= i < |p| ==> p[i].Rederive?
    decreases |p|
  {
    if p == [] then Some(claims)
    else if !(p[0].lost <= claims) || p[0].gained * claims != {} then None
    else Fold((claims - p[0].lost) + p[0].gained, p[1..])
  }

  /** `p` is all the rederivations of `a`, in an order that leads from its own derivation to
      the released one without repeating a derivation, and whose deltas turn the recorded
      claims into the current ones. */
  ghost predicate Rederivation(a: Attestation, events: seq<Event>, released: string, p: seq<Event>)
  {
    && a.derivation.Some?
    && (forall k :: 0 <= k < |p| ==> p[k].Rederive? && p[k] in events && p[k].subject == a.id)
    && (forall e :: e in events && e.Rederive? && e.subject == a.id ==> e in p)
    && (forall k :: 0 <= k < |p| ==> p[k].prior == At(a.derivation.value, p, k))
    && (forall k, l :: 0 <= k < l <= |p| ==> At(a.derivation.value, p, k) != At(a.derivation.value, p, l))
    && At(a.derivation.value, p, |p|) == released
    && Fold(a.recorded, p) == Some(a.current)
  }

  ghost predicate AttestationOk(a: Attestation, events: seq<Event>, released: string)
  {
    if a.schema == 1 then Ended(events, a.id) else exists p :: Rederivation(a, events, released, p)
  }

  ghost predicate HeadOk(a: Attestation, events: seq<Event>, legacy: set<string>)
  {
    Ended(events, a.id) || a.schema == 3 || a.id in legacy
  }

  /** What an accepted ledger satisfies, and all it must satisfy. */
  ghost predicate Accepted(atts: seq<Attestation>, events: seq<Event>, released: string, legacy: set<string>)
  {
    && Unique(Ids(atts, events))
    && WitnessesBind(events)
    && (forall e :: e in events && !e.Witness? ==> HasId(atts, e.subject))
    && RederiveSound(atts, events) && LifecycleSound(atts, events)
    && OnePredecessor(events) && !Cyclic(events)
    && (forall a :: a in atts ==> AttestationOk(a, events, released) && HeadOk(a, events, legacy))
  }
}
