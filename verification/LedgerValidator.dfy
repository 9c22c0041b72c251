/** `_validate_release_rederive_ledger` of scripts/build_source_release.py, loop by loop,
    proved to decide acceptance. */
module LedgerValidator {
  import opened Wrappers
  import opened Ledger
  import opened LedgerTheorems

  /** Every id is used once across attestations and events. */
  method CheckIds(atts: seq<Attestation>, events: seq<Event>) returns (ok: bool)
    ensures ok <==> Unique(Ids(atts, events))
  {
    var ids := Ids(atts, events);
    var identifiers: set<string> := {};
    var k := 0;
    while k < |ids|
      invariant 0 <= k <= |ids|
      invariant forall s :: s in identifiers <==> s in ids[..k]
      invariant Unique(ids[..k])
    {
      assert ids[..k + 1] == ids[..k] + [ids[k]];
      if ids[k] in identifiers {
        var i :| 0 <= i < k && ids[..k][i] == ids[k];
        assert ids[i] == ids[k];
        return false;
      }
      identifiers := identifiers + {ids[k]};
      k := k + 1;
    }
    assert ids[..k] == ids;
    ok := true;
  }

  /** `m` looks up each event by its id. */
  ghost predicate ById(m: map<string, Event>, events: seq<Event>)
  {
    && (forall s :: s in m ==> m[s] in events && m[s].id == s)
    && (forall e :: e in events ==> e.id in m && m[e.id] == e)
  }

  method IndexEvents(events: seq<Event>) returns (m: map<string, Event>)
    requires forall i, j :: 0 <= i < j < |events| ==> events[i].id != events[j].id
    ensures ById(m, events)
  {
    m := map[];
    var k := 0;
    while k < |events|
      invariant 0 <= k <= |events|
      invariant forall s :: s in m ==> exists i :: 0 <= i < k && m[s] == events[i] && events[i].id == s
      invariant forall i :: 0 <= i < k ==> events[i].id in m && m[events[i].id] == events[i]
    {
      m := m[events[k].id := events[k]];
      k := k + 1;
    }
  }

  method CheckWitnesses(events: seq<Event>, byId: map<string, Event>) returns (ok: bool)
    requires ById(byId, events)
    ensures ok <==> WitnessesBind(events)
  {
    var k := 0;
    while k < |events|
      invariant 0 <= k <= |events|
      invariant forall i :: 0 <= i < k && events[i].Witness? ==> Bound(events, events[i])
    {
      var w := events[k];
      assert w in events;
      if w.Witness? {
        if w.subject !in byId || byId[w.subject].Witness? || byId[w.subject].sha != w.subjectSha {
          assert !Bound(events, w);
          return false;
        }
        assert byId[w.subject] in events;
        assert Bound(events, w);
      }
      k := k + 1;
    }
    assert forall w :: w in events && w.Witness? ==> Bound(events, w);
    ok := true;
  }

  ghost predicate Bound(events: seq<Event>, w: Event)
    requires w.Witness?
  {
    exists t :: t in events && t.id == w.subject && !t.Witness? && t.sha == w.subjectSha
  }

  // ------------------------------------------------------- the two tables of events

  /** `m` maps each attestation id to its attestation. */
  ghost predicate Indexed(m: map<string, Attestation>, atts: seq<Attestation>)
  {
    && (forall s :: s in m ==> m[s] in atts && m[s].id == s)
    && (forall a :: a in atts ==> a.id in m && m[a.id] == a)
  }

  method IndexAttestations(atts: seq<Attestation>) returns (m: map<string, Attestation>)
    requires forall i, j :: 0 <= i < j < |atts| ==> atts[i].id != atts[j].id
    ensures Indexed(m, atts)
  {
    m := map[];
    var k := 0;
    while k < |atts|
      invariant 0 <= k <= |atts|
      invariant forall s :: s in m ==> exists i :: 0 <= i < k && m[s] == atts[i] && atts[i].id == s
      invariant forall i :: 0 <= i < k ==> atts[i].id in m && m[atts[i].id] == atts[i]
    {
      m := m[atts[k].id := atts[k]];
      k := k + 1;
    }
  }

  /** `lifecycle_by_subject` after the given events. */
  ghost predicate LifecycleTable(m: map<string, Event>, events: seq<Event>)
  {
    && (forall s :: s in m ==> m[s] in events && m[s].Lifecycle? && m[s].subject == s)
    && (forall e :: e in events && e.Lifecycle? ==> e.subject in m && m[e.subject] == e)
  }

  type Transitions = map<string, map<string, Event>>

  /** `transitions_by_subject` after the given events. */
  ghost predicate TransitionTable(t: Transitions, events: seq<Event>)
  {
    && (forall s, d :: s in t && d in t[s] ==>
          t[s][d] in events && t[s][d].Rederive? && t[s][d].subject == s && t[s][d].prior == d)
    && (forall e :: e in events && e.Rederive? ==>
          e.subject in t && e.prior in t[e.subject] && t[e.subject][e.prior] == e)
  }

  /** The conditions checked while the tables are filled. */
  ghost predicate EventsSound(atts: seq<Attestation>, events: seq<Event>)
  {
    && (forall e :: e in events && !e.Witness? ==> HasId(atts, e.subject))
    && RederiveSound(atts, events) && LifecycleSound(atts, events)
  }

  /** What the loop requires of the next event, given the tables so far. */
  predicate Admissible(byId: map<string, Attestation>, l: map<string, Event>, t: Transitions, e: Event)
  {
    if e.Witness? then true
    else if e.subject !in byId then false
    else if e.Rederive? then
      byId[e.subject].derivation.Some? && !(e.subject in t && e.prior in t[e.subject])
    else
      && e.subject !in l
      && (e.replacement != "" ==> e.replacement in byId && byId[e.replacement].gate == byId[e.subject].gate)
  }

  lemma {:induction false} AdmissibleExtends(atts: seq<Attestation>, byId: map<string, Attestation>, events: seq<Event>,
                                             l: map<string, Event>, t: Transitions, e: Event)
    requires Indexed(byId, atts) && EventsSound(atts, events) && LifecycleTable(l, events) && TransitionTable(t, events)
    requires e !in events
    ensures EventsSound(atts, events + [e]) <==> Admissible(byId, l, t, e)
  {
    SubjectExtends(atts, byId, events, e);
    hide EventsSound;
    if e.Witness? {
      WitnessExtends(atts, events, e);
    } else if e.subject in byId && e.Rederive? {
      RederiveExtends(atts, byId, events, t, e);
      LifecycleOther(atts, events, e);
    } else if e.subject in byId {
      LifecycleExtends(atts, byId, events, l, e);
      RederiveOther(atts, events, e);
    }
    SoundParts(atts, events);
    SoundParts(atts, events + [e]);
  }

  ghost predicate SubjectsKnown(atts: seq<Attestation>, events: seq<Event>)
  {
    forall e :: e in events && !e.Witness? ==> HasId(atts, e.subject)
  }

  lemma {:induction false} SoundParts(atts: seq<Attestation>, events: seq<Event>)
    ensures EventsSound(atts, events) <==>
      SubjectsKnown(atts, events) && RederiveSound(atts, events) && LifecycleSound(atts, events)
  {
  }

  lemma {:induction false} SubjectExtends(atts: seq<Attestation>, byId: map<string, Attestation>, events: seq<Event>,
                                          e: Event)
    requires Indexed(byId, atts) && SubjectsKnown(atts, events)
    ensures SubjectsKnown(atts, events + [e]) <==> e.Witness? || e.subject in byId
  {
    assert e in events + [e];
    if e.subject in byId { assert byId[e.subject] in atts; }
  }

  lemma {:induction false} WitnessExtends(atts: seq<Attestation>, events: seq<Event>, e: Event)
    requires e.Witness?
    ensures RederiveSound(atts, events) ==> RederiveSound(atts, events + [e])
    ensures LifecycleSound(atts, events) ==> LifecycleSound(atts, events + [e])
  {
    LifecycleOther(atts, events, e);
    RederiveOther(atts, events, e);
  }

  lemma {:induction false} LifecycleOther(atts: seq<Attestation>, events: seq<Event>, e: Event)
    requires !e.Lifecycle?
    ensures LifecycleSound(atts, events + [e]) <==> LifecycleSound(atts, events)
  {
    assert forall f :: f in events + [e] && f.Lifecycle? <==> f in events && f.Lifecycle?;
  }

  lemma {:induction false} RederiveOther(atts: seq<Attestation>, events: seq<Event>, e: Event)
    requires !e.Rederive?
    ensures RederiveSound(atts, events + [e]) <==> RederiveSound(atts, events)
  {
    assert forall f :: f in events + [e] && f.Rederive? <==> f in events && f.Rederive?;
  }

  lemma {:induction false} RederiveExtends(atts: seq<Attestation>, byId: map<string, Attestation>, events: seq<Event>,
                                           t: Transitions, e: Event)
    requires Indexed(byId, atts) && RederiveSound(atts, events) && TransitionTable(t, events)
    requires e.Rederive? && e !in events && e.subject in byId
    ensures RederiveSound(atts, events + [e]) <==>
      byId[e.subject].derivation.Some? && !(e.subject in t && e.prior in t[e.subject])
  {
    var all := events + [e];
    assert e in all;
    assert e.subject in t && e.prior in t[e.subject] ==>
      var f := t[e.subject][e.prior]; f in all && Compete(e, f) && f != e;
    if RederiveSound(atts, all) {
      assert byId[e.subject] in atts;
    }
    if byId[e.subject].derivation.Some? && !(e.subject in t && e.prior in t[e.subject]) {
      assert forall f :: f in events && f.Rederive? ==> !Compete(f, e) && !Compete(e, f);
    }
  }

  lemma {:induction false} LifecycleExtends(atts: seq<Attestation>, byId: map<string, Attestation>, events: seq<Event>,
                                            l: map<string, Event>, e: Event)
    requires Indexed(byId, atts) && LifecycleSound(atts, events) && LifecycleTable(l, events)
    requires e.Lifecycle? && e !in events && e.subject in byId
    ensures LifecycleSound(atts, events + [e]) <==>
      && e.subject !in l
      && (e.replacement != "" ==> e.replacement in byId && byId[e.replacement].gate == byId[e.subject].gate)
  {
    var all := events + [e];
    assert e in all;
    assert e.subject in l ==> l[e.subject] in all && l[e.subject] != e;
    if LifecycleSound(atts, all) {
      if e.replacement != "" {
        var a, b :| a in atts && b in atts && a.id == e.subject && b.id == e.replacement && a.gate == b.gate;
      }
    }
    if
      && e.subject !in l
      && (e.replacement != "" ==> e.replacement in byId && byId[e.replacement].gate == byId[e.subject].gate)
    {
      if e.replacement != "" { assert byId[e.subject] in atts && byId[e.replacement] in atts; }
      forall f | f in all && f.Lifecycle? && f.replacement != ""
        ensures exists a, b :: a in atts && b in atts && a.id == f.subject && b.id == f.replacement && a.gate == b.gate
      {
        if f == e {
          var a, b := byId[e.subject], byId[e.replacement];
          assert a in atts && b in atts && a.id == f.subject && b.id == f.replacement && a.gate == b.gate;
        }
      }
    }
  }

  ghost predicate NoRepeats(events: seq<Event>) { forall i, j :: 0 <= i < j < |events| ==> events[i] != events[j] }

  lemma {:induction false} TablesStep(events: seq<Event>, e: Event, l: map<string, Event>, t: Transitions)
    requires LifecycleTable(l, events) && TransitionTable(t, events)
    requires e.Lifecycle? ==> e.subject !in l
    requires e.Rederive? ==> !(e.subject in t && e.prior in t[e.subject])
    ensures LifecycleTable(if e.Lifecycle? then l[e.subject := e] else l, events + [e])
    ensures TransitionTable(
      if e.Rederive? then t[e.subject := (if e.subject in t then t[e.subject] else map[])[e.prior := e]] else t,
      events + [e])
  {
    assert e in events + [e];
  }

  /** The event loop: it stops at the first unsound event, and otherwise fills both tables. */
  method FillTables(atts: seq<Attestation>, events: seq<Event>, byId: map<string, Attestation>)
      returns (ok: bool, lifecycle: map<string, Event>, transitions: Transitions)
    requires Indexed(byId, atts) && NoRepeats(events)
    ensures ok <==> EventsSound(atts, events)
    ensures ok ==> LifecycleTable(lifecycle, events) && TransitionTable(transitions, events)
  {
    hide EventsSound, LifecycleTable, TransitionTable, Indexed;
    lifecycle, transitions := map[], map[];
    var k := 0;
    NothingYet(atts);
    assert events[..0] == [];
    while k < |events|
      invariant 0 <= k <= |events|
      invariant EventsSound(atts, events[..k])
      invariant LifecycleTable(lifecycle, events[..k]) && TransitionTable(transitions, events[..k])
    {
      var e := events[k];
      assert events[..k + 1] == events[..k] + [e];
      assert e !in events[..k];
      AdmissibleExtends(atts, byId, events[..k], lifecycle, transitions, e);
      if !Admissible(byId, lifecycle, transitions, e) {
        PrefixSound(atts, events, k + 1);
        return false, lifecycle, transitions;
      }
      TablesStep(events[..k], e, lifecycle, transitions);
      if e.Rederive? {
        var old' := if e.subject in transitions then transitions[e.subject] else map[];
        transitions := transitions[e.subject := old'[e.prior := e]];
      } else if e.Lifecycle? {
        lifecycle := lifecycle[e.subject := e];
      }
      k := k + 1;
    }
    assert events[..k] == events;
    ok := true;
  }

  lemma {:induction false} NothingYet(atts: seq<Attestation>)
    ensures EventsSound(atts, []) && LifecycleTable(map[], []) && TransitionTable(map[], [])
  {
  }

  /** Soundness of all the events is soundness of every prefix. */
  lemma {:induction false} PrefixSound(atts: seq<Attestation>, events: seq<Event>, k: nat)
    requires k <= |events|
    ensures EventsSound(atts, events) ==> EventsSound(atts, events[..k])
  {
    assert forall e :: e in events[..k] ==> e in events;
  }

  // ------------------------------------------------------------ supersession chains

  lemma {:induction false} TableSupersedes(l: map<string, Event>, events: seq<Event>, s: string)
    requires LifecycleTable(l, events)
    ensures s in l <==> Ended(events, s)
    ensures s in l ==> l[s].Lifecycle?
    ensures s in l && l[s].replacement != "" ==> Supersedes(events, s, l[s].replacement)
    ensures s in l && l[s].replacement == "" ==> Retracts(events, s)
    ensures forall b :: Supersedes(events, s, b) ==> s in l && l[s].replacement == b
  {
    if s in l { assert l[s] in events; }
  }

  /** The inner walk from one subject: true when it comes to an end. */
  method WalkEnds(l: map<string, Event>, events: seq<Event>, subject: string) returns (ok: bool)
    requires LifecycleTable(l, events) && subject in l
    ensures !ok ==> Cyclic(events)
    ensures ok ==> Comes(events, subject)
  {
    hide LifecycleTable, Chain, Final, Cyclic;
    var seen: set<string> := {};
    var current := subject;
    ghost var p := [subject];
    assert Chain(events, p) by { SingleChain(events, subject); }
    while current in l
      invariant |p| >= 1 && Chain(events, p) && p[0] == subject && p[|p| - 1] == current
      invariant seen <= l.Keys && forall s :: s in seen <==> s in p[..|p| - 1]
      decreases l.Keys - seen
    {
      if current in seen {
        CycleFound(events, p);
        return false;
      }
      ghost var before := seen;
      seen := seen + {current};
      assert l.Keys - seen < l.Keys - before by { assert current in l.Keys - before && current !in l.Keys - seen; }
      TableSupersedes(l, events, current);
      var next := l[current].replacement;
      if next == "" {
        assert Final(events, current) by { RetractedFinal(events, current); }
        return true;
      }
      ChainSnoc(events, p, next);
      assert (p + [next])[..|p|] == p && p == p[..|p| - 1] + [current];
      p := p + [next];
      current := next;
    }
    TableSupersedes(l, events, current);
    assert Final(events, current) by { ActiveFinal(events, current); }
    ok := true;
  }

  lemma {:induction false} SingleChain(events: seq<Event>, s: string)
    ensures Chain(events, [s])
  {
  }

  lemma {:induction false} RetractedFinal(events: seq<Event>, s: string)
    requires Retracts(events, s)
    ensures Final(events, s)
  {
  }

  lemma {:induction false} ActiveFinal(events: seq<Event>, s: string)
    requires !Ended(events, s)
    ensures Final(events, s)
  {
  }

  lemma {:induction false} CycleFound(events: seq<Event>, p: seq<string>)
    requires Chain(events, p) && p[|p| - 1] in p[..|p| - 1]
    ensures Cyclic(events)
  {
    var j :| 0 <= j < |p| - 1 && p[j] == p[|p| - 1];
    ChainDrop(events, p, j);
    var q := p[j..];
    assert q[0] == q[|q| - 1] && |q| >= 2;
  }

  /** A subject on a cycle never comes to an end. */
  lemma {:induction false} EndsNotOnCycle(atts: seq<Attestation>, events: seq<Event>, p: seq<string>, q: seq<string>,
                                          k: nat)
    requires LifecycleSound(atts, events) && Chain(events, p) && Chain(events, q)
    requires |q| >= 2 && q[0] == q[|q| - 1] && p[0] == q[0] && k < |p|
    ensures p[k] in q && !Final(events, p[k])
  {
    if k > 0 {
      EndsNotOnCycle(atts, events, p, q, k - 1);
      var j :| 0 <= j < |q| && q[j] == p[k - 1];
      var i := if j == |q| - 1 then 0 else j;
      assert Link(events, q, i) && Link(events, p, k - 1);
      NextUnique(atts, events, p[k - 1], p[k], q[i + 1]);
    }
    var j :| 0 <= j < |q| && q[j] == p[k];
    var i := if j == |q| - 1 then 0 else j;
    assert Link(events, q, i);
    NextUnique(atts, events, q[i], q[i + 1], q[i + 1]);
  }

  lemma {:induction false} AllEndMeansAcyclic(atts: seq<Attestation>, events: seq<Event>)
    requires LifecycleSound(atts, events)
    requires forall s :: Ended(events, s) ==> exists p :: Chain(events, p) && p[0] == s && Final(events, p[|p| - 1])
    ensures !Cyclic(events)
  {
    if Cyclic(events) {
      var q: seq<string> :| Chain(events, q) && |q| >= 2 && q[0] == q[|q| - 1];
      assert Link(events, q, 0);
      assert Ended(events, q[0]);
      var p :| Chain(events, p) && p[0] == q[0] && Final(events, p[|p| - 1]);
      EndsNotOnCycle(atts, events, p, q, |p| - 1);
    }
  }

  /** The replacement loop: one predecessor each, and every walk ends. */
  method CheckChains(atts: seq<Attestation>, events: seq<Event>, l: map<string, Event>) returns (ok: bool)
    requires LifecycleTable(l, events) && LifecycleSound(atts, events)
    ensures ok <==> OnePredecessor(events) && !Cyclic(events)
  {
    hide Cyclic, Chain, Final, LifecycleTable, OnePredecessor, Comes;
    TableShape(l, events);
    var predecessors: map<string, string> := map[];
    var todo := l.Keys;
    while todo != {}
      invariant todo <= l.Keys
      invariant forall r :: r in predecessors ==>
        predecessors[r] in l && predecessors[r] !in todo && l[predecessors[r]].replacement == r && r != ""
      invariant forall s :: s in l && s !in todo && l[s].replacement != "" ==>
        l[s].replacement in predecessors && predecessors[l[s].replacement] == s
      invariant forall s :: s in l && s !in todo ==> Comes(events, s)
      decreases todo
    {
      var s :| s in todo;
      var replacement := l[s].replacement;
      if replacement != "" {
        if replacement in predecessors {
          SharedReplacement(l, events, s, predecessors[replacement]);
          return false;
        }
        predecessors := predecessors[replacement := s];
      }
      var ends := WalkEnds(l, events, s);
      if !ends { return false; }
      todo := todo - {s};
    }
    AllWalked(atts, events, l, predecessors);
    ok := true;
  }

  lemma {:induction false} TableShape(l: map<string, Event>, events: seq<Event>)
    requires LifecycleTable(l, events)
    ensures forall s :: s in l ==> l[s].Lifecycle?
  {
  }

  lemma {:induction false} SharedReplacement(l: map<string, Event>, events: seq<Event>, s: string, t: string)
    requires LifecycleTable(l, events) && s in l && t in l && s != t
    requires l[s].replacement == l[t].replacement != ""
    ensures !OnePredecessor(events)
  {
    assert Replaces(l[s], l[t]);
  }

  lemma {:induction false} AllWalked(atts: seq<Attestation>, events: seq<Event>, l: map<string, Event>,
                                     predecessors: map<string, string>)
    requires LifecycleTable(l, events) && LifecycleSound(atts, events)
    requires forall s :: s in l ==> Comes(events, s)
    requires forall s :: s in l && l[s].replacement != "" ==>
      l[s].replacement in predecessors && predecessors[l[s].replacement] == s
    ensures OnePredecessor(events) && !Cyclic(events)
  {
    hide Cyclic, Chain, Final;
    forall s | Ended(events, s) ensures Comes(events, s) { TableSupersedes(l, events, s); }
    AllEndMeansAcyclic(atts, events);
    forall e, f | e in events && f in events && Replaces(e, f) ensures e.subject == f.subject {
      assert l[e.subject] == e && l[f.subject] == f;
    }
  }

  ghost predicate Comes(events: seq<Event>, s: string)
  {
    exists p :: Chain(events, p) && p[0] == s && Final(events, p[|p| - 1])
  }

  // ------------------------------------------------------------- rederivation walk

  /** `p` follows the attestation's rederivations from its own derivation, repeating none. */
  ghost predicate Partial(a: Attestation, events: seq<Event>, p: seq<Event>)
  {
    a.derivation.Some? && Steps(a, events, p) && NoReturn(a.derivation.value, p)
  }

  ghost predicate Steps(a: Attestation, events: seq<Event>, p: seq<Event>)
    requires a.derivation.Some?
  {
    && (forall k :: 0 <= k < |p| ==> p[k].Rederive? && p[k] in events && p[k].subject == a.id)
    && (forall k :: 0 <= k < |p| ==> p[k].prior == At(a.derivation.value, p, k))
  }

  ghost predicate NoReturn(start: string, p: seq<Event>)
    requires forall i :: 0 <= i < |p| ==> p[i].Rederive?
  {
    forall k, l :: 0 <= k < l <= |p| ==> At(start, p, k) != At(start, p, l)
  }

  ghost predicate Covers(a: Attestation, events: seq<Event>, p: seq<Event>)
  {
    forall e :: e in events && e.Rederive? && e.subject == a.id ==> e in p
  }

  lemma {:induction false} RederivationParts(a: Attestation, events: seq<Event>, released: string, p: seq<Event>)
    ensures Rederivation(a, events, released, p) <==>
      && Partial(a, events, p) && Covers(a, events, p)
      && At(a.derivation.value, p, |p|) == released && Fold(a.recorded, p) == Some(a.current)
  {
  }

  lemma {:induction false} PartialStep(a: Attestation, events: seq<Event>, p: seq<Event>, k: nat)
    requires Partial(a, events, p) && k < |p|
    ensures a.derivation.Some? && forall i :: 0 <= i < |p| ==> p[i].Rederive?
    ensures p[k] in events && p[k].subject == a.id && p[k].prior == At(a.derivation.value, p, k)
  {
  }

  lemma {:induction false} PartialFresh(a: Attestation, events: seq<Event>, p: seq<Event>, k: nat, l: nat)
    requires Partial(a, events, p) && k <= |p| && l <= |p|
    ensures a.derivation.Some? && forall i :: 0 <= i < |p| ==> p[i].Rederive?
    ensures At(a.derivation.value, p, k) == At(a.derivation.value, p, l) ==> k == l
  {
  }

  /** Two walks agree as far as both go. */
  lemma {:induction false} WalksAgree(a: Attestation, atts: seq<Attestation>, events: seq<Event>, p: seq<Event>,
                                      q: seq<Event>, n: nat)
    requires RederiveSound(atts, events) && Partial(a, events, p) && Partial(a, events, q) && n <= |p| && n <= |q|
    ensures forall k :: 0 <= k < n ==> p[k] == q[k]
  {
    hide Partial;
    if n > 0 {
      WalksAgree(a, atts, events, p, q, n - 1);
      PartialStep(a, events, p, n - 1);
      PartialStep(a, events, q, n - 1);
      assert Compete(p[n - 1], q[n - 1]);
    }
  }

  /** No walk goes further than one that covers every rederivation. */
  lemma {:induction false} CoveringIsLongest(a: Attestation, atts: seq<Attestation>, events: seq<Event>, p: seq<Event>,
                                             q: seq<Event>)
    requires RederiveSound(atts, events) && Partial(a, events, p) && Partial(a, events, q) && Covers(a, events, q)
    ensures |p| <= |q| && q[..|p|] == p
  {
    hide Partial;
    if |q| < |p| {
      WalksAgree(a, atts, events, p, q, |q|);
      PartialStep(a, events, p, |q|);
      var j :| 0 <= j < |q| && q[j] == p[|q|];
      PartialStep(a, events, q, j);
      PartialFresh(a, events, q, j, |q|);
    } else {
      WalksAgree(a, atts, events, p, q, |p|);
    }
  }

  lemma {:induction false} FoldSnoc(claims: set<string>, p: seq<Event>, e: Event)
    requires (forall i :: 0 <= i < |p| ==> p[i].Rederive?) && e.Rederive? && Fold(claims, p).Some?
    ensures Fold(claims, p + [e]) ==
      var c := Fold(claims, p).value;
      if e.lost <= c && e.gained * c == {} then Some((c - e.lost) + e.gained) else None
    decreases |p|
  {
    if p == [] {
      assert p + [e] == [e] && [e][1..] == [];
    } else {
      assert (p + [e])[1..] == p[1..] + [e];
      FoldSnoc((claims - p[0].lost) + p[0].gained, p[1..], e);
    }
  }

  lemma {:induction false} FoldPrefix(claims: set<string>, p: seq<Event>, n: nat)
    requires (forall i :: 0 <= i < |p| ==> p[i].Rederive?) && n <= |p| && Fold(claims, p).Some?
    ensures Fold(claims, p[..n]).Some?
    decreases |p|
  {
    if n > 0 {
      FoldPrefix((claims - p[0].lost) + p[0].gained, p[1..], n - 1);
      assert p[..n][1..] == p[1..][..n - 1];
    }
  }

  lemma {:induction false} AtPrefix(start: string, p: seq<Event>, q: seq<Event>)
    requires |p| <= |q| && q[..|p|] == p && forall i :: 0 <= i < |q| ==> q[i].Rederive?
    ensures forall i :: 0 <= i < |p| ==> p[i].Rederive?
    ensures forall k :: 0 <= k <= |p| ==> At(start, q, k) == At(start, p, k)
  {
    assert forall i :: 0 <= i < |p| ==> p[i] == q[i];
  }

  /** The event that leaves the walk's end is next in any complete rederivation. */
  lemma {:induction false} NextStep(a: Attestation, atts: seq<Attestation>, events: seq<Event>, released: string,
                                    p: seq<Event>, e: Event, q: seq<Event>)
    requires RederiveSound(atts, events) && Partial(a, events, p) && Rederivation(a, events, released, q)
    requires e in events && e.Rederive? && e.subject == a.id && e.prior == At(a.derivation.value, p, |p|)
    ensures |p| < |q| && q[..|p| + 1] == p + [e]
  {
    RederivationParts(a, events, released, q);
    hide Rederivation, Partial;
    CoveringIsLongest(a, atts, events, p, q);
    var j :| 0 <= j < |q| && q[j] == e;
    PartialStep(a, events, q, j);
    AtPrefix(a.derivation.value, p, q);
    PartialFresh(a, events, q, j, |p|);
  }

  /** Where no rederivation leaves the walk's end, a complete one stops too. */
  lemma {:induction false} NoNextStep(a: Attestation, atts: seq<Attestation>, events: seq<Event>, released: string,
                                      p: seq<Event>, q: seq<Event>)
    requires RederiveSound(atts, events) && Partial(a, events, p) && Rederivation(a, events, released, q)
    requires forall e :: e in events && e.Rederive? && e.subject == a.id ==> e.prior != At(a.derivation.value, p, |p|)
    ensures q == p
  {
    RederivationParts(a, events, released, q);
    hide Rederivation, Partial;
    CoveringIsLongest(a, atts, events, p, q);
    PartialFresh(a, events, q, 0, 0);
    AtPrefix(a.derivation.value, p, q);
    if |q| > |p| { PartialStep(a, events, q, |p|); }
    assert q[..|q|] == q;
  }

  lemma {:induction false} NoReturnSnoc(start: string, p: seq<Event>, e: Event)
    requires (forall i :: 0 <= i < |p| ==> p[i].Rederive?) && e.Rederive? && NoReturn(start, p)
    requires forall k :: 0 <= k <= |p| ==> At(start, p, k) != e.next
    ensures NoReturn(start, p + [e])
  {
    var q := p + [e];
    assert q[..|p|] == p;
    AtPrefix(start, p, q);
    assert At(start, q, |q|) == e.next;
    hide At;
  }

  lemma {:induction false} StepsSnoc(a: Attestation, events: seq<Event>, p: seq<Event>, e: Event)
    requires a.derivation.Some? && Steps(a, events, p)
    requires e in events && e.Rederive? && e.subject == a.id && e.prior == At(a.derivation.value, p, |p|)
    ensures Steps(a, events, p + [e])
  {
    assert (p + [e])[..|p|] == p;
    AtPrefix(a.derivation.value, p, p + [e]);
    hide At;
  }

  lemma {:induction false} PartialSnoc(a: Attestation, events: seq<Event>, p: seq<Event>, e: Event)
    requires Partial(a, events, p)
    requires e in events && e.Rederive? && e.subject == a.id && e.prior == At(a.derivation.value, p, |p|)
    requires forall k :: 0 <= k <= |p| ==> At(a.derivation.value, p, k) != e.next
    ensures Partial(a, events, p + [e])
  {
    StepsSnoc(a, events, p, e);
    NoReturnSnoc(a.derivation.value, p, e);
    hide NoReturn, At;
  }

  /** The walk's sets: derivations met, and priors used. */
  ghost predicate Tracks(a: Attestation, p: seq<Event>, seen: set<string>, used: set<string>)
    requires a.derivation.Some? && forall i :: 0 <= i < |p| ==> p[i].Rederive?
  {
    && (forall s :: s in seen <==> exists k :: 0 <= k <= |p| && At(a.derivation.value, p, k) == s)
    && (forall s :: s in used <==> exists k :: 0 <= k < |p| && p[k].prior == s)
  }

  lemma {:induction false} TracksSnoc(a: Attestation, p: seq<Event>, e: Event, seen: set<string>, used: set<string>)
    requires a.derivation.Some? && (forall i :: 0 <= i < |p| ==> p[i].Rederive?) && e.Rederive?
    requires Tracks(a, p, seen, used)
    ensures Tracks(a, p + [e], seen + {e.next}, used + {e.prior})
  {
    var q := p + [e];
    assert q[..|p|] == p;
    AtPrefix(a.derivation.value, p, q);
    assert At(a.derivation.value, q, |q|) == e.next && q[|p|].prior == e.prior;
    forall s | s in seen ensures exists k :: 0 <= k <= |q| && At(a.derivation.value, q, k) == s {
      var k :| 0 <= k <= |p| && At(a.derivation.value, p, k) == s;
      assert At(a.derivation.value, q, k) == s;
    }
    forall s | s in used ensures exists k :: 0 <= k < |q| && q[k].prior == s {
      var k :| 0 <= k < |p| && p[k].prior == s;
      assert q[k].prior == s;
    }
  }

  /** `m` is the rederivations of one subject, by the derivation each leaves. */
  ghost predicate Leaving(m: map<string, Event>, events: seq<Event>, s: string)
  {
    && (forall d :: d in m ==> m[d] in events && m[d].Rederive? && m[d].subject == s && m[d].prior == d)
    && (forall e :: e in events && e.Rederive? && e.subject == s ==> e.prior in m && m[e.prior] == e)
  }

  ghost predicate Rederives(a: Attestation, events: seq<Event>, released: string)
  {
    exists p :: Rederivation(a, events, released, p)
  }

  /** A delta that does not apply to the claims reached so far rules out every rederivation. */
  lemma {:induction false} BadDelta(a: Attestation, atts: seq<Attestation>, events: seq<Event>, released: string,
                                    p: seq<Event>, e: Event)
    requires RederiveSound(atts, events) && Partial(a, events, p)
    requires e in events && e.Rederive? && e.subject == a.id && e.prior == At(a.derivation.value, p, |p|)
    requires Fold(a.recorded, p).Some?
    ensures Fold(a.recorded, p + [e]).None? ==> !Rederives(a, events, released)
  {
    hide Partial, RederiveSound;
    if Rederives(a, events, released) {
      var q :| Rederivation(a, events, released, q);
      NextStep(a, atts, events, released, p, e, q);
      FoldPrefix(a.recorded, q, |p| + 1);
    }
  }

  /** Coming back to a derivation already met rules out every rederivation. */
  lemma {:induction false} BadReturn(a: Attestation, atts: seq<Attestation>, events: seq<Event>, released: string,
                                     p: seq<Event>, e: Event, k: nat)
    requires RederiveSound(atts, events) && Partial(a, events, p)
    requires e in events && e.Rederive? && e.subject == a.id && e.prior == At(a.derivation.value, p, |p|)
    requires k <= |p| && At(a.derivation.value, p, k) == e.next
    ensures !Rederives(a, events, released)
  {
    hide Partial, RederiveSound;
    if Rederives(a, events, released) {
      var q :| Rederivation(a, events, released, q);
      NextStep(a, atts, events, released, p, e, q);
      RederivationParts(a, events, released, q);
      hide Rederivation;
      assert q[..|p|] == q[..|p| + 1][..|p|] == p;
      AtPrefix(a.derivation.value, p, q);
      assert q[|p|] == q[..|p| + 1][|p|] == e;
      PartialFresh(a, events, q, k, |p| + 1);
    }
  }

  /** Where the walk stops, it is the rederivation or there is none. */
  lemma {:induction false} WalkDecides(a: Attestation, atts: seq<Attestation>, events: seq<Event>, released: string,
                                       p: seq<Event>)
    requires RederiveSound(atts, events) && Partial(a, events, p)
    requires forall e :: e in events && e.Rederive? && e.subject == a.id ==> e.prior != At(a.derivation.value, p, |p|)
    ensures Rederives(a, events, released) <==>
      Covers(a, events, p) && At(a.derivation.value, p, |p|) == released && Fold(a.recorded, p) == Some(a.current)
  {
    RederivationParts(a, events, released, p);
    hide Rederivation, Partial, RederiveSound, Covers;
    if Rederives(a, events, released) {
      var q :| Rederivation(a, events, released, q);
      NoNextStep(a, atts, events, released, p, q);
    }
  }

  lemma {:induction false} CoversByUse(a: Attestation, events: seq<Event>, m: map<string, Event>, p: seq<Event>,
                                       seen: set<string>, used: set<string>)
    requires Leaving(m, events, a.id) && Partial(a, events, p) && Tracks(a, p, seen, used)
    ensures Covers(a, events, p) <==> m.Keys - used == {}
  {
    if Covers(a, events, p) {
      forall d | d in m ensures d in used { assert m[d] in p; }
    }
    if m.Keys - used == {} {
      forall e | e in events && e.Rederive? && e.subject == a.id ensures e in p {
        assert e.prior in m && e.prior !in m.Keys - used;
        var k :| 0 <= k < |p| && p[k].prior == e.prior;
        PartialStep(a, events, p, k);
        assert m[p[k].prior] == p[k];
      }
    }
  }

  /** The walk over one attestation's rederivations. */
  method CheckRederivation(a: Attestation, atts: seq<Attestation>, events: seq<Event>, transitions: map<string, Event>,
                           released: string)
      returns (ok: bool)
    requires a.derivation.Some? && RederiveSound(atts, events) && Leaving(transitions, events, a.id)
    ensures ok <==> Rederives(a, events, released)
  {
    var derivation, claims := a.derivation.value, a.recorded;
    var used: set<string>, seen := {}, {derivation};
    ghost var p: seq<Event> := [];
    WalkStarts(a, events);
    hide Partial, Tracks, RederiveSound, Fold, Rederives, Covers;
    while derivation in transitions
      invariant Partial(a, events, p) && (forall i :: 0 <= i < |p| ==> p[i].Rederive?)
      invariant derivation == At(a.derivation.value, p, |p|) && Tracks(a, p, seen, used)
      invariant Fold(a.recorded, p) == Some(claims)
      invariant derivation !in used
      decreases transitions.Keys - used
    {
      var event := transitions[derivation];
      ghost var before := used;
      used := used + {derivation};
      assert transitions.Keys - used < transitions.Keys - before by {
        assert derivation in transitions.Keys - before && derivation !in transitions.Keys - used;
      }
      FoldSnoc(a.recorded, p, event);
      if !(event.lost <= claims) || event.gained * claims != {} {
        BadDelta(a, atts, events, released, p, event);
        return false;
      }
      claims := (claims - event.lost) + event.gained;
      derivation := event.next;
      if derivation in seen {
        var k := MetAt(a, p, seen, before, derivation);
        BadReturn(a, atts, events, released, p, event, k);
        return false;
      }
      NotMet(a, p, seen, before, derivation);
      PartialSnoc(a, events, p, event);
      TracksSnoc(a, p, event, seen, before);
      seen := seen + {derivation};
      p := p + [event];
      UsedBefore(a, events, p, seen, used);
    }
    WalkDecides(a, atts, events, released, p);
    CoversByUse(a, events, transitions, p, seen, used);
    ok := transitions.Keys - used == {} && derivation == released && claims == a.current;
  }

  lemma {:induction false} WalkStarts(a: Attestation, events: seq<Event>)
    requires a.derivation.Some?
    ensures Partial(a, events, []) && Tracks(a, [], {a.derivation.value}, {})
    ensures Fold(a.recorded, []) == Some(a.recorded)
  {
    assert At(a.derivation.value, [], 0) == a.derivation.value;
  }

  lemma {:induction false} MetAt(a: Attestation, p: seq<Event>, seen: set<string>, used: set<string>,
                                 d: string) returns (k: nat)
    requires a.derivation.Some? && (forall i :: 0 <= i < |p| ==> p[i].Rederive?) && Tracks(a, p, seen, used)
    requires d in seen
    ensures k <= |p| && At(a.derivation.value, p, k) == d
  {
    k :| 0 <= k <= |p| && At(a.derivation.value, p, k) == d;
  }

  lemma {:induction false} NotMet(a: Attestation, p: seq<Event>, seen: set<string>, used: set<string>, d: string)
    requires a.derivation.Some? && (forall i :: 0 <= i < |p| ==> p[i].Rederive?) && Tracks(a, p, seen, used)
    requires d !in seen
    ensures forall k :: 0 <= k <= |p| ==> At(a.derivation.value, p, k) != d
  {
  }

  lemma {:induction false} UsedBefore(a: Attestation, events: seq<Event>, p: seq<Event>, seen: set<string>,
                                      used: set<string>)
    requires Partial(a, events, p) && Tracks(a, p, seen, used)
    ensures At(a.derivation.value, p, |p|) !in used
  {
    PartialFresh(a, events, p, 0, 0);
    hide Partial;
    forall k | 0 <= k < |p| ensures p[k].prior != At(a.derivation.value, p, |p|) {
      PartialStep(a, events, p, k);
      PartialFresh(a, events, p, k, |p|);
    }
  }

  // ---------------------------------------------------------------------- verdict

  lemma {:induction false} LeavingOf(t: Transitions, events: seq<Event>, s: string)
    requires TransitionTable(t, events)
    ensures Leaving(if s in t then t[s] else map[], events, s)
  {
  }

  /** The attestation loop. */
  method CheckAttestations(atts: seq<Attestation>, events: seq<Event>, lifecycle: map<string, Event>,
                           transitions: Transitions, released: string)
      returns (ok: bool)
    requires GoodRecords(atts, events) && RederiveSound(atts, events)
    requires LifecycleTable(lifecycle, events) && TransitionTable(transitions, events)
    ensures ok <==> forall a :: a in atts ==> AttestationOk(a, events, released)
  {
    hide RederiveSound, LifecycleTable, TransitionTable, Rederivation, Ended;
    var k := 0;
    while k < |atts|
      invariant 0 <= k <= |atts|
      invariant forall i :: 0 <= i < k ==> AttestationOk(atts[i], events, released)
    {
      var a := atts[k];
      assert a in atts && GoodAttestation(a);
      if a.schema == 1 {
        TableSupersedes(lifecycle, events, a.id);
        if a.id !in lifecycle { return false; }
      } else {
        LeavingOf(transitions, events, a.id);
        hide Leaving;
        var good := CheckRederivation(a, atts, events,
          if a.id in transitions then transitions[a.id] else map[], released);
        if !good { return false; }
      }
      k := k + 1;
    }
    ok := true;
  }

  /** The attestations no lifecycle event has ended, in ledger order. */
  ghost function Heads(atts: seq<Attestation>, events: seq<Event>): (r: seq<Attestation>)
    ensures forall a :: a in r <==> a in atts && !Ended(events, a.id)
  {
    if atts == [] then []
    else
      var init := Heads(atts[..|atts| - 1], events);
      if Ended(events, atts[|atts| - 1].id) then init else init + [atts[|atts| - 1]]
  }

  method ActiveHeads(atts: seq<Attestation>, events: seq<Event>, lifecycle: map<string,
                     Event>) returns (active: seq<Attestation>)
    requires LifecycleTable(lifecycle, events)
    ensures active == Heads(atts, events)
  {
    hide LifecycleTable, Ended;
    active := [];
    var k := 0;
    while k < |atts|
      invariant 0 <= k <= |atts| && active == Heads(atts[..k], events)
    {
      TableSupersedes(lifecycle, events, atts[k].id);
      assert atts[..k + 1][..k] == atts[..k];
      if atts[k].id !in lifecycle { active := active + [atts[k]]; }
      k := k + 1;
    }
    assert atts[..k] == atts;
  }

  method CheckHeads(active: seq<Attestation>, legacy: set<string>) returns (ok: bool)
    ensures ok <==> forall a :: a in active ==> a.schema == 3 || a.id in legacy
  {
    for k := 0 to |active|
      invariant forall i :: 0 <= i < k ==> active[i].schema == 3 || active[i].id in legacy
    {
      if active[k].schema != 3 && active[k].id !in legacy { return false; }
    }
    ok := true;
  }

  lemma {:induction false} IdsDistinct(atts: seq<Attestation>, events: seq<Event>)
    requires Unique(Ids(atts, events))
    ensures forall i, j :: 0 <= i < j < |atts| ==> atts[i].id != atts[j].id
    ensures forall i, j :: 0 <= i < j < |events| ==> events[i].id != events[j].id
  {
    var ids := Ids(atts, events);
    forall i, j | 0 <= i < j < |events| ensures events[i].id != events[j].id {
      assert ids[|atts| + i] != ids[|atts| + j];
    }
    forall i, j | 0 <= i < j < |atts| ensures atts[i].id != atts[j].id { assert ids[i] != ids[j]; }
  }

  lemma {:induction false} AcceptedParts(atts: seq<Attestation>, events: seq<Event>, released: string,
                                         legacy: set<string>)
    ensures Accepted(atts, events, released, legacy) <==>
      && Unique(Ids(atts, events)) && WitnessesBind(events) && EventsSound(atts, events)
      && OnePredecessor(events) && !Cyclic(events)
      && (forall a :: a in atts ==> AttestationOk(a, events, released))
      && (forall a :: a in Heads(atts, events) ==> a.schema == 3 || a.id in legacy)
  {
    hide Unique, WitnessesBind, RederiveSound, LifecycleSound, OnePredecessor, Cyclic, AttestationOk, Ended;
    assert forall a :: a in atts ==>
      (HeadOk(a, events, legacy) <==> (a in Heads(atts, events) ==> a.schema == 3 || a.id in legacy));
  }

  /** The whole validator: it returns exactly when the ledger is accepted, and then the
      attestations nothing has ended. */
  method Validate(atts: seq<Attestation>, events: seq<Event>, released: string, legacy: set<string>)
      returns (r: Option<seq<Attestation>>)
    requires GoodRecords(atts, events)
    ensures r.Some? <==> Accepted(atts, events, released, legacy)
    ensures r.Some? ==> r.value == Heads(atts, events)
  {
    AcceptedParts(atts, events, released, legacy);
    hide *;
    var ok := CheckIds(atts, events);
    if !ok { return None; }
    IdsDistinct(atts, events);
    var byId := IndexAttestations(atts);
    var eventsById := IndexEvents(events);
    ok := CheckWitnesses(events, eventsById);
    if !ok { return None; }
    var lifecycle, transitions;
    assert NoRepeats(events) by { DistinctEvents(events); }
    ok, lifecycle, transitions := FillTables(atts, events, byId);
    if !ok { return None; }
    SoundParts(atts, events);
    ok := CheckChains(atts, events, lifecycle);
    if !ok { return None; }
    ok := CheckAttestations(atts, events, lifecycle, transitions, released);
    if !ok { return None; }
    var active := ActiveHeads(atts, events, lifecycle);
    ok := CheckHeads(active, legacy);
    r := if ok then Some(active) else None;
  }

  lemma {:induction false} DistinctEvents(events: seq<Event>)
    requires forall i, j :: 0 <= i < j < |events| ==> events[i].id != events[j].id
    ensures NoRepeats(events)
  {
  }
}
