/** What acceptance promises of the ledger's chains. */
module LedgerTheorems {
  import opened Wrappers
  import opened Ledger

  // -------------------------------------------------------------- supersession

  lemma {:induction false} NextUnique(atts: seq<Attestation>, events: seq<Event>, a: string, b: string, c: string)
    requires LifecycleSound(atts, events) && Supersedes(events, a, b)
    ensures !Retracts(events, a)
    ensures Supersedes(events, a, c) ==> b == c
  {
    var e :| e in events && e.Lifecycle? && e.subject == a && e.replacement == b;
    forall f | f in events && f.Lifecycle? && f.subject == a ensures f.replacement == b { }
  }

  lemma {:induction false} ChainSnoc(events: seq<Event>, p: seq<string>, b: string)
    requires Chain(events, p) && Supersedes(events, p[|p| - 1], b)
    ensures Chain(events, p + [b])
  {
    forall k | 0 <= k < |p| ensures Link(events, p + [b], k) {
      if k < |p| - 1 { assert Link(events, p, k); }
    }
  }

  lemma {:induction false} ChainDrop(events: seq<Event>, p: seq<string>, j: nat)
    requires Chain(events, p) && j < |p|
    ensures Chain(events, p[j..])
  {
    var q := p[j..];
    forall k | 0 <= k < |q| - 1 ensures Link(events, q, k) { assert Link(events, p, j + k); }
  }

  lemma {:induction false} ChainInit(events: seq<Event>, p: seq<string>)
    requires Chain(events, p) && |p| >= 2
    ensures Chain(events, p[..|p| - 1]) && Supersedes(events, p[|p| - 2], p[|p| - 1])
  {
    var q := p[..|p| - 1];
    forall k | 0 <= k < |q| - 1 ensures Link(events, q, k) { assert Link(events, p, k); }
    assert Link(events, p, |p| - 2);
  }

  lemma {:induction false} ClosesCycle(events: seq<Event>, p: seq<string>, j: nat, b: string)
    requires Chain(events, p) && j < |p| && p[j] == b && Supersedes(events, p[|p| - 1], b)
    ensures Cyclic(events)
  {
    ChainDrop(events, p, j);
    ChainSnoc(events, p[j..], b);
    var q := p[j..] + [b];
    assert q[0] == q[|q| - 1] && |q| >= 2;
  }

  lemma {:induction false} NoRepeat(events: seq<Event>, p: seq<string>, b: string)
    requires Chain(events, p) && Supersedes(events, p[|p| - 1], b) && !Cyclic(events)
    ensures b !in p
  {
    if b in p {
      var j :| 0 <= j < |p| && p[j] == b;
      ClosesCycle(events, p, j, b);
    }
  }

  /** Nothing supersedes `s` any further: it is active or retracted. */
  ghost predicate Final(events: seq<Event>, s: string) { !Ended(events, s) || Retracts(events, s) }

  lemma {:induction false} NotFinal(events: seq<Event>, s: string) returns (b: string)
    requires !Final(events, s)
    ensures Supersedes(events, s, b)
  {
    var e :| e in events && e.Lifecycle? && e.subject == s;
    b := e.replacement;
  }

  ghost predicate Distinct(p: seq<string>) { forall i, j :: 0 <= i < j < |p| ==> p[i] != p[j] }

  function Subjects(events: seq<Event>): set<string> { set e | e in events :: e.subject }

  function Members(p: seq<string>): set<string> { set s | s in p }

  lemma {:induction false} MoreMembers(events: seq<Event>, p: seq<string>)
    requires p != [] && Distinct(p) && p[|p| - 1] in Subjects(events)
    ensures Subjects(events) - Members(p) < Subjects(events) - Members(p[..|p| - 1])
  {
    var init, last := p[..|p| - 1], p[|p| - 1];
    assert p == init + [last];
    assert last !in init && last in p;
    assert last in Subjects(events) - Members(init) && last !in Subjects(events) - Members(p);
  }

  lemma {:induction false} Extend(events: seq<Event>, p: seq<string>) returns (q: seq<string>)
    requires Chain(events, p) && Distinct(p) && !Cyclic(events)
    ensures Chain(events, q) && Distinct(q) && q[0] == p[0] && Final(events, q[|q| - 1])
    decreases Subjects(events) - Members(p[..|p| - 1])
  {
    var last := p[|p| - 1];
    if Final(events, last) {
      q := p;
    } else {
      var b := NotFinal(events, last);
      hide Chain, Final, Cyclic;
      NoRepeat(events, p, b);
      ChainSnoc(events, p, b);
      assert last in Subjects(events) by { SupersedesSubject(events, last, b); }
      MoreMembers(events, p);
      assert (p + [b])[..|p|] == p;
      q := Extend(events, p + [b]);
    }
  }

  lemma {:induction false} SupersedesSubject(events: seq<Event>, a: string, b: string)
    requires Supersedes(events, a, b)
    ensures a in Subjects(events)
  {
  }

  /** Along a chain every attestation has the gate of the first. */
  lemma {:induction false} SameGate(atts: seq<Attestation>, events: seq<Event>, p: seq<string>, a: Attestation, k: nat)
    requires Unique(Ids(atts, events)) && LifecycleSound(atts, events) && Chain(events, p) && k < |p|
    requires a in atts && a.id == p[0]
    ensures exists b :: b in atts && b.id == p[k] && b.gate == a.gate
  {
    if k > 0 {
      SameGate(atts, events, p, a, k - 1);
      var b :| b in atts && b.id == p[k - 1] && b.gate == a.gate;
      assert Link(events, p, k - 1);
      var e :| e in events && e.Lifecycle? && e.subject == p[k - 1] && e.replacement == p[k];
      var x, y :| x in atts && y in atts && x.id == e.subject && y.id == e.replacement && x.gate == y.gate;
      SameAttestation(atts, events, b, x);
    }
  }

  lemma {:induction false} SameAttestation(atts: seq<Attestation>, events: seq<Event>, a: Attestation, b: Attestation)
    requires Unique(Ids(atts, events)) && a in atts && b in atts && a.id == b.id
    ensures a == b
  {
    var i :| 0 <= i < |atts| && atts[i] == a;
    var j :| 0 <= j < |atts| && atts[j] == b;
    assert Ids(atts, events)[i] == Ids(atts, events)[j];
  }

  lemma {:induction false} ChainsAgree(atts: seq<Attestation>, events: seq<Event>, p: seq<string>, q: seq<string>,
                                       k: nat)
    requires LifecycleSound(atts, events) && Chain(events, p) && Chain(events, q)
    requires p[0] == q[0] && k < |p| && k < |q|
    ensures p[k] == q[k]
  {
    if k > 0 {
      ChainsAgree(atts, events, p, q, k - 1);
      assert Link(events, p, k - 1) && Link(events, q, k - 1);
      NextUnique(atts, events, p[k - 1], p[k], q[k]);
    }
  }

  lemma {:induction false} FinalStops(atts: seq<Attestation>, events: seq<Event>, s: string, b: string)
    requires LifecycleSound(atts, events) && Final(events, s)
    ensures !Supersedes(events, s, b)
  {
    if Supersedes(events, s, b) { NextUnique(atts, events, s, b, b); }
  }

  /** The chain from `s` to where it ends. */
  ghost predicate LeadsTo(events: seq<Event>, s: string, p: seq<string>)
  {
    Chain(events, p) && p[0] == s && Final(events, p[|p| - 1])
  }

  /** Every attestation of an accepted ledger leads, without repetition and within its gate,
      to exactly one end: a retraction, or one active attestation. */
  lemma {:induction false} OneHead(atts: seq<Attestation>, events: seq<Event>, released: string, legacy: set<string>,
                                   a: Attestation)
      returns (p: seq<string>)
    requires Accepted(atts, events, released, legacy) && a in atts
    ensures LeadsTo(events, a.id, p) && Distinct(p)
    ensures forall q :: LeadsTo(events, a.id, q) ==> q == p
    ensures exists b :: b in atts && b.id == p[|p| - 1] && b.gate == a.gate
  {
    p := Extend(events, [a.id]);
    SameGate(atts, events, p, a, |p| - 1);
    forall q | LeadsTo(events, a.id, q) ensures q == p {
      SameEnd(atts, events, p, q);
      SameEnd(atts, events, q, p);
      forall k | 0 <= k < |p| ensures p[k] == q[k] { ChainsAgree(atts, events, p, q, k); }
    }
  }

  lemma {:induction false} SameEnd(atts: seq<Attestation>, events: seq<Event>, p: seq<string>, q: seq<string>)
    requires LifecycleSound(atts, events) && Chain(events, p) && Chain(events, q) && p[0] == q[0]
    requires Final(events, p[|p| - 1])
    ensures |q| <= |p|
  {
    if |q| > |p| {
      ChainsAgree(atts, events, p, q, |p| - 1);
      assert Link(events, q, |p| - 1);
      FinalStops(atts, events, p[|p| - 1], q[|p|]);
    }
  }

  /** Chains do not merge: of two that meet, one is the end of the other. */
  lemma {:induction false} ChainsDisjoint(events: seq<Event>, p: seq<string>, q: seq<string>)
    requires OnePredecessor(events) && Chain(events, p) && Chain(events, q)
    requires p[|p| - 1] == q[|q| - 1] && |p| <= |q|
    ensures p == q[|q| - |p|..]
    decreases |p|
  {
    if |p| == 1 {
      assert q[|q| - 1..] == [q[|q| - 1]];
    } else {
      ChainInit(events, p);
      ChainInit(events, q);
      var e :| e in events && e.Lifecycle? && e.subject == p[|p| - 2] && e.replacement == p[|p| - 1];
      var f :| f in events && f.Lifecycle? && f.subject == q[|q| - 2] && f.replacement == q[|q| - 1];
      assert Replaces(e, f);
      var p', q' := p[..|p| - 1], q[..|q| - 1];
      ChainsDisjoint(events, p', q');
      assert p == p' + [p[|p| - 1]];
      assert q[|q| - |p|..] == q'[|q'| - |p'|..] + [q[|q| - 1]];
    }
  }

  // --------------------------------------------------------------- claim deltas

  /** Undoing claim deltas from the last to the first. */
  function FoldBack(claims: set<string>, p: seq<Event>): set<string>
    requires forall i :: 0 <= i < |p| ==> p[i].Rederive?
    decreases |p|
  {
    if p == [] then claims
    else
      var e := p[|p| - 1];
      FoldBack((claims - e.gained) + e.lost, p[..|p| - 1])
  }

  lemma {:induction false} FoldSplit(claims: set<string>, p: seq<Event>)
    requires p != [] && (forall i :: 0 <= i < |p| ==> p[i].Rederive?) && Fold(claims, p).Some?
    ensures Fold(claims, p[..|p| - 1]).Some?
    ensures var c, e := Fold(claims, p[..|p| - 1]).value, p[|p| - 1];
      e.lost <= c && e.gained * c == {} && Fold(claims, p).value == (c - e.lost) + e.gained
    decreases |p|
  {
    if |p| == 1 {
      assert p[..0] == [] && Fold((claims - p[0].lost) + p[0].gained, []) == Some((claims - p[0].lost) + p[0].gained);
      assert p[1..] == [];
    } else {
      FoldSplit((claims - p[0].lost) + p[0].gained, p[1..]);
      assert p[1..][..|p[1..]| - 1] == p[..|p| - 1][1..];
    }
  }

  /** The deltas of an accepted rederivation run backwards to the recorded claims. */
  lemma {:induction false} RunsBackwards(claims: set<string>, p: seq<Event>)
    requires (forall i :: 0 <= i < |p| ==> p[i].Rederive?) && Fold(claims, p).Some?
    ensures FoldBack(Fold(claims, p).value, p) == claims
    decreases |p|
  {
    if p != [] {
      FoldSplit(claims, p);
      var c, e := Fold(claims, p[..|p| - 1]).value, p[|p| - 1];
      assert forall x :: x in c && x in e.gained ==> x in e.gained * c;
      assert (((c - e.lost) + e.gained) - e.gained) + e.lost == c;
      RunsBackwards(claims, p[..|p| - 1]);
    }
  }

  /** An attestation's rederivations can be arranged in one way only. */
  lemma {:induction false} RederivationUnique(a: Attestation, atts: seq<Attestation>, events: seq<Event>,
                                              released: string, p: seq<Event>, q: seq<Event>)
    requires RederiveSound(atts, events)
    requires Rederivation(a, events, released, p) && Rederivation(a, events, released, q)
    ensures p == q
  {
    RederivationPrefix(a, atts, events, released, p, q, if |p| < |q| then |p| else |q|);
    RederivationStops(a, atts, events, released, p, q);
    RederivationStops(a, atts, events, released, q, p);
  }

  lemma {:induction false} StepAt(a: Attestation, events: seq<Event>, released: string, p: seq<Event>, k: nat)
    requires Rederivation(a, events, released, p) && k < |p|
    ensures a.derivation.Some? && forall i :: 0 <= i < |p| ==> p[i].Rederive?
    ensures p[k] in events && p[k].subject == a.id && p[k].prior == At(a.derivation.value, p, k)
    ensures At(a.derivation.value, p, k) != released
  {
  }

  lemma {:induction false} RederivationPrefix(a: Attestation, atts: seq<Attestation>, events: seq<Event>,
                                              released: string, p: seq<Event>, q: seq<Event>, n: nat)
    requires RederiveSound(atts, events) && n <= |p| && n <= |q|
    requires Rederivation(a, events, released, p) && Rederivation(a, events, released, q)
    ensures forall k :: 0 <= k < n ==> p[k] == q[k]
  {
    hide Rederivation;
    if n > 0 {
      RederivationPrefix(a, atts, events, released, p, q, n - 1);
      StepAt(a, events, released, p, n - 1);
      StepAt(a, events, released, q, n - 1);
      assert Compete(p[n - 1], q[n - 1]);
    }
  }

  /** Past the end of another rederivation there is nothing left to use. */
  lemma {:induction false} LongerLeaves(a: Attestation, events: seq<Event>, released: string, p: seq<Event>,
                                        q: seq<Event>)
    requires Rederivation(a, events, released, p) && Rederivation(a, events, released, q)
    requires |p| >= |q| && forall k :: 0 <= k < |q| ==> p[k] == q[k]
    ensures |p| == |q|
  {
    hide Fold;
    assert At(a.derivation.value, p, |q|) == At(a.derivation.value, q, |q|) == released;
  }

  lemma {:induction false} RederivationStops(a: Attestation, atts: seq<Attestation>, events: seq<Event>,
                                             released: string, p: seq<Event>, q: seq<Event>)
    requires RederiveSound(atts, events)
    requires Rederivation(a, events, released, p) && Rederivation(a, events, released, q)
    ensures |p| <= |q|
  {
    hide *;
    if |p| > |q| {
      RederivationPrefix(a, atts, events, released, p, q, |q|);
      LongerLeaves(a, events, released, p, q);
    }
  }

  // ----------------------------------------------------------- order of records

  lemma {:induction false} UniquePermuted(atts: seq<Attestation>, events: seq<Event>, events': seq<Event>)
    requires Unique(Ids(atts, events)) && multiset(events) == multiset(events')
    ensures Unique(Ids(atts, events'))
  {
    var ids, ids' := Ids(atts, events), Ids(atts, events');
    forall i, j | 0 <= i < j < |ids'| ensures ids'[i] != ids'[j] {
      if i < |atts| && j < |atts| {
        assert ids[i] != ids[j];
      } else if i < |atts| {
        assert events'[j - |atts|] in multiset(events);
        var k :| 0 <= k < |events| && events[k] == events'[j - |atts|];
        assert ids[i] != ids[|atts| + k];
      } else {
        EventsPermuted(atts, events, events', i - |atts|, j - |atts|);
      }
    }
  }

  lemma {:induction false} EventsPermuted(atts: seq<Attestation>, events: seq<Event>, events': seq<Event>, i: nat,
                                          j: nat)
    requires Unique(Ids(atts, events)) && multiset(events) == multiset(events') && i < j < |events'|
    ensures events'[i].id != events'[j].id
  {
    var e, f := events'[i], events'[j];
    assert e in multiset(events) && f in multiset(events);
    var k :| 0 <= k < |events| && events[k] == e;
    var l :| 0 <= l < |events| && events[l] == f;
    assert k != l ==> Ids(atts, events)[|atts| + k] != Ids(atts, events)[|atts| + l];
    if e == f {
      assert events' == events'[..j] + [events'[j]] + events'[j + 1..];
      assert e in events'[..j];
      assert multiset(events')[e] >= 2;
      OnceOnly(atts, events, k);
    }
  }

  lemma {:induction false} OnceOnly(atts: seq<Attestation>, events: seq<Event>, k: nat)
    requires Unique(Ids(atts, events)) && k < |events|
    ensures multiset(events)[events[k]] == 1
  {
    var e := events[k];
    assert events == events[..k] + [e] + events[k + 1..];
    forall i | 0 <= i < |events| && i != k ensures events[i] != e {
      assert Ids(atts, events)[|atts| + i] != Ids(atts, events)[|atts| + k];
    }
    assert e !in events[..k] && e !in events[k + 1..];
  }

  /** The verdict does not depend on the order in which events were appended. */
  lemma {:induction false} OrderIrrelevant(atts: seq<Attestation>, events: seq<Event>, events': seq<Event>,
                                           released: string, legacy: set<string>)
    requires multiset(events) == multiset(events')
    ensures Accepted(atts, events, released, legacy) <==> Accepted(atts, events', released, legacy)
  {
    hide Accepted;
    if Accepted(atts, events, released, legacy) { StaysAccepted(atts, events, events', released, legacy); }
    if Accepted(atts, events', released, legacy) { StaysAccepted(atts, events', events, released, legacy); }
  }

  lemma {:induction false} StaysAccepted(atts: seq<Attestation>, events: seq<Event>, events': seq<Event>,
                                         released: string, legacy: set<string>)
    requires Accepted(atts, events, released, legacy) && multiset(events) == multiset(events')
    ensures Accepted(atts, events', released, legacy)
  {
    assert forall e :: e in events <==> e in events' by {
      assert forall e :: e in events <==> e in multiset(events);
      assert forall e :: e in events' <==> e in multiset(events');
    }
    UniquePermuted(atts, events, events');
    SameMembers(atts, events, events', released, legacy);
  }

  lemma {:induction false} SameMembers(atts: seq<Attestation>, events: seq<Event>, events': seq<Event>,
                                       released: string, legacy: set<string>)
    requires forall e :: e in events <==> e in events'
    requires Accepted(atts, events, released, legacy) && Unique(Ids(atts, events'))
    ensures Accepted(atts, events', released, legacy)
  {
    CyclesSame(events, events');
    forall a | a in atts ensures AttestationOk(a, events', released) && HeadOk(a, events', legacy) {
      assert AttestationOk(a, events, released) && HeadOk(a, events, legacy);
      AttestationSame(a, events, events', released, legacy);
    }
    RecordsSame(atts, events, events');
    hide AttestationOk, HeadOk, LifecycleSound, RederiveSound, OnePredecessor, Cyclic, WitnessesBind;
  }

  lemma {:induction false} RecordsSame(atts: seq<Attestation>, events: seq<Event>, events': seq<Event>)
    requires forall e :: e in events <==> e in events'
    ensures WitnessesBind(events) ==> WitnessesBind(events')
    ensures LifecycleSound(atts, events) ==> LifecycleSound(atts, events')
    ensures RederiveSound(atts, events) ==> RederiveSound(atts, events')
    ensures OnePredecessor(events) ==> OnePredecessor(events')
  {
    if WitnessesBind(events) {
      forall w | w in events' && w.Witness?
        ensures exists t :: t in events' && t.id == w.subject && !t.Witness? && t.sha == w.subjectSha
      {
        assert w in events;
        var t :| t in events && t.id == w.subject && !t.Witness? && t.sha == w.subjectSha;
        assert t in events';
      }
    }
  }

  lemma {:induction false} CyclesSame(events: seq<Event>, events': seq<Event>)
    requires forall e :: e in events <==> e in events'
    ensures Cyclic(events') ==> Cyclic(events)
  {
    if Cyclic(events') {
      var p: seq<string> :| Chain(events', p) && |p| >= 2 && p[0] == p[|p| - 1];
      forall k | 0 <= k < |p| - 1 ensures Link(events, p, k) { assert Link(events', p, k); }
      assert Chain(events, p);
    }
  }

  lemma {:induction false} AttestationSame(a: Attestation, events: seq<Event>, events': seq<Event>, released: string,
                                           legacy: set<string>)
    requires forall e :: e in events <==> e in events'
    ensures AttestationOk(a, events, released) ==> AttestationOk(a, events', released)
    ensures HeadOk(a, events, legacy) ==> HeadOk(a, events', legacy)
  {
    if AttestationOk(a, events, released) && a.schema != 1 {
      var p :| Rederivation(a, events, released, p);
      assert Rederivation(a, events', released, p);
    }
  }

  // ------------------------------------------------------------ what acceptance grounds

  /** Every attestation that nothing has ended is of schema 3 or pinned, and its recorded claims lead, along
      all its rederivations, from its own derivation to the released one and to its current claims. */
  lemma {:induction false} ActiveProven(atts: seq<Attestation>, events: seq<Event>, released: string,
                                        legacy: set<string>, a: Attestation) returns (p: seq<Event>)
    requires Accepted(atts, events, released, legacy) && GoodRecords(atts, events) && a in atts
    requires forall e :: e in events && e.Lifecycle? ==> e.subject != a.id
    ensures a.schema == 3 || (a.schema != 1 && a.id in legacy)
    ensures a.derivation.Some? && forall k :: 0 <= k < |p| ==> p[k].Rederive? && p[k].subject == a.id
    ensures forall e :: e in events && e.Rederive? && e.subject == a.id <==> e in p
    ensures forall k :: 0 <= k < |p| ==> p[k].prior == if k == 0 then a.derivation.value else p[k - 1].next
    ensures released == if p == [] then a.derivation.value else p[|p| - 1].next
    ensures Fold(a.recorded, p) == Some(a.current)
  {
    hide *;
    ActiveOk(atts, events, released, legacy, a);
    p :| Rederivation(a, events, released, p);
    RederivationSays(a, events, released, p);
  }

  lemma {:induction false} ActiveOk(atts: seq<Attestation>, events: seq<Event>, released: string,
                                    legacy: set<string>, a: Attestation)
    requires Accepted(atts, events, released, legacy) && GoodRecords(atts, events) && a in atts
    requires forall e :: e in events && e.Lifecycle? ==> e.subject != a.id
    ensures a.schema == 3 || (a.schema != 1 && a.id in legacy)
    ensures exists p :: Rederivation(a, events, released, p)
  {
    hide Rederivation, Cyclic, OnePredecessor, LifecycleSound, RederiveSound, WitnessesBind, Unique;
    assert AttestationOk(a, events, released) && HeadOk(a, events, legacy) && !Ended(events, a.id);
  }

  lemma {:induction false} RederivationSays(a: Attestation, events: seq<Event>, released: string, p: seq<Event>)
    requires Rederivation(a, events, released, p)
    ensures a.derivation.Some? && forall k :: 0 <= k < |p| ==> p[k].Rederive? && p[k].subject == a.id
    ensures forall e :: e in events && e.Rederive? && e.subject == a.id <==> e in p
    ensures forall k :: 0 <= k < |p| ==> p[k].prior == if k == 0 then a.derivation.value else p[k - 1].next
    ensures released == if p == [] then a.derivation.value else p[|p| - 1].next
    ensures Fold(a.recorded, p) == Some(a.current)
  {
    hide Fold;
    assert At(a.derivation.value, p, |p|) == released;
    forall k | 0 <= k < |p| ensures p[k].prior == if k == 0 then a.derivation.value else p[k - 1].next {
      assert p[k].prior == At(a.derivation.value, p, k);
    }
  }

  /** Every witness names an event of an attestation in the ledger, and its digest. */
  lemma {:induction false} WitnessGrounded(atts: seq<Attestation>, events: seq<Event>, released: string,
                                           legacy: set<string>, w: Event) returns (t: Event, a: Attestation)
    requires Accepted(atts, events, released, legacy) && w in events && w.Witness?
    ensures t in events && !t.Witness? && t.id == w.subject && t.sha == w.subjectSha
    ensures a in atts && a.id == t.subject
    ensures forall e :: e in events && e.id == w.subject ==> e == t
  {
    hide Cyclic, OnePredecessor, LifecycleSound, RederiveSound, AttestationOk, HeadOk;
    t :| t in events && t.id == w.subject && !t.Witness? && t.sha == w.subjectSha;
    a :| a in atts && a.id == t.subject;
    forall e | e in events && e.id == w.subject ensures e == t { SameEvent(atts, events, e, t); }
  }

  lemma {:induction false} SameEvent(atts: seq<Attestation>, events: seq<Event>, e: Event, f: Event)
    requires Unique(Ids(atts, events)) && e in events && f in events && e.id == f.id
    ensures e == f
  {
    var i :| 0 <= i < |events| && events[i] == e;
    var j :| 0 <= j < |events| && events[j] == f;
    var ids := Ids(atts, events);
    assert ids[|atts| + i] == e.id && ids[|atts| + j] == f.id;
  }

  /** No record of an accepted ledger has the id of another. */
  lemma {:induction false} RecordsApart(atts: seq<Attestation>, events: seq<Event>, released: string,
                                        legacy: set<string>)
    requires Accepted(atts, events, released, legacy)
    ensures forall i, j :: 0 <= i < j < |atts| ==> atts[i].id != atts[j].id
    ensures forall i, j :: 0 <= i < j < |events| ==> events[i].id != events[j].id
    ensures forall i, j :: 0 <= i < |atts| && 0 <= j < |events| ==> atts[i].id != events[j].id
  {
    hide Cyclic, OnePredecessor, LifecycleSound, RederiveSound, AttestationOk, HeadOk, WitnessesBind;
    var ids := Ids(atts, events);
    forall i, j | 0 <= i < j < |atts| ensures atts[i].id != atts[j].id { assert ids[i] != ids[j]; }
    forall i, j | 0 <= i < j < |events| ensures events[i].id != events[j].id {
      assert ids[|atts| + i] != ids[|atts| + j];
    }
    forall i, j | 0 <= i < |atts| && 0 <= j < |events| ensures atts[i].id != events[j].id {
      assert ids[i] != ids[|atts| + j];
    }
  }

  /** How often events gain and lose a claim. */
  function Gains(p: seq<Event>, c: string): int
    requires forall i :: 0 <= i < |p| ==> p[i].Rederive?
  {
    if p == [] then 0 else (if c in p[0].gained then 1 else 0) + Gains(p[1..], c)
  }

  function Losses(p: seq<Event>, c: string): int
    requires forall i :: 0 <= i < |p| ==> p[i].Rederive?
  {
    if p == [] then 0 else (if c in p[0].lost then 1 else 0) + Losses(p[1..], c)
  }

  /** Claims are conserved: a claim is held at the end exactly as often as it was held at the start and
      gained, less the times it was lost. */
  lemma {:induction false} ClaimsConserved(claims: set<string>, p: seq<Event>, c: string)
    requires (forall i :: 0 <= i < |p| ==> p[i].Rederive?) && Fold(claims, p).Some?
    ensures (if c in Fold(claims, p).value then 1 else 0) ==
      (if c in claims then 1 else 0) + Gains(p, c) - Losses(p, c)
    decreases |p|
  {
    if p != [] {
      var next := (claims - p[0].lost) + p[0].gained;
      ClaimsConserved(next, p[1..], c);
      assert c in p[0].gained * claims <==> c in p[0].gained && c in claims;
    }
  }

  /** A run of deltas goes through exactly when none loses a claim that is not held or gains one that is. */
  lemma {:induction false} FoldExactly(claims: set<string>, p: seq<Event>)
    requires forall i :: 0 <= i < |p| ==> p[i].Rederive?
    ensures Fold(claims, p).Some? <==>
      forall k :: 0 <= k < |p| ==>
        Fold(claims, p[..k]).Some? && p[k].lost <= Fold(claims, p[..k]).value
        && p[k].gained * Fold(claims, p[..k]).value == {}
    decreases |p|
  {
    if p == [] {
    } else {
      var init, last := p[..|p| - 1], p[|p| - 1];
      FoldExactly(claims, init);
      forall k | 0 <= k < |init| ensures init[..k] == p[..k] { }
      FoldLast(claims, p);
    }
  }

  lemma {:induction false} FoldLast(claims: set<string>, p: seq<Event>)
    requires p != [] && forall i :: 0 <= i < |p| ==> p[i].Rederive?
    ensures
      var init, last := p[..|p| - 1], p[|p| - 1];
      Fold(claims, p).Some? <==>
        && Fold(claims, init).Some? && last.lost <= Fold(claims, init).value
        && last.gained * Fold(claims, init).value == {}
    decreases |p|
  {
    if |p| == 1 {
      assert p[..0] == [] && p[1..] == [];
    } else {
      var next := (claims - p[0].lost) + p[0].gained;
      assert p[1..][..|p| - 2] == p[..|p| - 1][1..];
      assert p[..|p| - 1][0] == p[0] && p[1..][|p| - 2] == p[|p| - 1];
      if p[0].lost <= claims && p[0].gained * claims == {} { FoldLast(next, p[1..]); }
    }
  }
}
