/**
 * The push-subscription store with every operation cut into its SQL
 * statements, which run outside a transaction: any number of connections
 * interleave them freely. Each statement is atomic and succeeds, but for an
 * insert of a topic whose subscription is gone, which the foreign key refuses.
 */
module PushRuns {
  import opened PushStore

  /** A Subscribe between its upsert, which returned `id`, and its insert of the topic. */
  datatype Pending = Pending(id: Id, endpoint: string, subject: string)

  /**
   * `unsubscribing` holds the endpoints of the Unsubscribes between their two
   * deletes; `used` every UUID drawn so far.
   */
  datatype State = State(
    t: Tables, subscribing: multiset<Pending>, unsubscribing: multiset<string>, used: set<Id>)

  datatype Action =
    | Upsert(endpoint: string, subject: string, details: Details, newId: Id)
    | InsertTopic(p: Pending)
    | DeleteTopic(endpoint: string, subject: string)
    | DeleteIdle(endpoint: string)
    | DeleteEndpoint(endpoint: string)

  const INITIAL := State(EMPTY, multiset{}, multiset{}, {})

  // ---------- the statements ----------

  ghost function Upserted(t: Tables, endpoint: string, details: Details, newId: Id): Tables {
    t.(subscriptions := t.subscriptions[IdFor(t, endpoint, newId) := Row(endpoint, details)])
  }

  /** INSERT of a topic: nothing on conflict, and an error when the subscription is gone. */
  function TopicInserted(t: Tables, id: Id, subject: string): Tables {
    if id in t.subscriptions then t.(topics := t.topics + {(id, subject)}) else t
  }

  function IdleDeleted(t: Tables, endpoint: string): Tables {
    DeleteRows(t, Idle(t, endpoint))
  }

  /** Run one after the other, the statements are the operations. */
  lemma StatementsCompose(t: Tables, endpoint: string, subject: string, details: Details, newId: Id)
    requires Valid(t) && newId !in t.subscriptions
    ensures TopicInserted(Upserted(t, endpoint, details, newId), IdFor(t, endpoint, newId), subject)
         == Subscribing(t, endpoint, subject, details, newId)
    ensures IdleDeleted(WithoutTopic(t, endpoint, subject), endpoint) == Unsubscribing(t, endpoint, subject)
  {
  }

  ghost predicate Enabled(s: State, a: Action) {
    match a
    case Upsert(_, _, _, newId) => newId !in s.used
    case InsertTopic(p) => p in s.subscribing
    case DeleteTopic(_, _) => true
    case DeleteIdle(endpoint) => endpoint in s.unsubscribing
    case DeleteEndpoint(_) => true
  }

  ghost function Step(s: State, a: Action): State
    requires Enabled(s, a)
  {
    match a
    case Upsert(endpoint, subject, details, newId) =>
      State(Upserted(s.t, endpoint, details, newId),
            s.subscribing + multiset{Pending(IdFor(s.t, endpoint, newId), endpoint, subject)},
            s.unsubscribing, s.used + {newId})
    case InsertTopic(p) =>
      s.(t := TopicInserted(s.t, p.id, p.subject), subscribing := s.subscribing - multiset{p})
    case DeleteTopic(endpoint, subject) =>
      s.(t := WithoutTopic(s.t, endpoint, subject), unsubscribing := s.unsubscribing + multiset{endpoint})
    case DeleteIdle(endpoint) =>
      s.(t := IdleDeleted(s.t, endpoint), unsubscribing := s.unsubscribing - multiset{endpoint})
    case DeleteEndpoint(endpoint) => s.(t := Deleting(s.t, endpoint))
  }

  // ---------- the invariant ----------

  ghost predicate HasTopic(t: Tables, i: Id) {
    exists p :: p in t.topics && p.0 == i
  }

  /** Some operation under way will give the row a topic or delete it. */
  ghost predicate Covered(s: State, i: Id)
    requires i in s.t.subscriptions
  {
    (exists p :: p in s.subscribing && p.id == i) || s.t.subscriptions[i].endpoint in s.unsubscribing
  }

  ghost predicate Inv(s: State) {
    && UniqueEndpoints(s.t) && NoDanglingTopics(s.t)
    && (forall i :: i in s.t.subscriptions ==> i in s.used)
    && (forall p :: p in s.subscribing ==> p.id in s.used)
    && (forall p :: p in s.subscribing && p.id in s.t.subscriptions ==> s.t.subscriptions[p.id].endpoint == p.endpoint)
    && (forall i :: i in s.t.subscriptions ==> HasTopic(s.t, i) || Covered(s, i))
  }

  /** What a statement does to the set of pairs: only three kinds touch it, each at once. */
  function OnPairs(s: State, a: Action, pairs: set<(string, string)>): set<(string, string)> {
    match a
    case Upsert(_, _, _, _) => pairs
    case InsertTopic(p) => if p.id in s.t.subscriptions then pairs + {(p.endpoint, p.subject)} else pairs
    case DeleteTopic(endpoint, subject) => pairs - {(endpoint, subject)}
    case DeleteIdle(_) => pairs
    case DeleteEndpoint(endpoint) => set p | p in pairs && p.0 != endpoint
  }

  lemma UpsertKeepsInv(s: State, a: Action)
    requires Inv(s) && a.Upsert? && Enabled(s, a)
    ensures Inv(Step(s, a))
  {
    hide IdFor;
    TheId(s.t, a.endpoint, a.newId);
    var id := IdFor(s.t, a.endpoint, a.newId);
    var s' := Step(s, a);
    var mine := Pending(id, a.endpoint, a.subject);
    assert mine in s'.subscribing;
    forall i | i in s'.t.subscriptions ensures HasTopic(s'.t, i) || Covered(s', i) {
      if i != id {
        assert HasTopic(s.t, i) || Covered(s, i);
      }
    }
  }

  lemma UpsertKeeps(s: State, a: Action)
    requires Inv(s) && a.Upsert? && Enabled(s, a)
    ensures Inv(Step(s, a)) && Pairs(Step(s, a).t) == Pairs(s.t)
  {
    hide IdFor, Pairs, HasTopic, Covered;
    UpsertKeepsInv(s, a);
    TheId(s.t, a.endpoint, a.newId);
    var s' := Step(s, a);
    forall e, x ensures Subscribed(s'.t, e, x) <==> (e, x) in Pairs(s.t) {
      PairsExact(s.t, e, x);
      if Subscribed(s.t, e, x) {
        var i :| i in s.t.subscriptions && s.t.subscriptions[i].endpoint == e && (i, x) in s.t.topics;
        assert s'.t.subscriptions[i].endpoint == e && (i, x) in s'.t.topics;
      }
    }
    PairsEqual(s'.t, Pairs(s.t));
  }

  lemma InsertKeeps(s: State, a: Action)
    requires Inv(s) && a.InsertTopic? && Enabled(s, a)
    ensures Inv(Step(s, a)) && Pairs(Step(s, a).t) == OnPairs(s, a, Pairs(s.t))
    ensures a.p.id in s.t.subscriptions ==>
      ((a.p.id, a.p.subject) in s.t.topics <==> (a.p.endpoint, a.p.subject) in Pairs(s.t))
  {
    hide Pairs;
    var p, s' := a.p, Step(s, a);
    forall i | i in s'.t.subscriptions ensures HasTopic(s'.t, i) || Covered(s', i) {
      if i == p.id {
        assert (i, p.subject) in s'.t.topics;
      } else if HasTopic(s.t, i) {
        var q :| q in s.t.topics && q.0 == i;
        assert q in s'.t.topics;
      }
    }
    if p.id in s.t.subscriptions {
      var wanted := Pairs(s.t) + {(p.endpoint, p.subject)};
      forall e, x ensures Subscribed(s'.t, e, x) <==> (e, x) in wanted {
        PairsExact(s.t, e, x);
        if Subscribed(s.t, e, x) {
          var i :| i in s.t.subscriptions && s.t.subscriptions[i].endpoint == e && (i, x) in s.t.topics;
          assert (i, x) in s'.t.topics;
        }
        assert (p.id, p.subject) in s'.t.topics;
      }
      PairsEqual(s'.t, wanted);
      PairsExact(s.t, p.endpoint, p.subject);
    }
  }

  lemma DeleteTopicKeeps(s: State, a: Action)
    requires Inv(s) && a.DeleteTopic? && Enabled(s, a)
    ensures Inv(Step(s, a)) && Pairs(Step(s, a).t) == OnPairs(s, a, Pairs(s.t))
    ensures (exists p :: p in s.t.topics && p.0 in Of(s.t, a.endpoint) && p.1 == a.subject)
       <==> (a.endpoint, a.subject) in Pairs(s.t)
  {
    hide Pairs;
    var s' := Step(s, a);
    forall i | i in s'.t.subscriptions ensures HasTopic(s'.t, i) || Covered(s', i) {
      if s.t.subscriptions[i].endpoint != a.endpoint && HasTopic(s.t, i) {
        var q :| q in s.t.topics && q.0 == i;
        assert q in s'.t.topics;
      }
    }
    var wanted := Pairs(s.t) - {(a.endpoint, a.subject)};
    forall e, x ensures Subscribed(s'.t, e, x) <==> (e, x) in wanted {
      PairsExact(s.t, e, x);
      if Subscribed(s.t, e, x) && (e, x) != (a.endpoint, a.subject) {
        var i :| i in s.t.subscriptions && s.t.subscriptions[i].endpoint == e && (i, x) in s.t.topics;
        assert (i, x) in s'.t.topics;
      }
    }
    PairsEqual(s'.t, wanted);
    PairsExact(s.t, a.endpoint, a.subject);
    if p :| p in s.t.topics && p.0 in Of(s.t, a.endpoint) && p.1 == a.subject {
      assert (p.0, a.subject) in s.t.topics;
    }
    if Subscribed(s.t, a.endpoint, a.subject) {
      var i :| i in s.t.subscriptions && s.t.subscriptions[i].endpoint == a.endpoint && (i, a.subject) in s.t.topics;
      assert (i, a.subject).0 in Of(s.t, a.endpoint);
    }
  }

  /** Deleting rows, with the cascade, keeps the pairs of the endpoints that are left. */
  lemma RowsGo(t: Tables, ids: set<Id>, wanted: set<(string, string)>)
    requires NoDanglingTopics(t)
    requires forall e, x :: (e, x) in wanted <==>
      exists i :: i in t.subscriptions && i !in ids && t.subscriptions[i].endpoint == e && (i, x) in t.topics
    ensures NoDanglingTopics(DeleteRows(t, ids)) && Pairs(DeleteRows(t, ids)) == wanted
  {
    hide Pairs;
    var t' := DeleteRows(t, ids);
    forall e, x ensures Subscribed(t', e, x) <==> (e, x) in wanted {
      if (e, x) in wanted {
        var i :| i in t.subscriptions && i !in ids && t.subscriptions[i].endpoint == e && (i, x) in t.topics;
        assert i in t'.subscriptions && (i, x) in t'.topics;
      }
      if Subscribed(t', e, x) {
        var i :| i in t'.subscriptions && t'.subscriptions[i].endpoint == e && (i, x) in t'.topics;
        assert i in t.subscriptions && i !in ids;
      }
    }
    PairsEqual(t', wanted);
  }

  lemma DeleteIdleKeeps(s: State, a: Action)
    requires Inv(s) && a.DeleteIdle? && Enabled(s, a)
    ensures Inv(Step(s, a)) && Pairs(Step(s, a).t) == Pairs(s.t)
  {
    hide Pairs;
    var ids, s' := Idle(s.t, a.endpoint), Step(s, a);
    forall e, x ensures (e, x) in Pairs(s.t) <==>
      exists i :: i in s.t.subscriptions && i !in ids && s.t.subscriptions[i].endpoint == e && (i, x) in s.t.topics
    {
      PairsExact(s.t, e, x);
      if Subscribed(s.t, e, x) {
        var i :| i in s.t.subscriptions && s.t.subscriptions[i].endpoint == e && (i, x) in s.t.topics;
        assert i !in ids;
      }
    }
    RowsGo(s.t, ids, Pairs(s.t));
    forall i | i in s'.t.subscriptions ensures HasTopic(s'.t, i) || Covered(s', i) {
      if HasTopic(s.t, i) {
        var q :| q in s.t.topics && q.0 == i;
        assert q in s'.t.topics;
      }
    }
  }

  lemma DeleteEndpointKeeps(s: State, a: Action)
    requires Inv(s) && a.DeleteEndpoint?
    ensures Inv(Step(s, a)) && Pairs(Step(s, a).t) == OnPairs(s, a, Pairs(s.t))
  {
    hide Pairs;
    var ids, s' := Of(s.t, a.endpoint), Step(s, a);
    var wanted := OnPairs(s, a, Pairs(s.t));
    forall e, x ensures (e, x) in wanted <==>
      exists i :: i in s.t.subscriptions && i !in ids && s.t.subscriptions[i].endpoint == e && (i, x) in s.t.topics
    {
      PairsExact(s.t, e, x);
    }
    RowsGo(s.t, ids, wanted);
    forall i | i in s'.t.subscriptions ensures HasTopic(s'.t, i) || Covered(s', i) {
      if HasTopic(s.t, i) {
        var q :| q in s.t.topics && q.0 == i;
        assert q in s'.t.topics;
      }
    }
  }

  /**
   * Every statement keeps the invariant and changes the set of pairs at once
   * or not at all; what it reports as inserted or deleted is what it changed.
   */
  lemma StepRefines(s: State, a: Action)
    requires Inv(s) && Enabled(s, a)
    ensures Inv(Step(s, a)) && Pairs(Step(s, a).t) == OnPairs(s, a, Pairs(s.t))
    ensures a.InsertTopic? && a.p.id in s.t.subscriptions ==>
      ((a.p.id, a.p.subject) in s.t.topics <==> (a.p.endpoint, a.p.subject) in Pairs(s.t))
    ensures a.DeleteTopic? ==>
      ((exists p :: p in s.t.topics && p.0 in Of(s.t, a.endpoint) && p.1 == a.subject)
       <==> (a.endpoint, a.subject) in Pairs(s.t))
  {
    hide Inv, Step, Pairs;
    match a {
      case Upsert(_, _, _, _) => UpsertKeeps(s, a);
      case InsertTopic(_) => InsertKeeps(s, a);
      case DeleteTopic(_, _) => DeleteTopicKeeps(s, a);
      case DeleteIdle(_) => DeleteIdleKeeps(s, a);
      case DeleteEndpoint(_) => DeleteEndpointKeeps(s, a);
    }
  }

  // ---------- runs ----------

  ghost predicate Possible(s: State, actions: seq<Action>)
    decreases |actions|
  {
    actions == [] || (Enabled(s, actions[0]) && Possible(Step(s, actions[0]), actions[1..]))
  }

  ghost function Run(s: State, actions: seq<Action>): State
    requires Possible(s, actions)
    decreases |actions|
  {
    if actions == [] then s else Run(Step(s, actions[0]), actions[1..])
  }

  /** The set of pairs that the statements of a run describe, each taking effect at once. */
  ghost function PairsAfter(s: State, actions: seq<Action>, pairs: set<(string, string)>): set<(string, string)>
    requires Possible(s, actions)
    decreases |actions|
  {
    if actions == [] then pairs
    else PairsAfter(Step(s, actions[0]), actions[1..], OnPairs(s, actions[0], pairs))
  }

  lemma {:induction false} RunRefinesFrom(s: State, actions: seq<Action>)
    requires Inv(s) && Possible(s, actions)
    ensures Inv(Run(s, actions)) && Pairs(Run(s, actions).t) == PairsAfter(s, actions, Pairs(s.t))
    decreases |actions|
  {
    hide Inv, Step, Pairs, Enabled;
    if actions != [] {
      StepRefines(s, actions[0]);
      RunRefinesFrom(Step(s, actions[0]), actions[1..]);
    }
  }

  /**
   * In every interleaving from empty tables: endpoints stay unique, no topic
   * dangles, the tables stand for the set of pairs the statements describe, and
   * whenever no operation is under way no subscription is without a topic.
   */
  lemma RunRefines(actions: seq<Action>)
    requires Possible(INITIAL, actions)
    ensures var s := Run(INITIAL, actions);
      && UniqueEndpoints(s.t) && NoDanglingTopics(s.t)
      && Pairs(s.t) == PairsAfter(INITIAL, actions, {})
      && (s.subscribing == multiset{} && s.unsubscribing == multiset{} ==> Valid(s.t))
  {
    assert Inv(INITIAL) && Pairs(INITIAL.t) == {};
    RunRefinesFrom(INITIAL, actions);
    var s := Run(INITIAL, actions);
    if s.subscribing == multiset{} && s.unsubscribing == multiset{} {
      forall i | i in s.t.subscriptions ensures exists p :: p in s.t.topics && p.0 == i {
        assert HasTopic(s.t, i) || Covered(s, i);
      }
    }
  }

  /**
   * A statement removes a subscription's row exactly when it deletes the
   * endpoint, or ends an Unsubscribe of it while the row has no topic; none
   * brings a row back.
   */
  lemma RowLeaves(s: State, a: Action, i: Id)
    requires Inv(s) && Enabled(s, a) && i in s.used
    ensures i in Step(s, a).t.subscriptions <==>
      && i in s.t.subscriptions
      && !(a.DeleteEndpoint? && a.endpoint == s.t.subscriptions[i].endpoint)
      && !(a.DeleteIdle? && a.endpoint == s.t.subscriptions[i].endpoint && !HasTopic(s.t, i))
  {
    if a.Upsert? {
      TheId(s.t, a.endpoint, a.newId);
      hide IdFor;
    }
  }

  lemma EndpointKept(s: State, a: Action, i: Id)
    requires Inv(s) && Enabled(s, a) && i in s.t.subscriptions && i in Step(s, a).t.subscriptions
    ensures Step(s, a).t.subscriptions[i].endpoint == s.t.subscriptions[i].endpoint
  {
    if a.Upsert? {
      TheId(s.t, a.endpoint, a.newId);
      hide IdFor;
    }
  }

  /** The statement deletes the row that `p` is about to give a topic. */
  ghost predicate Kills(s: State, a: Action, p: Pending) {
    a == DeleteEndpoint(p.endpoint) || (a == DeleteIdle(p.endpoint) && !HasTopic(s.t, p.id))
  }

  /** No statement of the run does so in the state it meets. */
  ghost predicate Spared(s: State, actions: seq<Action>, p: Pending)
    requires Possible(s, actions)
    decreases |actions|
  {
    actions == [] || (!Kills(s, actions[0], p) && Spared(Step(s, actions[0]), actions[1..], p))
  }

  lemma {:induction false} StaysGone(s: State, actions: seq<Action>, i: Id)
    requires Inv(s) && Possible(s, actions) && i in s.used && i !in s.t.subscriptions
    ensures i !in Run(s, actions).t.subscriptions
    decreases |actions|
  {
    if actions != [] {
      StepRefines(s, actions[0]);
      RowLeaves(s, actions[0], i);
      assert i in Step(s, actions[0]).used;
      hide Inv, Step, Enabled;
      StaysGone(Step(s, actions[0]), actions[1..], i);
    }
  }

  /** Over any stretch of a run, a row is still there exactly when no statement in it removes it. */
  lemma {:induction false} RowSurvives(s: State, actions: seq<Action>, p: Pending)
    requires Inv(s) && Possible(s, actions)
    requires p.id in s.used && p.id in s.t.subscriptions && s.t.subscriptions[p.id].endpoint == p.endpoint
    ensures p.id in Run(s, actions).t.subscriptions <==> Spared(s, actions, p)
    decreases |actions|
  {
    if actions != [] {
      var a, s' := actions[0], Step(s, actions[0]);
      StepRefines(s, a);
      RowLeaves(s, a, p.id);
      assert p.id in s'.used;
      if p.id in s'.t.subscriptions {
        EndpointKept(s, a, p.id);
        hide Inv, Step, Enabled, HasTopic;
        RowSurvives(s', actions[1..], p);
      } else {
        hide Inv, Step, Enabled, HasTopic;
        StaysGone(s', actions[1..], p.id);
      }
    }
  }

  /**
   * A Subscribe that upserts in `s` is refused its topic after any run of other
   * statements exactly when one of them removed its row: its endpoint was
   * deleted, or an Unsubscribe of it ended while the row had no topic. If it is
   * not refused, its pair is in the set afterwards.
   */
  lemma SubscribeRefusedExact(s: State, upsert: Action, others: seq<Action>)
    requires Inv(s) && upsert.Upsert? && Enabled(s, upsert) && Possible(Step(s, upsert), others)
    requires Pending(IdFor(s.t, upsert.endpoint, upsert.newId), upsert.endpoint, upsert.subject)
          in Run(Step(s, upsert), others).subscribing
    ensures var p := Pending(IdFor(s.t, upsert.endpoint, upsert.newId), upsert.endpoint, upsert.subject);
      var s' := Run(Step(s, upsert), others);
      && Enabled(s', InsertTopic(p))
      && (p.id !in s'.t.subscriptions <==> !Spared(Step(s, upsert), others, p))
      && (p.id !in s'.t.subscriptions ==> Step(s', InsertTopic(p)).t == s'.t)
      && Inv(Step(s', InsertTopic(p)))
      && (p.id in s'.t.subscriptions ==> (p.endpoint, p.subject) in Pairs(Step(s', InsertTopic(p)).t))
  {
    hide IdFor, Pairs;
    var p := Pending(IdFor(s.t, upsert.endpoint, upsert.newId), upsert.endpoint, upsert.subject);
    var s1 := Step(s, upsert);
    StepRefines(s, upsert);
    assert p in s1.subscribing;
    assert p.id in s1.t.subscriptions && s1.t.subscriptions[p.id].endpoint == p.endpoint;
    RowSurvives(s1, others, p);
    RunRefinesFrom(s1, others);
    var s' := Run(s1, others);
    StepRefines(s', InsertTopic(p));
  }

  /**
   * A Subscribe can fail: an Unsubscribe of the same endpoint that ends between
   * its two statements deletes the row it is about to give a topic.
   */
  lemma SubscribeCanFail(endpoint: string, subject: string, details: Details, id: Id)
    ensures var run := [DeleteTopic(endpoint, subject), Upsert(endpoint, subject, details, id), DeleteIdle(endpoint)];
      && Possible(INITIAL, run)
      && Pending(id, endpoint, subject) in Run(INITIAL, run).subscribing
      && id !in Run(INITIAL, run).t.subscriptions
  {
    var a, b, c := DeleteTopic(endpoint, subject), Upsert(endpoint, subject, details, id), DeleteIdle(endpoint);
    var s1 := Step(INITIAL, a);
    var s2 := Step(s1, b);
    var s3 := Step(s2, c);
    assert [a, b, c][1..] == [b, c] && [b, c][1..] == [c] && [c][1..] == [];
    assert s1.t == EMPTY;
    assert forall i :: !IdOf(EMPTY, endpoint, i);
    assert IdFor(s1.t, endpoint, id) == id;
    assert s2.t.subscriptions == map[id := Row(endpoint, details)] && s2.t.topics == {};
    assert id in Idle(s2.t, endpoint);
    assert Possible(s3, []) && Possible(s2, [c]) && Possible(s1, [b, c]);
    assert Run(INITIAL, [a, b, c]) == Run(s1, [b, c]) == Run(s2, [c]) == s3;
  }
}
