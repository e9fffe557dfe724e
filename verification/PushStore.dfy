/**
 * The push-subscription store (push_repo.go): a table of subscriptions and a
 * table of their topics. Together they behave as one set of
 * (endpoint, subject) pairs with the latest details per endpoint.
 */
module PushStore {
  import opened Basics

  datatype Id = Uuid(text: string)

  /** The columns of push_subscriptions an upsert replaces. */
  datatype Details = Details(p256dh: string, auth: string, expirationTime: Option<int>, userAgent: string)

  datatype Row = Row(endpoint: string, details: Details)

  datatype Tables = Tables(subscriptions: map<Id, Row>, topics: set<(Id, string)>)

  // ---------- what the tables stand for ----------

  /** The subscriptions, one per endpoint, that a row exists for. */
  ghost predicate UniqueEndpoints(t: Tables) {
    forall i, j :: i in t.subscriptions && j in t.subscriptions && t.subscriptions[i].endpoint == t.subscriptions[j].endpoint ==> i == j
  }

  /** Topics never dangle: the foreign key of push_subscription_topics. */
  ghost predicate NoDanglingTopics(t: Tables) {
    forall p :: p in t.topics ==> p.0 in t.subscriptions
  }

  /** No subscription is left without a topic. */
  ghost predicate NoIdleSubscriptions(t: Tables) {
    forall i :: i in t.subscriptions ==> exists p :: p in t.topics && p.0 == i
  }

  ghost predicate Valid(t: Tables) {
    UniqueEndpoints(t) && NoDanglingTopics(t) && NoIdleSubscriptions(t)
  }

  ghost predicate Subscribed(t: Tables, endpoint: string, subject: string) {
    exists i :: i in t.subscriptions && t.subscriptions[i].endpoint == endpoint && (i, subject) in t.topics
  }

  ghost predicate DetailsOf(t: Tables, endpoint: string, details: Details) {
    exists i :: i in t.subscriptions && t.subscriptions[i] == Row(endpoint, details)
  }

  /** The pairs: what the two tables say together. */
  ghost function Pairs(t: Tables): set<(string, string)>
    requires NoDanglingTopics(t)
  {
    set p | p in t.topics :: (t.subscriptions[p.0].endpoint, p.1)
  }

  lemma PairsExact(t: Tables, endpoint: string, subject: string)
    requires NoDanglingTopics(t)
    ensures (endpoint, subject) in Pairs(t) <==> Subscribed(t, endpoint, subject)
  {
    if (endpoint, subject) in Pairs(t) {
      var p :| p in t.topics && (t.subscriptions[p.0].endpoint, p.1) == (endpoint, subject);
      assert (p.0, subject) in t.topics;
    }
    if Subscribed(t, endpoint, subject) {
      var i :| i in t.subscriptions && t.subscriptions[i].endpoint == endpoint && (i, subject) in t.topics;
      assert (t.subscriptions[(i, subject).0].endpoint, (i, subject).1) == (endpoint, subject);
    }
  }

  lemma PairsEqual(t: Tables, wanted: set<(string, string)>)
    requires NoDanglingTopics(t)
    requires forall e, s :: Subscribed(t, e, s) <==> (e, s) in wanted
    ensures Pairs(t) == wanted
  {
    forall p: (string, string) ensures p in Pairs(t) <==> p in wanted {
      PairsExact(t, p.0, p.1);
    }
  }

  // ---------- the operations on the tables ----------

  ghost predicate IdOf(t: Tables, endpoint: string, id: Id) {
    id in t.subscriptions && t.subscriptions[id].endpoint == endpoint
  }

  /** The id INSERT ... ON CONFLICT (endpoint) DO UPDATE ... RETURNING id gives back; `newId` is the new UUID. */
  ghost function IdFor(t: Tables, endpoint: string, newId: Id): Id {
    if i :| IdOf(t, endpoint, i) then i else newId
  }

  ghost function Subscribing(t: Tables, endpoint: string, subject: string, details: Details, newId: Id): Tables {
    var id := IdFor(t, endpoint, newId);
    Tables(t.subscriptions[id := Row(endpoint, details)], t.topics + {(id, subject)})
  }

  function Of(t: Tables, endpoint: string): set<Id> {
    set i | i in t.subscriptions && t.subscriptions[i].endpoint == endpoint
  }

  /** DELETE of the subscriptions `ids`, with the cascade to their topics. */
  function DeleteRows(t: Tables, ids: set<Id>): Tables {
    Tables(t.subscriptions - ids, set p | p in t.topics && p.0 !in ids)
  }

  function WithoutTopic(t: Tables, endpoint: string, subject: string): Tables {
    t.(topics := set p | p in t.topics && !(p.0 in Of(t, endpoint) && p.1 == subject))
  }

  function Idle(t: Tables, endpoint: string): set<Id> {
    set i | i in Of(t, endpoint) && forall p | p in t.topics :: p.0 != i
  }

  function Unsubscribing(t: Tables, endpoint: string, subject: string): Tables {
    var rest := WithoutTopic(t, endpoint, subject);
    DeleteRows(rest, Idle(rest, endpoint))
  }

  function Deleting(t: Tables, endpoint: string): Tables {
    DeleteRows(t, Of(t, endpoint))
  }

  // ---------- each operation refines one on the set of pairs ----------

  lemma TheId(t: Tables, endpoint: string, newId: Id)
    requires UniqueEndpoints(t) && newId !in t.subscriptions
    ensures var id := IdFor(t, endpoint, newId);
      && (forall i :: i in t.subscriptions && t.subscriptions[i].endpoint == endpoint ==> i == id)
      && (if id in t.subscriptions then t.subscriptions[id].endpoint == endpoint else id == newId)
  {
    forall i | i in t.subscriptions && t.subscriptions[i].endpoint == endpoint ensures i == IdFor(t, endpoint, newId) {
      assert IdOf(t, endpoint, i);
    }
  }

  lemma SubscribeKeepsValid(t: Tables, endpoint: string, subject: string, details: Details, newId: Id)
    requires Valid(t) && newId !in t.subscriptions
    ensures Valid(Subscribing(t, endpoint, subject, details, newId))
  {
    hide IdFor;
    TheId(t, endpoint, newId);
    var id := IdFor(t, endpoint, newId);
    var t' := Subscribing(t, endpoint, subject, details, newId);
    forall i | i in t'.subscriptions ensures exists p :: p in t'.topics && p.0 == i {
      if i == id {
        assert (id, subject) in t'.topics;
      } else {
        var p :| p in t.topics && p.0 == i;
        assert p in t'.topics;
      }
    }
  }

  lemma SubscribeRefines(t: Tables, endpoint: string, subject: string, details: Details, newId: Id)
    requires Valid(t) && newId !in t.subscriptions
    ensures var t' := Subscribing(t, endpoint, subject, details, newId);
      && Valid(t')
      && Pairs(t') == Pairs(t) + {(endpoint, subject)}
      && ((IdFor(t, endpoint, newId), subject) in t.topics <==> (endpoint, subject) in Pairs(t))
  {
    hide IdFor, Pairs;
    SubscribeKeepsValid(t, endpoint, subject, details, newId);
    TheId(t, endpoint, newId);
    var id := IdFor(t, endpoint, newId);
    var t' := Subscribing(t, endpoint, subject, details, newId);
    assert t'.subscriptions[id].endpoint == endpoint && (id, subject) in t'.topics;
    forall e, s ensures Subscribed(t', e, s) <==> (e, s) in Pairs(t) + {(endpoint, subject)} {
      PairsExact(t, e, s);
      if Subscribed(t, e, s) {
        var i :| i in t.subscriptions && t.subscriptions[i].endpoint == e && (i, s) in t.topics;
        assert t'.subscriptions[i].endpoint == e && (i, s) in t'.topics;
      }
    }
    PairsEqual(t', Pairs(t) + {(endpoint, subject)});
    PairsExact(t, endpoint, subject);
  }

  /** After a subscribe the endpoint has exactly the new details, and every other keeps its own. */
  lemma SubscribeReplacesDetails(t: Tables, endpoint: string, subject: string, details: Details, newId: Id)
    requires Valid(t) && newId !in t.subscriptions
    ensures var t' := Subscribing(t, endpoint, subject, details, newId);
      forall e, d :: DetailsOf(t', e, d) <==> if e == endpoint then d == details else DetailsOf(t, e, d)
  {
    hide IdFor;
    TheId(t, endpoint, newId);
    var id := IdFor(t, endpoint, newId);
    var t' := Subscribing(t, endpoint, subject, details, newId);
    assert t'.subscriptions[id] == Row(endpoint, details);
    forall e, d ensures DetailsOf(t', e, d) <==> if e == endpoint then d == details else DetailsOf(t, e, d) {
      if DetailsOf(t, e, d) && e != endpoint {
        var i :| i in t.subscriptions && t.subscriptions[i] == Row(e, d);
        assert t'.subscriptions[i] == Row(e, d);
      }
    }
  }

  lemma UnsubscribeRefines(t: Tables, endpoint: string, subject: string)
    requires Valid(t)
    ensures var t' := Unsubscribing(t, endpoint, subject);
      && Valid(t')
      && Pairs(t') == Pairs(t) - {(endpoint, subject)}
      && ((exists p :: p in t.topics && p.0 in Of(t, endpoint) && p.1 == subject) <==> (endpoint, subject) in Pairs(t))
      && (forall e, d :: DetailsOf(t', e, d) <==> DetailsOf(t, e, d) && exists s :: (e, s) in Pairs(t'))
  {
    hide Pairs;
    var rest := WithoutTopic(t, endpoint, subject);
    var idle := Idle(rest, endpoint);
    var t' := Unsubscribing(t, endpoint, subject);
    assert forall p :: p in t'.topics <==> p in rest.topics && p.0 !in idle;
    assert forall p :: p in rest.topics ==> p.0 !in idle;
    assert t'.topics == rest.topics;
    assert Valid(t') by {
      forall i | i in t'.subscriptions ensures exists p :: p in t'.topics && p.0 == i {
        if i !in Of(t, endpoint) {
          var p :| p in t.topics && p.0 == i;
          assert p in rest.topics;
        }
      }
    }
    forall e, s ensures Subscribed(t', e, s) <==> (e, s) in Pairs(t) - {(endpoint, subject)} {
      PairsExact(t, e, s);
      if Subscribed(t, e, s) && (e, s) != (endpoint, subject) {
        var i :| i in t.subscriptions && t.subscriptions[i].endpoint == e && (i, s) in t.topics;
        assert (i, s) in rest.topics;
        assert i in t'.subscriptions;
      }
    }
    PairsEqual(t', Pairs(t) - {(endpoint, subject)});
    PairsExact(t, endpoint, subject);
    if Subscribed(t, endpoint, subject) {
      var i :| i in t.subscriptions && t.subscriptions[i].endpoint == endpoint && (i, subject) in t.topics;
      assert (i, subject).0 in Of(t, endpoint);
    }
    if p :| p in t.topics && p.0 in Of(t, endpoint) && p.1 == subject {
      assert (p.0, subject) in t.topics;
    }
    DetailsKept(t, t');
  }

  /** Rows that stay keep their details, and a row stays exactly as long as its endpoint has a pair. */
  lemma DetailsKept(t: Tables, t': Tables)
    requires Valid(t) && Valid(t') && t'.subscriptions.Keys <= t.subscriptions.Keys
    requires forall i :: i in t'.subscriptions ==> t'.subscriptions[i] == t.subscriptions[i]
    ensures forall e, d :: DetailsOf(t', e, d) <==> DetailsOf(t, e, d) && exists s :: (e, s) in Pairs(t')
  {
    forall e, d ensures DetailsOf(t', e, d) <==> DetailsOf(t, e, d) && exists s :: (e, s) in Pairs(t') {
      if DetailsOf(t', e, d) {
        var i :| i in t'.subscriptions && t'.subscriptions[i] == Row(e, d);
        assert t.subscriptions[i] == Row(e, d);
        var p :| p in t'.topics && p.0 == i;
        assert (i, p.1) in t'.topics;
        PairsExact(t', e, p.1);
      }
      if DetailsOf(t, e, d) && exists s :: (e, s) in Pairs(t') {
        var s :| (e, s) in Pairs(t');
        PairsExact(t', e, s);
        var i :| i in t'.subscriptions && t'.subscriptions[i].endpoint == e && (i, s) in t'.topics;
        var j :| j in t.subscriptions && t.subscriptions[j] == Row(e, d);
        assert i == j;
      }
    }
  }

  lemma DeleteRefines(t: Tables, endpoint: string)
    requires Valid(t)
    ensures var t' := Deleting(t, endpoint);
      && Valid(t')
      && Pairs(t') == (set p | p in Pairs(t) && p.0 != endpoint)
      && (forall e, d :: DetailsOf(t', e, d) <==> DetailsOf(t, e, d) && e != endpoint)
  {
    var t' := Deleting(t, endpoint);
    assert Valid(t') by {
      forall i | i in t'.subscriptions ensures exists p :: p in t'.topics && p.0 == i {
        var p :| p in t.topics && p.0 == i;
        assert p in t'.topics;
      }
    }
    var wanted := set p | p in Pairs(t) && p.0 != endpoint;
    forall e, s ensures Subscribed(t', e, s) <==> (e, s) in wanted {
      PairsExact(t, e, s);
      if Subscribed(t, e, s) && e != endpoint {
        var i :| i in t.subscriptions && t.subscriptions[i].endpoint == e && (i, s) in t.topics;
        assert (i, s) in t'.topics && i in t'.subscriptions;
      }
    }
    PairsEqual(t', wanted);
    forall e, d ensures DetailsOf(t', e, d) <==> DetailsOf(t, e, d) && e != endpoint {
      if DetailsOf(t, e, d) && e != endpoint {
        var i :| i in t.subscriptions && t.subscriptions[i] == Row(e, d);
        assert t'.subscriptions[i] == Row(e, d);
      }
    }
  }

  // ---------- runs ----------

  datatype Op =
    | Subscribe(endpoint: string, subject: string, details: Details)
    | Unsubscribe(endpoint: string, subject: string)
    | Delete(endpoint: string)

  /** What an operation does to the set of pairs. */
  function OnPairs(pairs: set<(string, string)>, op: Op): set<(string, string)> {
    match op
    case Subscribe(endpoint, subject, _) => pairs + {(endpoint, subject)}
    case Unsubscribe(endpoint, subject) => pairs - {(endpoint, subject)}
    case Delete(endpoint) => set p | p in pairs && p.0 != endpoint
  }

  /** What an operation does to the tables; `newId` is the UUID drawn for it. */
  ghost function OnTables(t: Tables, op: Op, newId: Id): Tables {
    match op
    case Subscribe(endpoint, subject, details) => Subscribing(t, endpoint, subject, details, newId)
    case Unsubscribe(endpoint, subject) => Unsubscribing(t, endpoint, subject)
    case Delete(endpoint) => Deleting(t, endpoint)
  }

  /** The tables after each of a run's operations, every UUID being new when it is drawn. */
  ghost predicate IsRun(ts: seq<Tables>, ops: seq<Op>, ids: seq<Id>) {
    && |ts| == |ops| + 1 && |ids| == |ops|
    && forall k :: 0 <= k < |ops| ==> ids[k] !in ts[k].subscriptions && ts[k + 1] == OnTables(ts[k], ops[k], ids[k])
  }

  const EMPTY := Tables(map[], {})

  /** In every run from empty tables, the tables are valid and stand for the set the operations describe. */
  lemma {:induction false} RunsRefine(ts: seq<Tables>, ops: seq<Op>, ids: seq<Id>, k: nat)
    requires IsRun(ts, ops, ids) && ts[0] == EMPTY && k <= |ops|
    ensures Valid(ts[k]) && Pairs(ts[k]) == Fold(OnPairs, {}, ops[..k])
  {
    if k == 0 {
      assert ops[..0] == [];
    } else {
      RunsRefine(ts, ops, ids, k - 1);
      var t, op := ts[k - 1], ops[k - 1];
      assert ops[..k] == ops[..k - 1] + [op];
      FoldAppend(OnPairs, {}, ops[..k - 1], [op]);
      FoldOne(OnPairs, Pairs(t), op);
      match op {
        case Subscribe(endpoint, subject, details) => SubscribeRefines(t, endpoint, subject, details, ids[k - 1]);
        case Unsubscribe(endpoint, subject) => UnsubscribeRefines(t, endpoint, subject);
        case Delete(endpoint) => DeleteRefines(t, endpoint);
      }
      assert ts[k] == OnTables(t, op, ids[k - 1]);
    }
  }

  lemma RowsJoin(t: Tables, subject: string, rows: seq<Row>, ids: seq<Id>)
    requires Valid(t) && |rows| == |ids|
    requires forall i :: i in ids <==> i in t.subscriptions && (i, subject) in t.topics
    requires forall k :: 0 <= k < |ids| ==> ids[k] in t.subscriptions && rows[k] == t.subscriptions[ids[k]]
    ensures forall e :: (exists k :: 0 <= k < |rows| && rows[k].endpoint == e) <==> (e, subject) in Pairs(t)
  {
    hide Pairs;
    forall e ensures (exists k :: 0 <= k < |rows| && rows[k].endpoint == e) <==> (e, subject) in Pairs(t) {
      PairsExact(t, e, subject);
      if Subscribed(t, e, subject) {
        var i :| i in t.subscriptions && t.subscriptions[i].endpoint == e && (i, subject) in t.topics;
        var k :| 0 <= k < |ids| && ids[k] == i;
        assert rows[k].endpoint == e;
      }
    }
  }

  // ---------- the repository ----------

  class PushRepo {
    var t: Tables

    constructor ()
      ensures Valid(t) && Pairs(t) == {}
    {
      t := EMPTY;
    }

    /**
     * Subscribe: an upsert by endpoint, then an insert of the topic that does
     * nothing on conflict. `valid` is the outcome of the subscription's own
     * validation, `newId` the UUID drawn for it; `created` reports whether the
     * pair is new.
     */
    method Subscribe(subject: string, endpoint: string, details: Details, valid: bool, newId: Id)
      returns (r: Result<(Id, bool), ()>)
      requires Valid(t) && newId !in t.subscriptions
      modifies this
      ensures Valid(t) && (r.Ok? <==> valid)
      ensures r.Err? ==> t == old(t)
      ensures r.Ok? ==> t == Subscribing(old(t), endpoint, subject, details, newId)
      ensures r.Ok? ==> IdOf(t, endpoint, r.value.0) && Pairs(t) == Pairs(old(t)) + {(endpoint, subject)}
      ensures r.Ok? ==> (r.value.1 <==> (endpoint, subject) !in Pairs(old(t)))
    {
      if !valid {
        return Err(());
      }
      SubscribeRefines(t, endpoint, subject, details, newId);
      var conflicting := Of(t, endpoint);
      var id := newId;
      if conflicting != {} {
        id :| id in conflicting;
      }
      assert id == IdFor(t, endpoint, newId) by {
        assert forall i :: IdOf(t, endpoint, i) <==> i in conflicting;
      }
      t := t.(subscriptions := t.subscriptions[id := Row(endpoint, details)]);
      var created := (id, subject) !in t.topics;
      if created {
        t := t.(topics := t.topics + {(id, subject)});
      } else {
        assert t.topics == t.topics + {(id, subject)};
      }
      return Ok((id, created));
    }

    /** Unsubscribe: the topic goes, and then the subscription if that was its last one. */
    method Unsubscribe(subject: string, endpoint: string) returns (removed: bool)
      requires Valid(t)
      modifies this
      ensures Valid(t) && t == Unsubscribing(old(t), endpoint, subject)
      ensures Pairs(t) == Pairs(old(t)) - {(endpoint, subject)}
      ensures removed <==> (endpoint, subject) in Pairs(old(t))
    {
      UnsubscribeRefines(t, endpoint, subject);
      var gone := set p | p in t.topics && p.0 in Of(t, endpoint) && p.1 == subject;
      removed := gone != {};
      assert removed <==> exists p :: p in t.topics && p.0 in Of(t, endpoint) && p.1 == subject by {
        if p :| p in t.topics && p.0 in Of(t, endpoint) && p.1 == subject {
          assert p in gone;
        }
      }
      ghost var rest := WithoutTopic(t, endpoint, subject);
      t := t.(topics := t.topics - gone);
      assert t.topics == rest.topics;
      t := DeleteRows(t, Idle(t, endpoint));
    }

    /** DeleteByEndpoint: the rows go and the foreign key takes their topics along. */
    method DeleteByEndpoint(endpoint: string)
      requires Valid(t)
      modifies this
      ensures Valid(t) && t == Deleting(old(t), endpoint)
      ensures Pairs(t) == set p | p in Pairs(old(t)) && p.0 != endpoint
    {
      DeleteRefines(t, endpoint);
      t := DeleteRows(t, Of(t, endpoint));
    }

    /** The rows that join to `subject`, each once; SQL leaves their order open. */
    method SubscribersOf(subject: string) returns (rows: seq<Row>)
      requires Valid(t)
      ensures forall e :: (exists k :: 0 <= k < |rows| && rows[k].endpoint == e) <==> (e, subject) in Pairs(t)
      ensures forall k :: 0 <= k < |rows| ==> DetailsOf(t, rows[k].endpoint, rows[k].details)
      ensures forall k, l :: 0 <= k < l < |rows| ==> rows[k].endpoint != rows[l].endpoint
    {
      hide Pairs;
      var ids := set i | i in t.subscriptions && (i, subject) in t.topics;
      ghost var order;
      rows, order := Scan(ids);
      RowsJoin(t, subject, rows, order);
    }

    /** The rows with the given ids, in some order. */
    method Scan(ids: set<Id>) returns (rows: seq<Row>, ghost order: seq<Id>)
      requires ids <= t.subscriptions.Keys
      ensures |order| == |rows| && forall i :: i in order <==> i in ids
      ensures forall k :: 0 <= k < |order| ==> order[k] in ids && rows[k] == t.subscriptions[order[k]]
      ensures forall k, l :: 0 <= k < l < |order| ==> order[k] != order[l]
    {
      rows, order := [], [];
      var todo := ids;
      while todo != {}
        invariant todo <= ids && |order| == |rows|
        invariant forall i :: i in order <==> i in ids - todo
        invariant forall k :: 0 <= k < |order| ==> order[k] in ids - todo && rows[k] == t.subscriptions[order[k]]
        invariant forall k, l :: 0 <= k < l < |order| ==> order[k] != order[l]
        decreases |todo|
      {
        var i :| i in todo;
        todo := todo - {i};
        rows := rows + [t.subscriptions[i]];
        order := order + [i];
      }
    }

    /** The subjects of the topics that join to `endpoint`, in the order of the collation `le`. */
    method SubjectsByEndpoint(endpoint: string, le: (string, string) -> bool) returns (subjects: seq<string>)
      requires Valid(t) && TotalOrder(le)
      ensures forall s :: s in subjects <==> (endpoint, s) in Pairs(t)
      ensures forall k, l :: 0 <= k < l < |subjects| ==> subjects[k] != subjects[l] && le(subjects[k], subjects[l])
    {
      var todo := set p | p in t.topics && t.subscriptions[p.0].endpoint == endpoint :: p.1;
      forall s ensures s in todo <==> (endpoint, s) in Pairs(t) {
        PairsExact(t, endpoint, s);
        if Subscribed(t, endpoint, s) {
          var i :| i in t.subscriptions && t.subscriptions[i].endpoint == endpoint && (i, s) in t.topics;
          assert (i, s).1 == s;
        }
      }
      subjects := Sorted(todo, le);
    }

    method Sorted(all: set<string>, le: (string, string) -> bool) returns (s: seq<string>)
      requires TotalOrder(le)
      ensures forall x :: x in s <==> x in all
      ensures forall k, l :: 0 <= k < l < |s| ==> s[k] != s[l] && le(s[k], s[l])
    {
      s := [];
      var todo := all;
      while todo != {}
        invariant todo <= all
        invariant forall x :: x in s <==> x in all - todo
        invariant forall k, x :: 0 <= k < |s| && x in todo ==> le(s[k], x)
        invariant forall k, l :: 0 <= k < l < |s| ==> s[k] != s[l] && le(s[k], s[l])
        decreases |todo|
      {
        ghost var m := Least(todo, le);
        var x :| x in todo && forall y :: y in todo ==> le(x, y);
        assert x !in s;
        s := s + [x];
        todo := todo - {x};
      }
    }
  }

  ghost predicate TotalOrder(le: (string, string) -> bool) {
    && (forall a, b :: le(a, b) || le(b, a))
    && (forall a, b :: le(a, b) && le(b, a) ==> a == b)
    && (forall a, b, c :: le(a, b) && le(b, c) ==> le(a, c))
  }

  lemma {:induction false} Least(s: set<string>, le: (string, string) -> bool) returns (m: string)
    requires s != {} && TotalOrder(le)
    ensures m in s && forall y :: y in s ==> le(m, y)
  {
    m :| m in s;
    var rest := s - {m};
    if rest != {} {
      var n := Least(rest, le);
      if le(n, m) {
        m := n;
      }
    }
    assert forall y :: y in s ==> y == m || y in rest || y in s - rest;
  }
}
