/**
 * One API key under every interleaving of admissions, running requests, queued
 * usage, the queue processor, lazy resets and the resetter cron. Each step is
 * one read or one statement; a reset writes back a row read some time before.
 */
module QuotaRuns {
  import opened Quota

  /**
   * `reading`: rows read by LoginUser, gate still to come; `resetting`: rows
   * the gate found lapsed, reset still to be written; `running`: admitted
   * requests; `spawned`: usage of finished requests not yet queued; `cron`:
   * rows read by the resetter. `finished`, `wiped` and `lost` keep the books.
   */
  datatype State = State(
    key: Key, reading: seq<Key>, resetting: seq<Key>, running: nat, spawned: seq<nat>, queue: seq<nat>,
    cron: seq<Key>, finished: int, wiped: int, lost: int)

  datatype Action =
    | Login
    | Decide(i: nat, now1: int, now2: int)
    | WriteReset(i: nat, now: int)
    | Finish(tokens: nat)
    | Enqueue(i: nat)
    | Lose(i: nat)
    | Process
    | CronRead
    | CronWrite(i: nat, now1: int, now2: int)

  function Remove<T>(s: seq<T>, i: nat): (r: seq<T>)
    requires i < |s|
    ensures |r| == |s| - 1
  {
    s[..i] + s[i + 1..]
  }

  function Sum(s: seq<nat>): nat {
    if s == [] then 0 else s[0] + Sum(s[1..])
  }

  /**
   * When a step can happen. The second clock read of the gate is later than
   * the first, and a reset reads the clock after the gate did; usage waits for
   * room in the queue.
   */
  ghost predicate Enabled(s: State, a: Action) {
    match a
    case Login => true
    case Decide(i, now1, now2) => i < |s.reading| && now1 < now2
    case WriteReset(i, now) => i < |s.resetting| && s.resetting[i].resetAt < now
    case Finish(_) => s.running > 0
    case Enqueue(i) => i < |s.spawned| && |s.queue| < QUEUE_SIZE
    case Lose(i) => i < |s.spawned|
    case Process => s.queue != []
    case CronRead => true
    case CronWrite(i, now1, now2) => i < |s.cron| && now1 <= now2
  }

  /** UpdateApiKeyQuota of a row read earlier: every quota column but the setted flag is overwritten. */
  function Written(s: State, key: Key, now: int): State {
    var after := Refreshed(key, now).(quotaSetted := s.key.quotaSetted);
    s.(key := after, wiped := s.wiped + s.key.tokens - after.tokens)
  }

  function Step(s: State, a: Action): State
    requires Enabled(s, a)
  {
    match a
    case Login => s.(reading := s.reading + [s.key])
    case Decide(i, now1, now2) =>
      var read := s.reading[i];
      var s' := s.(reading := Remove(s.reading, i));
      (match Gate(read, now1, now2)
       case Reject => s'
       case Admit => s'.(running := s.running + 1)
       case ResetThenAdmit => s'.(resetting := s.resetting + [read]))
    case WriteReset(i, now) =>
      Written(s, s.resetting[i], now).(resetting := Remove(s.resetting, i), running := s.running + 1)
    case Finish(tokens) =>
      s.(running := s.running - 1, spawned := s.spawned + [tokens], finished := s.finished + tokens)
    case Enqueue(i) => s.(spawned := Remove(s.spawned, i), queue := s.queue + [s.spawned[i]])
    case Lose(i) => s.(spawned := Remove(s.spawned, i), lost := s.lost + s.spawned[i])
    case Process => s.(queue := s.queue[1..], key := s.key.(tokens := s.key.tokens + s.queue[0]))
    case CronRead => s.(cron := s.cron + [s.key])
    case CronWrite(i, now1, now2) =>
      var s' := s.(cron := Remove(s.cron, i));
      if s.cron[i].resetAt < now1 then Written(s', s.cron[i], now2) else s'
  }

  /** The steps that touch the key do to it what the statements of the repository do to its row. */
  lemma StepsAreStatements(s: State, a: Action, id: string)
    requires Enabled(s, a)
    ensures var rows := map[id := s.key];
      match a
      case Process => map[id := Step(s, a).key] == Charged(rows, QuotaUsage(id, s.queue[0]))
      case WriteReset(i, now) =>
        Step(s, a).key == Refreshed(s.resetting[i], now).(quotaSetted := s.key.quotaSetted)
      case CronWrite(i, now1, now2) =>
        Step(s, a).key == if s.cron[i].resetAt < now1
                          then Refreshed(s.cron[i], now2).(quotaSetted := s.key.quotaSetted) else s.key
      case _ => Step(s, a).key == s.key
  {
  }

  // ---------- sums ----------

  lemma {:induction false} SumAppend(a: seq<nat>, b: seq<nat>)
    ensures Sum(a + b) == Sum(a) + Sum(b)
  {
    if a == [] {
      assert a + b == b;
    } else {
      assert (a + b)[1..] == a[1..] + b;
      SumAppend(a[1..], b);
    }
  }

  lemma SumOne(x: nat)
    ensures Sum([x]) == x
  {
    assert [x][1..] == [];
  }

  lemma SumAdd(s: seq<nat>, x: nat)
    ensures Sum(s + [x]) == Sum(s) + x
  {
    SumAppend(s, [x]);
    SumOne(x);
  }

  lemma {:induction false} SumRemove(s: seq<nat>, i: nat)
    requires i < |s|
    ensures Sum(Remove(s, i)) == Sum(s) - s[i]
  {
    if i == 0 {
      assert Remove(s, 0) == s[1..];
    } else {
      assert Remove(s, i)[1..] == Remove(s[1..], i - 1);
      SumRemove(s[1..], i - 1);
    }
  }

  lemma {:induction false} SumBound(s: seq<nat>, t: nat)
    requires forall i :: 0 <= i < |s| ==> s[i] <= t
    ensures Sum(s) <= |s| * t
  {
    if s != [] {
      SumBound(s[1..], t);
      assert |s| * t == |s[1..]| * t + t;
    }
  }

  // ---------- conservation ----------

  /** Usage that is finished but not consumed. */
  function Outstanding(s: State): nat {
    Sum(s.spawned) + Sum(s.queue)
  }

  /** Consumed, outstanding, wiped and lost usage against what the requests used. */
  function Balance(s: State): int {
    s.key.tokens + Outstanding(s) + s.wiped + s.lost - s.finished
  }

  lemma StepConserves(s: State, a: Action)
    requires Enabled(s, a)
    ensures Balance(Step(s, a)) == Balance(s)
    ensures a.Process? ==> Step(s, a).key.tokens + Outstanding(Step(s, a)) == s.key.tokens + Outstanding(s)
    ensures a.Process? ==> Step(s, a) == s.(queue := s.queue[1..], key := s.key.(tokens := Step(s, a).key.tokens))
  {
    hide Gate, Refreshed;
    match a {
      case Finish(tokens) => SumAdd(s.spawned, tokens);
      case Enqueue(i) =>
        SumRemove(s.spawned, i);
        SumAdd(s.queue, s.spawned[i]);
      case Lose(i) => SumRemove(s.spawned, i);
      case _ =>
    }
  }

  function Run(s: State, actions: seq<Action>): State
    requires Possible(s, actions)
    decreases |actions|
  {
    if actions == [] then s else Run(Step(s, actions[0]), actions[1..])
  }

  ghost predicate Possible(s: State, actions: seq<Action>)
    decreases |actions|
  {
    actions == [] || (Enabled(s, actions[0]) && Possible(Step(s, actions[0]), actions[1..]))
  }

  /** No token is ever made up or dropped silently, whatever the interleaving. */
  lemma {:induction false} RunConserves(s: State, actions: seq<Action>)
    requires Possible(s, actions)
    ensures Balance(Run(s, actions)) == Balance(s)
    decreases |actions|
  {
    if actions != [] {
      StepConserves(s, actions[0]);
      RunConserves(Step(s, actions[0]), actions[1..]);
    }
  }

  // ---------- the bound ----------

  /** Logins that have read a row still within its allowance. */
  function Cleared(reading: seq<Key>): nat {
    if reading == [] then 0 else (if Over(reading[0]) then 0 else 1) + Cleared(reading[1..])
  }

  /** Requests that are, or are bound to be, admitted and whose usage is not consumed yet. */
  function Unaccounted(s: State): nat {
    Cleared(s.reading) + s.running + |s.spawned| + |s.queue|
  }

  /** Every row anybody holds is the key with a quota and with the fixed limit. */
  ghost predicate FixedLimit(s: State, limit: int) {
    forall key :: key == s.key || key in s.reading + s.resetting + s.cron ==> key.quotaSetted && key.reserved == limit
  }

  ghost predicate Small(s: State, t: nat) {
    (forall i :: 0 <= i < |s.spawned| ==> s.spawned[i] <= t) && (forall i :: 0 <= i < |s.queue| ==> s.queue[i] <= t)
  }

  /** A run with at most `k` requests unaccounted at any time, each of at most `t` tokens. */
  ghost predicate Within(s: State, actions: seq<Action>, k: nat, t: nat)
    requires Possible(s, actions)
    decreases |actions|
  {
    && Unaccounted(s) <= k
    && (actions != [] ==>
          && (actions[0].Finish? ==> actions[0].tokens <= t)
          && Within(Step(s, actions[0]), actions[1..], k, t))
  }

  /** What the key may still come to hold, every request at its most expensive. */
  function Exposure(s: State, t: nat): int {
    s.key.tokens + Outstanding(s) + (Cleared(s.reading) + s.running) * t
  }

  lemma {:induction false} ClearedAppend(a: seq<Key>, b: seq<Key>)
    ensures Cleared(a + b) == Cleared(a) + Cleared(b)
  {
    if a == [] {
      assert a + b == b;
    } else {
      assert (a + b)[1..] == a[1..] + b;
      ClearedAppend(a[1..], b);
    }
  }

  lemma ClearedOne(key: Key)
    ensures Cleared([key]) == if Over(key) then 0 else 1
  {
    assert [key][1..] == [];
  }

  lemma {:induction false} ClearedRemove(reading: seq<Key>, i: nat)
    requires i < |reading|
    ensures Cleared(Remove(reading, i)) == Cleared(reading) - (if Over(reading[i]) then 0 else 1)
  {
    if i == 0 {
      assert Remove(reading, 0) == reading[1..];
    } else {
      assert Remove(reading, i)[1..] == Remove(reading[1..], i - 1);
      ClearedRemove(reading[1..], i - 1);
    }
  }

  function Max(a: int, b: int): int {
    if a > b then a else b
  }

  /** Once the row holds at most `m` tokens, the exposure is at most m + k * t. */
  lemma ExposureOf(s: State, k: nat, t: nat)
    requires Small(s, t) && Unaccounted(s) <= k
    ensures Exposure(s, t) <= s.key.tokens + k * t
  {
    hide Sum, Cleared;
    SumBound(s.spawned, t);
    SumBound(s.queue, t);
    Shares(Cleared(s.reading) + s.running, |s.spawned|, |s.queue|, k, t);
  }

  lemma Shares(a: nat, b: nat, c: nat, k: nat, t: nat)
    requires a + b + c <= k
    ensures a * t + b * t + c * t <= k * t
  {
    assert a * t + b * t + c * t == (a + b + c) * t;
    assert k * t == (a + b + c) * t + (k - (a + b + c)) * t;
  }

  lemma StepKeepsLimit(s: State, a: Action, limit: int)
    requires Enabled(s, a) && FixedLimit(s, limit)
    ensures FixedLimit(Step(s, a), limit)
  {
    hide Gate, Sum, Cleared;
  }

  lemma StepKeepsSmall(s: State, a: Action, t: nat)
    requires Enabled(s, a) && Small(s, t) && (a.Finish? ==> a.tokens <= t)
    ensures Small(Step(s, a), t)
  {
    hide Gate, Refreshed, Sum, Cleared;
  }

  lemma StepKeepsShape(s: State, a: Action, limit: int, t: nat)
    requires Enabled(s, a) && FixedLimit(s, limit) && Small(s, t) && (a.Finish? ==> a.tokens <= t)
    ensures FixedLimit(Step(s, a), limit) && Small(Step(s, a), t)
  {
    hide Enabled, Step, FixedLimit, Small;
    StepKeepsLimit(s, a, limit);
    StepKeepsSmall(s, a, t);
  }

  lemma StepKeepsBound(s: State, a: Action, limit: int, k: nat, t: nat)
    requires Enabled(s, a) && FixedLimit(s, limit) && Small(s, t) && (a.Finish? ==> a.tokens <= t)
    requires Unaccounted(s) <= k && Unaccounted(Step(s, a)) <= k
    requires Exposure(s, t) <= Max(limit, 1) - 1 + k * t
    ensures Exposure(Step(s, a), t) <= Max(limit, 1) - 1 + k * t
  {
    hide Cleared;
    var s' := Step(s, a);
    StepKeepsShape(s, a, limit, t);
    match a {
      case Login =>
        ClearedAppend(s.reading, [s.key]);
        ClearedOne(s.key);
        if !Over(s.key) {
          ExposureOf(s', k, t);
        }
      case Decide(i, now1, now2) => ClearedRemove(s.reading, i);
      case WriteReset(i, now) => ExposureOf(s', k, t);
      case Finish(tokens) =>
        SumAdd(s.spawned, tokens);
        var c := Cleared(s.reading) + s.running;
        assert c * t == (c - 1) * t + t;
      case Enqueue(i) =>
        SumRemove(s.spawned, i);
        SumAdd(s.queue, s.spawned[i]);
      case Lose(i) => SumRemove(s.spawned, i);
      case Process =>
      case CronRead =>
      case CronWrite(i, now1, now2) =>
        if s.cron[i].resetAt < now1 {
          ExposureOf(s', k, t);
        }
    }
  }

  /**
   * Consumed plus outstanding usage never passes the limit by more than one
   * round of the most expensive requests, in any interleaving.
   */
  lemma {:induction false} QuotaBound(s: State, actions: seq<Action>, limit: int, k: nat, t: nat)
    requires Possible(s, actions) && Within(s, actions, k, t)
    requires FixedLimit(s, limit) && Small(s, t) && Exposure(s, t) <= Max(limit, 1) - 1 + k * t
    ensures var s' := Run(s, actions);
      s'.key.tokens + Outstanding(s') <= Exposure(s', t) <= Max(limit, 1) - 1 + k * t
    decreases |actions|
  {
    hide Step, Enabled, FixedLimit, Small, Exposure, Outstanding, Unaccounted;
    if actions == [] {
      ExposureCovers(s, t);
    } else {
      var s' := Step(s, actions[0]);
      assert Unaccounted(s') <= k;
      StepKeepsShape(s, actions[0], limit, t);
      StepKeepsBound(s, actions[0], limit, k, t);
      QuotaBound(s', actions[1..], limit, k, t);
    }
  }

  // ---------- when the bound is limit - 1 + k * t ----------

  /** A new key with a quota: nothing used, nothing under way. */
  function Fresh(limit: int, period: Period, resetAt: int): State {
    State(Key(true, 0, period, resetAt, limit), [], [], 0, [], [], [], 0, 0, 0)
  }

  /** The promise for all runs of a new key. */
  ghost predicate Promise(limit: int, k: nat, t: nat) {
    forall period: Period, resetAt: int, actions: seq<Action> ::
      var s := Fresh(limit, period, resetAt);
      Possible(s, actions) && Within(s, actions, k, t) ==>
        Run(s, actions).key.tokens + Outstanding(Run(s, actions)) <= limit - 1 + k * t
  }

  function Repeat(t: nat, n: nat): (s: seq<nat>)
    ensures |s| == n && forall i :: 0 <= i < n ==> s[i] == t
  {
    if n == 0 then [] else Repeat(t, n - 1) + [t]
  }

  lemma {:induction false} SumRepeat(t: nat, n: nat)
    ensures Sum(Repeat(t, n)) == n * t
  {
    if n > 0 {
      SumRepeat(t, n - 1);
      SumAdd(Repeat(t, n - 1), t);
      assert n * t == (n - 1) * t + t;
    }
  }

  /** A key with limit <= 0 after `j` requests of `t` tokens, each let in by a reset of its own. */
  function AfterRequests(limit: int, t: nat, j: nat): State {
    State(Key(true, 0, Minute, 60 * j, limit), [], [], 0, Repeat(t, j), [], [], j * t, 0, 0)
  }

  function Requests(t: nat, j: nat, n: nat): seq<Action>
    decreases n
  {
    if n == 0 then []
    else
      [Login] + ([Decide(0, 60 * j + 1, 60 * j + 2)] + ([WriteReset(0, 60 * j + 3)] + ([Finish(t)] + Requests(t, j + 1, n - 1))))
  }

  lemma RunCons(s: State, a: Action, rest: seq<Action>, k: nat, t: nat)
    requires Enabled(s, a) && Unaccounted(s) <= k && (a.Finish? ==> a.tokens <= t)
    requires Possible(Step(s, a), rest) && Within(Step(s, a), rest, k, t)
    ensures Possible(s, [a] + rest) && Within(s, [a] + rest, k, t)
    ensures Run(s, [a] + rest) == Run(Step(s, a), rest)
  {
    hide Enabled, Step, Unaccounted;
    assert ([a] + rest)[1..] == rest;
  }

  lemma RequestEnters(limit: int, t: nat, j: nat)
    requires limit <= 0
    ensures var s := AfterRequests(limit, t, j);
      var s1 := s.(reading := [s.key]);
      var s2 := s.(resetting := [s.key]);
      && Step(s, Login) == s1
      && Enabled(s1, Decide(0, 60 * j + 1, 60 * j + 2)) && Step(s1, Decide(0, 60 * j + 1, 60 * j + 2)) == s2
      && Unaccounted(s) == Unaccounted(s1) == Unaccounted(s2) == j
  {
    ClearedOne(AfterRequests(limit, t, j).key);
  }

  lemma RequestLeaves(limit: int, t: nat, j: nat)
    requires limit <= 0
    ensures var s := AfterRequests(limit, t, j);
      var s2 := s.(resetting := [s.key]);
      var s3 := s.(key := s.key.(resetAt := 60 * (j + 1)), running := 1);
      && Enabled(s2, WriteReset(0, 60 * j + 3)) && Step(s2, WriteReset(0, 60 * j + 3)) == s3
      && Enabled(s3, Finish(t)) && Step(s3, Finish(t)) == AfterRequests(limit, t, j + 1)
      && Unaccounted(s3) == j + 1
  {
    assert (j + 1) * t == j * t + t;
  }

  lemma {:induction false} RequestsRun(limit: int, k: nat, t: nat, j: nat, n: nat)
    requires limit <= 0 && j + n <= k
    ensures var s := AfterRequests(limit, t, j);
      && Possible(s, Requests(t, j, n)) && Within(s, Requests(t, j, n), k, t)
      && Run(s, Requests(t, j, n)) == AfterRequests(limit, t, j + n)
    decreases n
  {
    hide AfterRequests, Step, Enabled, Unaccounted;
    var s := AfterRequests(limit, t, j);
    RequestEnters(limit, t, j);
    RequestLeaves(limit, t, j);
    if n > 0 {
      RequestsRun(limit, k, t, j + 1, n - 1);
      var s1 := s.(reading := [s.key]);
      var s2 := s.(resetting := [s.key]);
      var s3 := s.(key := s.key.(resetAt := 60 * (j + 1)), running := 1);
      var r3 := Requests(t, j + 1, n - 1);
      var r2 := [Finish(t)] + r3;
      var r1 := [WriteReset(0, 60 * j + 3)] + r2;
      var r0 := [Decide(0, 60 * j + 1, 60 * j + 2)] + r1;
      RunCons(s3, Finish(t), r3, k, t);
      RunCons(s2, WriteReset(0, 60 * j + 3), r2, k, t);
      RunCons(s1, Decide(0, 60 * j + 1, 60 * j + 2), r1, k, t);
      LoginEnabled(s);
      RunCons(s, Login, r0, k, t);
    }
  }

  lemma LoginEnabled(s: State)
    ensures Enabled(s, Login)
  {
  }

  /**
   * limit - 1 + k * t is a promise kept on every run of a new key exactly when
   * the limit is at least one: at zero or below, the lapsed branch of the gate
   * resets the key and admits the request all the same.
   */
  lemma PromiseExact(limit: int, k: nat, t: nat)
    ensures Promise(limit, k, t) <==> limit >= 1
  {
    if limit >= 1 {
      forall period: Period, resetAt: int, actions: seq<Action> | Possible(Fresh(limit, period, resetAt), actions)
        && Within(Fresh(limit, period, resetAt), actions, k, t)
        ensures var s' := Run(Fresh(limit, period, resetAt), actions);
          s'.key.tokens + Outstanding(s') <= limit - 1 + k * t
      {
        var s := Fresh(limit, period, resetAt);
        assert Exposure(s, t) == 0 && k * t >= 0;
        QuotaBound(s, actions, limit, k, t);
      }
    } else {
      RequestsRun(limit, k, t, 0, k);
      SumRepeat(t, k);
      assert AfterRequests(limit, t, 0) == Fresh(limit, Minute, 0);
      var s' := Run(Fresh(limit, Minute, 0), Requests(t, 0, k));
      assert s' == AfterRequests(limit, t, k);
      assert s'.key.tokens + Outstanding(s') == k * t;
    }
  }

  // ---------- what resets let through ----------

  /** The steps that write a reset. */
  ghost predicate Resets(s: State, a: Action) {
    a.WriteReset? || (a.CronWrite? && a.i < |s.cron| && s.cron[a.i].resetAt < a.now1)
  }

  /** The row a reset writes back was read some time before. */
  function RowOf(s: State, a: Action): Key
    requires Enabled(s, a) && Resets(s, a)
  {
    if a.WriteReset? then s.resetting[a.i] else s.cron[a.i]
  }

  /**
   * A reset wipes exactly the tokens stored when it is written, and every other
   * step none. The row it leaves depends on the row it was read from alone, so
   * a reset written from a row already reset since wipes a second time without
   * moving the reset time.
   */
  lemma ResetWipes(s: State, a: Action, limit: int)
    requires Enabled(s, a) && FixedLimit(s, limit)
    ensures Step(s, a).wiped == s.wiped + if Resets(s, a) then s.key.tokens else 0
    ensures Resets(s, a) ==>
      var row := RowOf(s, a);
      Step(s, a).key == row.(resetAt := row.resetAt + row.period.ToDuration(), tokens := 0)
    ensures s.key.tokens >= 0 ==> Step(s, a).key.tokens >= 0 && Step(s, a).wiped >= s.wiped
  {
    hide Gate;
  }

  /** How many resets a run writes. */
  ghost function ResetCount(s: State, actions: seq<Action>): nat
    requires Possible(s, actions)
    decreases |actions|
  {
    if actions == [] then 0
    else (if Resets(s, actions[0]) then 1 else 0) + ResetCount(Step(s, actions[0]), actions[1..])
  }

  lemma {:induction false} RunWipes(s: State, actions: seq<Action>, limit: int, k: nat, t: nat)
    requires Possible(s, actions) && Within(s, actions, k, t) && s.key.tokens >= 0
    requires FixedLimit(s, limit) && Small(s, t) && Exposure(s, t) <= Max(limit, 1) - 1 + k * t
    ensures s.wiped <= Run(s, actions).wiped <= s.wiped + ResetCount(s, actions) * (Max(limit, 1) - 1 + k * t)
    decreases |actions|
  {
    hide Step, Enabled, FixedLimit, Small, Exposure, Unaccounted, Resets;
    var most := Max(limit, 1) - 1 + k * t;
    if actions != [] {
      var a, rest := actions[0], actions[1..];
      var s' := Step(s, a);
      assert Unaccounted(s') <= k;
      ResetWipes(s, a, limit);
      StepKeepsShape(s, a, limit, t);
      StepKeepsBound(s, a, limit, k, t);
      ExposureCovers(s, t);
      RunWipes(s', rest, limit, k, t);
      assert (1 + ResetCount(s', rest)) * most == most + ResetCount(s', rest) * most;
    }
  }

  lemma ExposureCovers(s: State, t: nat)
    ensures s.key.tokens + Outstanding(s) <= Exposure(s, t)
  {
    assert (Cleared(s.reading) + s.running) * t >= 0;
  }

  /**
   * All that requests of a new key ever used, short of what was lost on the
   * way to the queue, is at most one full allowance for the start and one for
   * each reset written.
   */
  lemma UsageBound(limit: int, period: Period, resetAt: int, actions: seq<Action>, k: nat, t: nat)
    requires Possible(Fresh(limit, period, resetAt), actions) && Within(Fresh(limit, period, resetAt), actions, k, t)
    ensures var s, s' := Fresh(limit, period, resetAt), Run(Fresh(limit, period, resetAt), actions);
      s'.finished - s'.lost <= (1 + ResetCount(s, actions)) * (Max(limit, 1) - 1 + k * t)
  {
    hide Step, Enabled, Unaccounted;
    var s := Fresh(limit, period, resetAt);
    var most := Max(limit, 1) - 1 + k * t;
    assert Exposure(s, t) == 0 && k * t >= 0;
    RunConserves(s, actions);
    QuotaBound(s, actions, limit, k, t);
    RunWipes(s, actions, limit, k, t);
    assert (1 + ResetCount(s, actions)) * most == most + ResetCount(s, actions) * most;
  }

  /**
   * A reset does not set the reset time back exactly when the row it was read
   * from, one period on, is not behind the stored one: when the key moved on by
   * at most that period since.
   */
  lemma ResetMovesForwardExact(s: State, a: Action, limit: int)
    requires Enabled(s, a) && FixedLimit(s, limit) && Resets(s, a)
    ensures var row := RowOf(s, a);
      Step(s, a).key.resetAt >= s.key.resetAt <==> row.resetAt + row.period.ToDuration() >= s.key.resetAt
  {
    ResetWipes(s, a, limit);
    hide Step, Enabled, FixedLimit;
  }

  /** `run` is a possible run from `s` to `at` in which `resets` resets are written. */
  ghost predicate Reaches(s: State, run: seq<Action>, at: State, resets: nat) {
    Possible(s, run) && Run(s, run) == at && ResetCount(s, run) == resets
  }

  lemma ReachesStart(s: State)
    ensures Reaches(s, [], s, 0)
  {
  }

  lemma {:induction false} Extend(s: State, run: seq<Action>, at: State, resets: nat, a: Action)
    returns (run': seq<Action>, at': State, resets': nat)
    requires Reaches(s, run, at, resets) && Enabled(at, a)
    ensures run' == run + [a] && at' == Step(at, a) && resets' == resets + if Resets(at, a) then 1 else 0
    ensures Reaches(s, run', at', resets')
    decreases |run|
  {
    hide Enabled, Step, Resets;
    run', at', resets' := run + [a], Step(at, a), resets + if Resets(at, a) then 1 else 0;
    if run == [] {
      assert run'[1..] == [];
      ReachesStart(at');
    } else {
      var s1 := Step(s, run[0]);
      var k1 := ResetCount(s1, run[1..]);
      assert Reaches(s1, run[1..], at, k1);
      var _, _, _ := Extend(s1, run[1..], at, k1, a);
      assert run'[1..] == run[1..] + [a];
    }
  }

  /** A new key after one request that used up its limit, with nothing under way. */
  function UsedUp(limit: int, n: nat): State {
    State(Key(true, n, Minute, 0, limit), [], [], 0, [], [], [], n, 0, 0)
  }

  lemma UsesUp(limit: int, n: nat) returns (run: seq<Action>)
    requires 1 <= limit <= n
    ensures Reaches(Fresh(limit, Minute, 0), run, UsedUp(limit, n), 0)
  {
    hide Reaches;
    var s := Fresh(limit, Minute, 0);
    var at, k := s, 0;
    run := [];
    ReachesStart(s);
    run, at, k := Extend(s, run, at, k, Login);
    run, at, k := Extend(s, run, at, k, Decide(0, 1, 2));
    run, at, k := Extend(s, run, at, k, Finish(n));
    run, at, k := Extend(s, run, at, k, Enqueue(0));
    run, at, k := Extend(s, run, at, k, Process);
  }

  /** The same key once a request has read the lapsed row and passed the gate with it, and once two have. */
  function Lapsed(limit: int, n: nat, readers: nat): State {
    var s := UsedUp(limit, n);
    s.(resetting := if readers == 1 then [s.key] else [s.key, s.key])
  }

  lemma OneReads(limit: int, n: nat) returns (run: seq<Action>)
    requires 1 <= limit <= n
    ensures Reaches(Fresh(limit, Minute, 0), run, Lapsed(limit, n, 1), 0)
  {
    hide Reaches;
    var s := Fresh(limit, Minute, 0);
    run := UsesUp(limit, n);
    var at, k := UsedUp(limit, n), 0;
    run, at, k := Extend(s, run, at, k, Login);
    run, at, k := Extend(s, run, at, k, Decide(0, 3, 4));
  }

  lemma TwoRead(limit: int, n: nat) returns (run: seq<Action>)
    requires 1 <= limit <= n
    ensures Reaches(Fresh(limit, Minute, 0), run, Lapsed(limit, n, 2), 0)
  {
    hide Reaches;
    var s := Fresh(limit, Minute, 0);
    run := OneReads(limit, n);
    var at, k := Lapsed(limit, n, 1), 0;
    run, at, k := Extend(s, run, at, k, Login);
    run, at, k := Extend(s, run, at, k, Decide(0, 5, 6));
    assert at.reading == [] && at.resetting == [s.key.(tokens := n), s.key.(tokens := n)];
  }

  /**
   * A run of a new key in which two requests read the same lapsed row: usage is
   * wiped twice, all there ever was, while the reset time moves by one period.
   */
  lemma ResetTwice(limit: int, n: nat, m: nat) returns (run: seq<Action>, at: State)
    requires 1 <= limit <= n
    ensures var s := Fresh(limit, Minute, 0);
      && Reaches(s, run, at, 2)
      && at.key == s.key.(resetAt := s.key.resetAt + Minute.ToDuration())
      && at.finished == at.wiped == n + m
  {
    hide Reaches;
    var s := Fresh(limit, Minute, 0);
    run := TwoRead(limit, n);
    var k := 0;
    at := Lapsed(limit, n, 2);
    run, at, k := Extend(s, run, at, k, WriteReset(0, 7));
    run, at, k := Extend(s, run, at, k, Finish(m));
    run, at, k := Extend(s, run, at, k, Enqueue(0));
    run, at, k := Extend(s, run, at, k, Process);
    run, at, k := Extend(s, run, at, k, WriteReset(0, 8));
  }

  /**
   * A run of a new key in which a request is slow to write its reset, the
   * resetter moves the key on by two periods, and the request then sets the
   * reset time back by one.
   */
  lemma ResetTimeFalls(limit: int, n: nat) returns (run: seq<Action>, at: State, late: Action)
    requires 1 <= limit <= n
    ensures Reaches(Fresh(limit, Minute, 0), run, at, 2) && Enabled(at, late)
    ensures at.key.resetAt == 120 && Step(at, late).key.resetAt == 60
  {
    hide Reaches;
    var s := Fresh(limit, Minute, 0);
    run := OneReads(limit, n);
    var k := 0;
    at := Lapsed(limit, n, 1);
    run, at, k := Extend(s, run, at, k, CronRead);
    run, at, k := Extend(s, run, at, k, CronWrite(0, 5, 6));
    run, at, k := Extend(s, run, at, k, CronRead);
    run, at, k := Extend(s, run, at, k, CronWrite(0, 61, 62));
    late := WriteReset(0, 63);
  }
}
