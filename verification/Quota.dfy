/**
 * The API-key quota: rows and the usage queue (apikey_repo.go), the gate in
 * Authenticate (access_provider.go), the usage plugin (usage_plugin.go) and the
 * resetter cron (app.go), first as code, then as one interleaved machine over
 * a single key. Times are seconds; a later clock read is passed as a parameter.
 */
module Quota {
  datatype Period = Forever | Month | Week | Day | Hour | Minute | Unknown {
    function ToDuration(): nat {
      match this
      case Forever => 3600 * 24 * 365 * 10
      case Month => 3600 * 24 * 30
      case Week => 3600 * 24 * 7
      case Day => 3600 * 24
      case Hour => 3600
      case Minute => 60
      case Unknown => 0
    }
  }

  /** Each period in terms of the next shorter one; a month has 30 days, and for ever is ten years. */
  lemma PeriodLengths()
    ensures Minute.ToDuration() == 60 && Hour.ToDuration() == 60 * Minute.ToDuration()
    ensures Day.ToDuration() == 24 * Hour.ToDuration() && Week.ToDuration() == 7 * Day.ToDuration()
    ensures Month.ToDuration() == 30 * Day.ToDuration() && Forever.ToDuration() == 3650 * Day.ToDuration()
    ensures Unknown.ToDuration() == 0
  {
  }

  /** The quota columns of an API key. */
  datatype Key = Key(quotaSetted: bool, tokens: int, period: Period, resetAt: int, reserved: int)

  /** The key as UpdateApiKeyQuota leaves it when its clock reads `now`. */
  function Refreshed(key: Key, now: int): Key {
    if key.quotaSetted && key.resetAt < now
    then key.(resetAt := key.resetAt + key.period.ToDuration(), tokens := 0)
    else key
  }

  // ---------- the repository ----------

  const QUEUE_SIZE := 1000

  datatype QuotaUsage = QuotaUsage(apiKeyId: string, tokens: int)

  class ApiKeyRepo {
    var rows: map<string, Key>
    var queue: seq<QuotaUsage>

    ghost predicate Valid()
      reads this
    {
      |queue| <= QUEUE_SIZE
    }

    constructor ()
      ensures Valid() && rows == map[] && queue == []
    {
      rows, queue := map[], [];
    }

    /**
     * AddToQueue: with room in the queue and an expired context, select may
     * take either branch (`preferSend`); with neither it would block.
     */
    method AddToQueue(usage: QuotaUsage, expired: bool, preferSend: bool) returns (err: bool)
      requires Valid() && (expired || |queue| < QUEUE_SIZE)
      modifies this
      ensures Valid() && rows == old(rows)
      ensures err ==> expired && queue == old(queue)
      ensures !err ==> queue == old(queue) + [usage]
    {
      if |queue| < QUEUE_SIZE && (preferSend || !expired) {
        queue := queue + [usage];
        return false;
      }
      return true;
    }

    /** One turn of ProcessQueue that receives from the queue. */
    method ProcessOne()
      requires Valid() && queue != []
      modifies this
      ensures Valid() && queue == old(queue)[1..]
      ensures rows == Charged(old(rows), old(queue)[0])
      ensures rows.Keys == old(rows).Keys
      ensures forall id :: id in rows ==>
        rows[id].tokens == old(rows)[id].tokens + (if id == old(queue)[0].apiKeyId then old(queue)[0].tokens else 0)
    {
      var usage := queue[0];
      queue := queue[1..];
      AddApiKeyQuotaUsage(usage.apiKeyId, usage.tokens);
    }

    /** A single-statement increment of the stored value; an unknown id matches no row. */
    method AddApiKeyQuotaUsage(id: string, tokens: int)
      modifies this
      ensures queue == old(queue) && rows == Charged(old(rows), QuotaUsage(id, tokens))
      ensures rows.Keys == old(rows).Keys
      ensures forall other :: other in rows ==>
        rows[other] == old(rows)[other].(tokens := old(rows)[other].tokens + if other == id then tokens else 0)
    {
      if tokens == 0 {
        ChargeNothing(rows, id);
        return;
      }
      if id in rows {
        rows := rows[id := rows[id].(tokens := rows[id].tokens + tokens)];
      }
    }

    /** Writes back the quota columns of `key`, which the caller read earlier. */
    method UpdateApiKeyQuota(id: string, key: Key, now: int) returns (after: Key)
      modifies this
      ensures queue == old(queue) && after == Refreshed(key, now)
      ensures after == if key.quotaSetted && key.resetAt < now
        then Key(true, 0, key.period, key.resetAt + key.period.ToDuration(), key.reserved)
        else key
      ensures rows == if id in old(rows)
        then old(rows)[id := after.(quotaSetted := old(rows)[id].quotaSetted)]
        else old(rows)
    {
      after := key;
      if after.quotaSetted && after.resetAt < now {
        var newQuotaResetAt := after.resetAt + after.period.ToDuration();
        after := after.(resetAt := newQuotaResetAt);
        after := after.(tokens := 0);
      }
      if id in rows {
        rows := rows[id := rows[id].(tokens := after.tokens, period := after.period,
                                     resetAt := after.resetAt, reserved := after.reserved)];
      }
    }
  }

  function Charged(rows: map<string, Key>, usage: QuotaUsage): map<string, Key> {
    if usage.apiKeyId in rows
    then rows[usage.apiKeyId := rows[usage.apiKeyId].(tokens := rows[usage.apiKeyId].tokens + usage.tokens)]
    else rows
  }

  lemma ChargeNothing(rows: map<string, Key>, id: string)
    ensures Charged(rows, QuotaUsage(id, 0)) == rows
  {
  }

  // ---------- the gate ----------

  datatype Decision = Reject | Admit | ResetThenAdmit

  predicate Over(key: Key) {
    key.quotaSetted && key.tokens >= key.reserved
  }

  /** The quota check of Authenticate; `now1` and `now2` are its two clock reads. */
  method QuotaGate(key: Key, now1: int, now2: int) returns (d: Decision)
    ensures d == Gate(key, now1, now2)
  {
    if key.quotaSetted {
      match key.period {
        case Forever =>
          if key.tokens >= key.reserved {
            return Reject;
          }
        case _ =>
          if key.tokens >= key.reserved && key.resetAt > now1 {
            return Reject;
          } else if key.tokens >= key.reserved && key.resetAt < now2 {
            return ResetThenAdmit;
          }
      }
    }
    return Admit;
  }

  function Gate(key: Key, now1: int, now2: int): Decision {
    if !Over(key) then Admit
    else if key.period.Forever? || key.resetAt > now1 then Reject
    else if key.resetAt < now2 then ResetThenAdmit
    else Admit
  }

  /**
   * A key that has used up its allowance is never let through as it is, except
   * when its reset time is the very instant of both clock reads.
   */
  lemma GateExact(key: Key, now1: int, now2: int)
    requires now1 <= now2
    ensures Over(key) && Gate(key, now1, now2) == Admit
       <==> Over(key) && !key.period.Forever? && key.resetAt == now1 == now2
    ensures Gate(key, now1, now2) == ResetThenAdmit ==> Refreshed(key, now2).tokens == 0
  {
  }

  /**
   * The decision, from the columns alone. A key is refused exactly when it has
   * a quota, has used it up, and its period never ends or has not ended yet; it
   * is reset exactly when it has, is used up, and its period ended before now.
   */
  lemma GateCases(key: Key, now1: int, now2: int)
    ensures Gate(key, now1, now2) == Reject
       <==> key.quotaSetted && key.tokens >= key.reserved && (key.period == Forever || key.resetAt > now1)
    ensures Gate(key, now1, now2) == ResetThenAdmit
       <==> key.quotaSetted && key.tokens >= key.reserved && key.period != Forever && key.resetAt <= now1 && key.resetAt < now2
    ensures Gate(key, now1, now2) == Admit
       <==> || !key.quotaSetted
            || key.tokens < key.reserved
            || (key.period != Forever && key.resetAt <= now1 && key.resetAt >= now2)
  {
  }

  // ---------- the resetter ----------

  /** What one run of the quota_resetter cron does to a key nobody else touches. */
  function Tick(key: Key, now: int): Key {
    if key.resetAt < now then Refreshed(key, now) else key
  }

  function Ticks(key: Key, now: int, n: nat): Key {
    if n == 0 then key else Tick(Ticks(key, now, n - 1), now)
  }

  /** How many whole periods the reset time lags behind, rounded up. */
  function Lag(key: Key, now: int): int
    requires key.period.ToDuration() > 0
  {
    (now - key.resetAt + key.period.ToDuration() - 1) / key.period.ToDuration()
  }

  lemma CeilingDivision(a: int, d: int, n: int)
    requires d > 0 && a > 0 && n == (a + d - 1) / d
    ensures n >= 1 && a <= n * d < a + d
  {
    assert n * d <= a + d - 1 < (n + 1) * d;
    assert (n + 1) * d == n * d + d;
  }

  lemma {:induction false} TicksWhileDue(key: Key, now: int, m: nat)
    requires key.quotaSetted && (m > 0 ==> key.resetAt + (m - 1) * key.period.ToDuration() < now)
    ensures Ticks(key, now, m) == key.(resetAt := key.resetAt + m * key.period.ToDuration(),
                                       tokens := if m == 0 then key.tokens else 0)
  {
    var d := key.period.ToDuration();
    if m > 0 {
      assert (m - 1) * d == (m - 2) * d + d;
      TicksWhileDue(key, now, m - 1);
      assert m * d == (m - 1) * d + d;
    }
  }

  lemma {:induction false} TicksStay(key: Key, now: int, n: nat, m: nat)
    requires Ticks(key, now, n).resetAt >= now && n <= m
    ensures Ticks(key, now, m) == Ticks(key, now, n)
  {
    if n < m {
      TicksStay(key, now, n, m - 1);
    }
  }

  /**
   * With the clock standing still, a lagging key is due on exactly its lag's
   * number of ticks; each zeroes the usage and moves the reset time one period
   * on, until it stands in [now, now + period); every later tick does nothing.
   */
  lemma CatchesUp(key: Key, now: int, m: nat)
    requires key.quotaSetted && key.resetAt < now && key.period.ToDuration() > 0
    ensures var d, n := key.period.ToDuration(), Lag(key, now);
      && n >= 1
      && now <= key.resetAt + n * d < now + d
      && (m < n ==> Ticks(key, now, m).resetAt == key.resetAt + m * d < now)
      && (0 < m <= n ==> Ticks(key, now, m).resetAt == key.resetAt + m * d && Ticks(key, now, m).tokens == 0)
      && (m >= n ==> Ticks(key, now, m) == key.(resetAt := key.resetAt + n * d, tokens := 0))
  {
    var d, n := key.period.ToDuration(), Lag(key, now);
    CeilingDivision(now - key.resetAt, d, n);
    assert (n - 1) * d == n * d - d;
    if m < n {
      assert m * d <= (n - 1) * d;
      if m > 0 {
        assert (m - 1) * d == m * d - d;
      }
      TicksWhileDue(key, now, m);
    } else {
      TicksWhileDue(key, now, n);
      TicksStay(key, now, n, m);
    }
  }

  /** A due key ever catches up exactly when it has a quota and a period of known length. */
  lemma CatchesUpExact(key: Key, now: int)
    requires key.resetAt < now
    ensures (exists n :: Ticks(key, now, n).resetAt >= now) <==> key.quotaSetted && key.period.ToDuration() > 0
  {
    if key.quotaSetted && key.period.ToDuration() > 0 {
      CatchesUp(key, now, Lag(key, now));
    } else {
      forall n ensures Ticks(key, now, n).resetAt < now {
        NeverCatchesUp(key, now, n);
      }
    }
  }

  lemma {:induction false} NeverCatchesUp(key: Key, now: int, n: nat)
    requires key.resetAt < now && !(key.quotaSetted && key.period.ToDuration() > 0)
    ensures Ticks(key, now, n).resetAt == key.resetAt
    ensures Ticks(key, now, n).quotaSetted == key.quotaSetted && Ticks(key, now, n).period == key.period
  {
    if n > 0 {
      NeverCatchesUp(key, now, n - 1);
    }
  }
}
