/**
 * The shutdown protocol of internal/closer/closer.go as a state machine: any
 * interleaving of Add, concurrent CloseAll calls, the goroutines the first of
 * them starts, and WaitTimeout callers.
 */
module Closer {
  import opened Basics

  type Func = int

  /** A goroutine of the first CloseAll: not yet scheduled, inside its function, or done and its error sent. */
  datatype Phase = Spawned | Running | Sent

  /** Where a call of CloseAll stands; only the one that wins `once` gets past `Entered`. */
  datatype Caller = Entered | Locked | Collecting | Returned

  /** Once: nobody has come, one caller runs the body, or the body has finished. */
  datatype Once = Idle | Busy(winner: nat) | Finished

  datatype Wait = Waiting | Nil | TimedOut

  /**
   * `funcs` is the guarded list; `taken` the list as the winner found it, with
   * one goroutine each in `phases`; `received` counts the winner's receives;
   * `started` logs, by position in `taken`, every function call begun.
   */
  datatype State = State(
    funcs: seq<Func>, once: Once, callers: seq<Caller>, taken: seq<Func>, phases: seq<Phase>,
    received: nat, done: bool, waiters: seq<Wait>, started: seq<nat>)

  datatype Action =
    | Add(fs: seq<Func>)
    | Call                      // CloseAll is called
    | Win(c: nat)               // once.Do lets caller c in
    | Take(c: nat)              // c.funcs is taken under the lock and its goroutines are spawned
    | Start(i: nat)             // goroutine i calls its function
    | Finish(i: nat)            // the function returns and its result is sent
    | Receive(c: nat)           // the winner receives one result
    | Close(c: nat)             // the deferred close(c.done), and once is finished
    | Pass(c: nat)              // once.Do returns at once to a later caller
    | Await                     // WaitTimeout is called
    | WakeDone(w: nat)
    | WakeTimer(w: nat)

  const INITIAL := State([], Idle, [], [], [], 0, false, [], [])

  function Count(phases: seq<Phase>): nat {
    if phases == [] then 0 else (if phases[0].Sent? then 1 else 0) + Count(phases[1..])
  }

  ghost predicate Enabled(s: State, a: Action) {
    match a
    case Add(_) => true
    case Call => true
    case Win(c) => c < |s.callers| && s.callers[c] == Entered && s.once == Idle
    case Take(c) => c < |s.callers| && s.callers[c] == Locked
    case Start(i) => i < |s.phases| && s.phases[i] == Spawned
    case Finish(i) => i < |s.phases| && s.phases[i] == Running
    case Receive(c) =>
      c < |s.callers| && s.callers[c] == Collecting && s.received < |s.taken| && s.received < Count(s.phases)
    case Close(c) => c < |s.callers| && s.callers[c] == Collecting && s.received == |s.taken|
    case Pass(c) => c < |s.callers| && s.callers[c] == Entered && s.once == Finished
    case Await => true
    case WakeDone(w) => w < |s.waiters| && s.waiters[w] == Waiting && s.done
    case WakeTimer(w) => w < |s.waiters| && s.waiters[w] == Waiting
  }

  function Step(s: State, a: Action): State
    requires Enabled(s, a)
  {
    match a
    case Add(fs) => s.(funcs := s.funcs + fs)
    case Call => s.(callers := s.callers + [Entered])
    case Win(c) => s.(once := Busy(c), callers := s.callers[c := Locked])
    case Take(c) =>
      s.(taken := s.funcs, funcs := [], phases := seq(|s.funcs|, _ => Spawned), callers := s.callers[c := Collecting])
    case Start(i) => s.(phases := s.phases[i := Running], started := s.started + [i])
    case Finish(i) => s.(phases := s.phases[i := Sent])
    case Receive(_) => s.(received := s.received + 1)
    case Close(c) => s.(done := true, once := Finished, callers := s.callers[c := Returned])
    case Pass(c) => s.(callers := s.callers[c := Returned])
    case Await => s.(waiters := s.waiters + [Waiting])
    case WakeDone(w) => s.(waiters := s.waiters[w := Nil])
    case WakeTimer(w) => s.(waiters := s.waiters[w := TimedOut])
  }

  // ---------- the invariant ----------

  ghost predicate Has(xs: seq<nat>, i: nat) {
    exists k :: 0 <= k < |xs| && xs[k] == i
  }

  /** Goroutine i has been started exactly when it is past Spawned, and then once. */
  ghost predicate StartedOnce(s: State) {
    && (forall k :: 0 <= k < |s.started| ==> s.started[k] < |s.phases| && s.phases[s.started[k]] != Spawned)
    && (forall k, l :: 0 <= k < l < |s.started| ==> s.started[k] != s.started[l])
    && (forall i :: 0 <= i < |s.phases| && s.phases[i] != Spawned ==> Has(s.started, i))
  }

  /** Who may be where, by the state of `once`. */
  ghost predicate OneWinner(s: State) {
    && (s.once.Idle? ==> forall c :: 0 <= c < |s.callers| ==> s.callers[c] == Entered)
    && (s.once.Busy? ==>
          && s.once.winner < |s.callers| && s.callers[s.once.winner] in {Locked, Collecting}
          && forall c :: 0 <= c < |s.callers| && c != s.once.winner ==> s.callers[c] == Entered)
    && (s.once.Finished? ==> forall c :: 0 <= c < |s.callers| ==> s.callers[c] in {Entered, Returned})
  }

  ghost predicate Taken(s: State) {
    s.once.Finished? || (s.once.Busy? && s.once.winner < |s.callers| && s.callers[s.once.winner] == Collecting)
  }

  ghost predicate Inv(s: State) {
    && OneWinner(s) && StartedOnce(s)
    && |s.phases| == |s.taken|
    && (!Taken(s) ==> s.taken == [] && s.started == [] && s.received == 0)
    && s.received <= Count(s.phases)
    && (s.done <==> s.once.Finished?)
    && (s.done ==> s.received == |s.taken|)
    && (forall w :: 0 <= w < |s.waiters| && s.waiters[w] == Nil ==> s.done)
  }

  lemma {:induction false} CountBound(phases: seq<Phase>)
    ensures Count(phases) <= |phases|
    ensures Count(phases) == |phases| <==> forall i :: 0 <= i < |phases| ==> phases[i] == Sent
  {
    if phases != [] {
      CountBound(phases[1..]);
      if Count(phases) == |phases| {
        forall i | 0 <= i < |phases| ensures phases[i] == Sent {
          assert i > 0 ==> phases[i] == phases[1..][i - 1];
        }
      }
    }
  }

  lemma {:induction false} CountUpdate(phases: seq<Phase>, i: nat, p: Phase)
    requires i < |phases|
    ensures Count(phases[i := p])
         == Count(phases) - (if phases[i].Sent? then 1 else 0) + (if p.Sent? then 1 else 0)
  {
    if i == 0 {
      assert phases[0 := p][1..] == phases[1..];
    } else {
      assert phases[i := p][1..] == phases[1..][i - 1 := p];
      CountUpdate(phases[1..], i - 1, p);
    }
  }

  lemma StepKeepsWinner(s: State, a: Action)
    requires Inv(s) && Enabled(s, a)
    ensures OneWinner(Step(s, a))
  {
    hide StartedOnce, Count;
  }

  lemma StartKeepsStarted(s: State, i: nat)
    requires StartedOnce(s) && Enabled(s, Start(i))
    ensures StartedOnce(Step(s, Start(i)))
  {
    var s' := Step(s, Start(i));
    assert s'.started[|s.started|] == i;
    forall j | 0 <= j < |s'.phases| && s'.phases[j] != Spawned ensures Has(s'.started, j) {
      if j != i {
        assert Has(s.started, j);
        var k :| 0 <= k < |s.started| && s.started[k] == j;
        assert s'.started[k] == j;
      }
    }
  }

  lemma StepKeepsStarted(s: State, a: Action)
    requires Inv(s) && Enabled(s, a)
    ensures StartedOnce(Step(s, a))
  {
    hide Count;
    assert a.Take? ==> !Taken(s);
    hide OneWinner, Taken, Has;
    if a.Start? {
      StartKeepsStarted(s, a.i);
    }
  }

  lemma StepKeepsInv(s: State, a: Action)
    requires Inv(s) && Enabled(s, a)
    ensures Inv(Step(s, a))
  {
    StepKeepsWinner(s, a);
    StepKeepsStarted(s, a);
    hide StartedOnce;
    match a {
      case Start(i) => CountUpdate(s.phases, i, Running);
      case Finish(i) => CountUpdate(s.phases, i, Sent);
      case _ =>
    }
  }

  // ---------- runs ----------

  ghost predicate Possible(s: State, actions: seq<Action>)
    decreases |actions|
  {
    actions == [] || (Enabled(s, actions[0]) && Possible(Step(s, actions[0]), actions[1..]))
  }

  function Run(s: State, actions: seq<Action>): State
    requires Possible(s, actions)
    decreases |actions|
  {
    if actions == [] then s else Run(Step(s, actions[0]), actions[1..])
  }

  lemma {:induction false} RunKeepsInv(s: State, actions: seq<Action>)
    requires Inv(s) && Possible(s, actions)
    ensures Inv(Run(s, actions))
    decreases |actions|
  {
    if actions != [] {
      StepKeepsInv(s, actions[0]);
      RunKeepsInv(Step(s, actions[0]), actions[1..]);
    }
  }

  /** What Add put in before the list was first taken, on top of `added`; None if it was not taken. */
  function Found(added: seq<Func>, actions: seq<Action>): Option<seq<Func>>
    decreases |actions|
  {
    if actions == [] then None
    else match actions[0]
      case Add(fs) => Found(added + fs, actions[1..])
      case Take(_) => Some(added)
      case _ => Found(added, actions[1..])
  }

  /** Everything Add put in. */
  function Added(actions: seq<Action>): seq<Func> {
    if actions == [] then []
    else (match actions[0] case Add(fs) => fs case _ => []) + Added(actions[1..])
  }

  lemma {:induction false} TakenStays(s: State, actions: seq<Action>)
    requires Inv(s) && Taken(s) && Possible(s, actions)
    ensures Taken(Run(s, actions)) && Run(s, actions).taken == s.taken
    decreases |actions|
  {
    if actions != [] {
      StepKeepsInv(s, actions[0]);
      TakenOnce(s, actions[0]);
      hide Inv, Taken, Step, Enabled;
      TakenStays(Step(s, actions[0]), actions[1..]);
    }
  }

  lemma StepBeforeTake(s: State, a: Action)
    requires Inv(s) && !Taken(s) && Enabled(s, a)
    ensures Taken(Step(s, a)) <==> a.Take?
    ensures a.Take? ==> Step(s, a).taken == s.funcs && |Step(s, a).phases| == |s.funcs|
    ensures !a.Take? ==> Step(s, a).funcs == s.funcs + (if a.Add? then a.fs else [])
  {
    hide StartedOnce, Count;
  }

  lemma {:induction false} TakenIsFound(s: State, actions: seq<Action>)
    requires Inv(s) && !Taken(s) && Possible(s, actions)
    ensures var s' := Run(s, actions);
      match Found(s.funcs, actions)
      case None => !Taken(s') && s'.funcs == s.funcs + Added(actions)
      case Some(found) => Taken(s') && s'.taken == found
    decreases |actions|
  {
    if actions == [] {
      assert s.funcs + [] == s.funcs;
    } else {
      var a, s', rest := actions[0], Step(s, actions[0]), actions[1..];
      StepKeepsInv(s, a);
      StepBeforeTake(s, a);
      hide Inv, Taken, Step, Enabled;
      if a.Take? {
        TakenStays(s', rest);
      } else {
        TakenIsFound(s', rest);
        var fs := if a.Add? then a.fs else [];
        assert s.funcs + [] == s.funcs;
        assert s.funcs + fs + Added(rest) == s.funcs + (fs + Added(rest));
      }
    }
  }

  /**
   * In every interleaving from the start: until the list is taken it holds
   * everything added so far, in order; what is taken is exactly that, with one
   * goroutine for each function; each is started at most once, and nothing
   * else is. When `done` is closed, the list was taken and every function added
   * before that was started exactly once and has returned; WaitTimeout returns
   * nil only then.
   */
  lemma ClosedMeansAllRan(actions: seq<Action>)
    requires Possible(INITIAL, actions)
    ensures var s, found := Run(INITIAL, actions), Found([], actions);
      && (found.None? ==> s.funcs == Added(actions) && s.started == [] && !s.done)
      && (found.Some? ==> s.taken == found.value && |s.phases| == |found.value|)
      && (forall k, l :: 0 <= k < l < |s.started| ==> s.started[k] != s.started[l])
      && (forall k :: 0 <= k < |s.started| ==> s.started[k] < |s.taken|)
      && (s.done ==>
            && found.Some? && |s.started| == |found.value|
            && forall i :: 0 <= i < |found.value| ==> Has(s.started, i) && s.phases[i] == Sent)
      && (Nil in s.waiters ==> s.done)
  {
    assert Inv(INITIAL) && !Taken(INITIAL);
    RunKeepsInv(INITIAL, actions);
    TakenIsFound(INITIAL, actions);
    var s := Run(INITIAL, actions);
    assert [] + Added(actions) == Added(actions);
    if s.done {
      CountBound(s.phases);
      AllIndices(s.started, |s.taken|);
    }
  }

  /** Distinct positions below n that include them all are n in number. */
  lemma {:induction false} AllIndices(xs: seq<nat>, n: nat)
    requires forall k, l :: 0 <= k < l < |xs| ==> xs[k] != xs[l]
    requires forall k :: 0 <= k < |xs| ==> xs[k] < n
    requires forall i :: 0 <= i < n ==> Has(xs, i)
    ensures |xs| == n
    decreases n
  {
    if n > 0 {
      assert Has(xs, n - 1);
      var k :| 0 <= k < |xs| && xs[k] == n - 1;
      var rest := xs[..k] + xs[k + 1..];
      forall i | 0 <= i < n - 1 ensures Has(rest, i) {
        assert Has(xs, i);
        var j :| 0 <= j < |xs| && xs[j] == i;
        assert rest[if j < k then j else j - 1] == i;
      }
      AllIndices(rest, n - 1);
    }
  }

  lemma TakenOnce(s: State, a: Action)
    requires Inv(s) && Enabled(s, a) && Taken(s)
    ensures Taken(Step(s, a)) && Step(s, a).taken == s.taken
  {
  }

  /**
   * The list is taken once: from then on neither Add nor a later CloseAll
   * changes which functions run. There is one goroutine for each of them and
   * no other, every start is of one of them, at most once, and those started
   * before stay at the head of the log.
   */
  lemma {:induction false} LaterCallsRunNothing(s: State, actions: seq<Action>)
    requires Inv(s) && Taken(s) && Possible(s, actions)
    ensures var s' := Run(s, actions);
      && s'.taken == s.taken && |s'.phases| == |s.phases| == |s.taken|
      && s.started <= s'.started
      && (forall k :: 0 <= k < |s'.started| ==> s'.started[k] < |s.taken|)
      && (forall k, l :: 0 <= k < l < |s'.started| ==> s'.started[k] != s'.started[l])
    decreases |actions|
  {
    if actions != [] {
      assert s.started <= Step(s, actions[0]).started by {
        assert actions[0].Take? ==> !Taken(s);
      }
      StepKeepsInv(s, actions[0]);
      TakenOnce(s, actions[0]);
      LaterCallsRunNothing(Step(s, actions[0]), actions[1..]);
    }
  }

  /** Once `done` is closed nothing is started any more, and it stays closed. */
  lemma {:induction false} NothingAfterDone(s: State, actions: seq<Action>)
    requires Inv(s) && s.done && Possible(s, actions)
    ensures Run(s, actions).done && Run(s, actions).started == s.started
    decreases |actions|
  {
    if actions != [] {
      CountBound(s.phases);
      StepKeepsInv(s, actions[0]);
      assert !actions[0].Start?;
      NothingAfterDone(Step(s, actions[0]), actions[1..]);
    }
  }

  // ---------- shutdown gets there ----------

  /** How far shutdown still has to go: the winner's stage, then the work of the goroutines and receives. */
  datatype Distance = Distance(stage: nat, work: nat)

  ghost predicate Nearer(a: Distance, b: Distance) {
    a.stage < b.stage || (a.stage == b.stage && a.work < b.work)
  }

  /** Two for a goroutine not started, one for one inside its function. */
  function Work(phases: seq<Phase>): nat {
    if phases == [] then 0
    else (match phases[0] case Spawned => 2 case Running => 1 case Sent => 0) + Work(phases[1..])
  }

  function ToGo(s: State): Distance
    requires s.received <= |s.taken|
  {
    match s.once
    case Idle => Distance(3, 0)
    case Finished => Distance(0, 0)
    case Busy(w) =>
      if w < |s.callers| && s.callers[w] == Collecting then Distance(1, Work(s.phases) + (|s.taken| - s.received))
      else Distance(2, 0)
  }

  lemma {:induction false} WorkUpdate(phases: seq<Phase>, i: nat, p: Phase)
    requires i < |phases|
    ensures Work(phases[i := p]) == Work(phases) - Work([phases[i]]) + Work([p])
  {
    if i == 0 {
      assert phases[0 := p][1..] == phases[1..];
    } else {
      assert phases[i := p][1..] == phases[1..][i - 1 := p];
      WorkUpdate(phases[1..], i - 1, p);
    }
  }

  lemma WorkOf(p: Phase)
    ensures Work([p]) == match p case Spawned => 2 case Running => 1 case Sent => 0
  {
    assert [p][1..] == [];
  }

  /** The steps of the shutdown itself. */
  predicate Drives(a: Action) {
    a.Win? || a.Take? || a.Start? || a.Finish? || a.Receive? || a.Close?
  }

  lemma GoroutineApproaches(s: State, a: Action)
    requires Inv(s) && Enabled(s, a) && (a.Start? || a.Finish?) && s.received <= |s.taken|
    ensures Nearer(ToGo(Step(s, a)), ToGo(s))
  {
    CountBound(s.phases);
    assert Taken(s) && !s.done;
    hide StartedOnce, Count, Work;
    WorkUpdate(s.phases, a.i, if a.Start? then Running else Sent);
    WorkOf(Spawned);
    WorkOf(Running);
    WorkOf(Sent);
  }

  /** Each step of the shutdown brings the end nearer, and no other step puts it off. */
  lemma StepsApproach(s: State, a: Action)
    requires Inv(s) && Enabled(s, a)
    ensures s.received <= |s.taken| && Step(s, a).received <= |Step(s, a).taken|
    ensures if Drives(a) then Nearer(ToGo(Step(s, a)), ToGo(s)) else ToGo(Step(s, a)) == ToGo(s)
  {
    hide StartedOnce, Count, Work;
    StepKeepsInv(s, a);
    CountBound(s.phases);
    CountBound(Step(s, a).phases);
    if a.Start? || a.Finish? {
      hide ToGo;
      GoroutineApproaches(s, a);
    }
  }

  lemma {:induction false} NotAllSent(phases: seq<Phase>) returns (i: nat)
    requires Count(phases) < |phases|
    ensures i < |phases| && phases[i] != Sent
  {
    if phases[0] != Sent {
      i := 0;
    } else {
      i := NotAllSent(phases[1..]);
      i := i + 1;
    }
  }

  /**
   * Shutdown never gets stuck by itself: once CloseAll was called and until
   * `done` is closed, one of its steps is possible, and all it can ever have
   * to wait for is a close function that has been called to return.
   */
  lemma NeverStuck(s: State) returns (a: Action)
    requires Inv(s) && s.callers != [] && !s.done
    ensures Enabled(s, a) && Drives(a)
    ensures a.Finish? ==> s.phases[a.i] == Running
  {
    CountBound(s.phases);
    hide StartedOnce, Count;
    if s.once.Idle? {
      a := Win(0);
    } else {
      var w := s.once.winner;
      if s.callers[w] == Locked {
        a := Take(w);
      } else if s.received == |s.taken| {
        a := Close(w);
      } else if s.received < Count(s.phases) {
        a := Receive(w);
      } else {
        var i := NotAllSent(s.phases);
        a := if s.phases[i] == Spawned then Start(i) else Finish(i);
      }
    }
  }

  /** From every state of every run in which CloseAll was called, some continuation closes `done`. */
  lemma {:induction false} CanFinish(s: State) returns (actions: seq<Action>)
    requires Inv(s) && s.callers != [] && s.received <= |s.taken|
    ensures Possible(s, actions) && Run(s, actions).done
    ensures forall k :: 0 <= k < |actions| ==> Drives(actions[k])
    decreases ToGo(s).stage, ToGo(s).work
  {
    hide Enabled, Step, ToGo, Inv;
    if s.done {
      actions := [];
    } else {
      var a := NeverStuck(s);
      StepsApproach(s, a);
      StepKeepsInv(s, a);
      KeepsCallers(s, a);
      var rest := CanFinish(Step(s, a));
      actions := [a] + rest;
      assert actions[1..] == rest;
    }
  }

  lemma KeepsCallers(s: State, a: Action)
    requires Enabled(s, a)
    ensures |Step(s, a).callers| >= |s.callers|
  {
  }
}
