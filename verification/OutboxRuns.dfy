/**
 Whole runs of the sending protocol: how often the server gets a message, and how long its attempts are
 apart.
 */
module OutboxRuns {
  import opened PendingOutbox
  import opened Runs

  // ---- going on ----------------------------------------------------------------------------------

  function Next(s: State, step: Step): Outcome<State> {
    if Enabled(s, step) then Reached(Apply(s, step)) else Stuck
  }

  lemma TwoSteps(s: State, first: Step, second: Step)
    requires Enabled(s, first) && Enabled(Apply(s, first), second)
    ensures Leads(Next, s, [first, second], Apply(Apply(s, first), second))
  {
    OneStep(Next, Apply(s, first), second);
    assert [first, second][1..] == [second];
  }

  lemma RunOneMore(steps: seq<Step>, step: Step)
    requires Run(steps).Reached?
    ensures Run(steps + [step]) == Next(Run(steps).state, step)
  {
    assert (steps + [step])[..|steps|] == steps;
  }

  lemma RunThen(steps: seq<Step>, more: seq<Step>, t: State)
    requires Run(steps).Reached? && Leads(Next, Run(steps).state, more, t)
    ensures Run(steps + more) == Reached(t)
  {
    var run := (xs: seq<Step>) => Run(xs);
    forall xs, x | run(xs).Reached? ensures run(xs + [x]) == Next(run(xs).state, x) {
      RunOneMore(xs, x);
    }
    ReachedThen(Next, run, steps, more, t);
  }

  // ---- deliveries --------------------------------------------------------------------------------

  function AcceptedBy(outcome: RpcOutcome): nat {
    if outcome.Success? || (outcome.Transient? && outcome.accepted) then 1 else 0
  }

  /** The server accepts the message in this step, whatever the answer that comes back. */
  predicate Accepts(s: State, step: Step, k: Key) {
    && step.Rpc? && AcceptedBy(step.outcome) == 1
    && step.a in s.attempts && s.attempts[step.a].key == k
  }

  function AcceptedIn(steps: seq<Step>, k: Key): nat {
    if steps == [] then 0
    else
      var last := |steps| - 1;
      AcceptedIn(steps[..last], k)
      + if Run(steps[..last]).Reached? && Accepts(Run(steps[..last]).state, steps[last], k) then 1 else 0
  }

  lemma {:induction false} DeliveriesAreCounted(steps: seq<Step>, k: Key)
    requires Run(steps).Reached?
    ensures Count(Run(steps).state.history.deliveries, k) == AcceptedIn(steps, k)
  {
    if steps != [] {
      var last := |steps| - 1;
      DeliveriesAreCounted(steps[..last], k);
      StepDelivers(Run(steps[..last]).state, steps[last], k);
    }
  }

  lemma StepDelivers(s: State, step: Step, k: Key)
    requires Enabled(s, step)
    ensures Count(Apply(s, step).history.deliveries, k) == Count(s.history.deliveries, k) + if Accepts(s, step, k) then 1 else 0
  {
    if step.Rpc? {
      CallDelivers(s, step.a, step.outcome, k);
    } else {
      assert Recorded(s, step).deliveries == s.history.deliveries;
    }
  }

  lemma CallDelivers(s: State, a: AttemptId, outcome: RpcOutcome, k: Key)
    requires Enabled(s, Rpc(a, outcome))
    ensures Count(Apply(s, Rpc(a, outcome)).history.deliveries, k)
         == Count(s.history.deliveries, k) + if s.attempts[a].key == k then AcceptedBy(outcome) else 0
  {
  }

  /** The step leaves a delivery unrecorded: the call seems to fail, or the attempt breaks off before recording it. */
  predicate Unrecords(s: State, step: Step, k: Key) {
    match step
    case Rpc(a, outcome) => outcome == Transient(true) && a in s.attempts && s.attempts[a].key == k
    case Finish(a) => a in s.attempts && s.attempts[a] == Attempt(k, Sent)
    case CompleteTorn(a, _) => a in s.attempts && s.attempts[a].key == k
    case Crash => k in Delivered(s.attempts)
    case _ => false
  }

  function UnrecordedIn(steps: seq<Step>, k: Key): nat {
    if steps == [] then 0
    else
      var last := |steps| - 1;
      UnrecordedIn(steps[..last], k)
      + if Run(steps[..last]).Reached? && Unrecords(Run(steps[..last]).state, steps[last], k) then 1 else 0
  }

  lemma {:induction false} UnrecordedAreCounted(steps: seq<Step>, k: Key)
    requires Run(steps).Reached?
    ensures Unrecorded(Run(steps).state.history, k) == UnrecordedIn(steps, k)
  {
    if steps != [] {
      var last := |steps| - 1;
      UnrecordedAreCounted(steps[..last], k);
      StepUnrecords(Run(steps[..last]).state, steps[last], k);
    }
  }

  /** How many deliveries of the message went unrecorded so far. */
  function Unrecorded(h: History, k: Key): nat {
    Count(h.lost, k) + Count(h.doubted, k)
  }

  lemma StepUnrecords(s: State, step: Step, k: Key)
    requires Enabled(s, step)
    ensures Unrecorded(Recorded(s, step), k) == Unrecorded(s.history, k) + if Unrecords(s, step, k) then 1 else 0
  {
    if step.Rpc? {
      CallUnrecords(s, step.a, step.outcome, k);
    } else if step.Finish? {
      FinishUnrecords(s, step.a, k);
    } else if step.CompleteTorn? {
      CompletionUnrecords(s, step.a, step.cleared, k);
    } else if step.Crash? {
      CrashUnrecords(s, k);
    } else {
      assert Recorded(s, step).lost == s.history.lost && Recorded(s, step).doubted == s.history.doubted;
    }
  }

  lemma CallUnrecords(s: State, a: AttemptId, outcome: RpcOutcome, k: Key)
    requires Enabled(s, Rpc(a, outcome))
    ensures Unrecorded(Recorded(s, Rpc(a, outcome)), k) == Unrecorded(s.history, k) + if Unrecords(s, Rpc(a, outcome), k) then 1 else 0
  {
  }

  lemma FinishUnrecords(s: State, a: AttemptId, k: Key)
    requires Enabled(s, Finish(a))
    ensures Unrecorded(Recorded(s, Finish(a)), k) == Unrecorded(s.history, k) + if Unrecords(s, Finish(a), k) then 1 else 0
  {
  }

  lemma CompletionUnrecords(s: State, a: AttemptId, cleared: bool, k: Key)
    requires Enabled(s, CompleteTorn(a, cleared))
    ensures Unrecorded(Recorded(s, CompleteTorn(a, cleared)), k)
         == Unrecorded(s.history, k) + if Unrecords(s, CompleteTorn(a, cleared), k) then 1 else 0
  {
  }

  lemma CrashUnrecords(s: State, k: Key)
    ensures Unrecorded(Recorded(s, Crash), k) == Unrecorded(s.history, k) + if Unrecords(s, Crash, k) then 1 else 0
  {
  }

  /**
   The server accepts a message as often as steps of the run left a delivery unrecorded, and once more if one
   was recorded or is about to be. So it gets a message more than once if and only if two were left unrecorded,
   or one was and another was made; and if none was, it gets it once at most.
   */
  lemma DeliveredTwiceExactly(steps: seq<Step>, k: Key)
    requires Run(steps).Reached?
    ensures var s := Run(steps).state;
            var unrecorded := UnrecordedIn(steps, k);
            var recorded := Count(s.history.completions, k) == 1 || k in Delivered(s.attempts);
            && AcceptedIn(steps, k) == unrecorded + (if recorded then 1 else 0)
            && (AcceptedIn(steps, k) > 1 <==> unrecorded > 1 || (unrecorded == 1 && recorded))
  {
    RunKeepsInvariant(steps);
    DeliveriesAreCounted(steps, k);
    UnrecordedAreCounted(steps, k);
    var s := Run(steps).state;
    assert Settled(s, k) && Accounted(s, k);
    if k in Delivered(s.attempts) {
      DeliveredMeans(s.attempts, k);
      var a :| a in s.attempts && s.attempts[a] == Attempt(k, Sent);
      assert AttemptKnows(s, s.attempts[a]);
    }
  }

  // ---- waiting -----------------------------------------------------------------------------------

  /** The step is the message's send event, and begins an attempt although the record is not due. */
  predicate Early(s: State, step: Step, k: Key) {
    step.SendFires? && step.key == k && k !in s.inFlight && k in s.outbox && s.outbox[k].nextAt > s.now
  }

  ghost predicate EarlyAt(steps: seq<Step>, i: nat, k: Key) {
    i < |steps| && Run(steps[..i]).Reached? && Early(Run(steps[..i]).state, steps[i], k)
  }

  lemma StepSends(s: State, step: Step, k: Key)
    requires Enabled(s, step) && (k in s.sends ==> k in s.history.queued)
    ensures var t := Apply(s, step);
            && (k in s.history.queued ==> k in t.history.queued && (k in t.sends ==> k in s.sends))
            && (step.SendFires? && step.key == k ==> k !in t.sends && k in t.history.queued)
  {
  }

  lemma {:induction false} SendFiresOnce(steps: seq<Step>, i: nat, k: Key)
    requires Run(steps).Reached? && i < |steps| && steps[i].SendFires? && steps[i].key == k
    ensures k !in Run(steps).state.sends && k in Run(steps).state.history.queued
  {
    var last := |steps| - 1;
    var s := Run(steps[..last]).state;
    RunKeepsInvariant(steps[..last]);
    assert Spared(s, k);
    StepSends(s, steps[last], k);
    if i < last {
      SendFiresOnce(steps[..last], i, k);
    }
  }

  lemma {:induction false} RunOfPrefix(steps: seq<Step>, n: nat)
    requires Run(steps).Reached? && n <= |steps|
    ensures Run(steps[..n]).Reached? && (n < |steps| ==> Enabled(Run(steps[..n]).state, steps[n]))
    decreases |steps| - n
  {
    assert steps[..|steps|] == steps;
    if n < |steps| - 1 {
      RunOfPrefix(steps[..|steps| - 1], n);
      assert steps[..|steps| - 1][..n] == steps[..n];
    }
  }

  /** A message's attempts begin early at most once. */
  lemma EarlyAtMostOnce(steps: seq<Step>, i: nat, j: nat, k: Key)
    requires Run(steps).Reached? && EarlyAt(steps, i, k) && EarlyAt(steps, j, k)
    ensures i == j
  {
    var first, second := if i < j then i else j, if i < j then j else i;
    if first < second {
      RunOfPrefix(steps, second);
      SendFiresOnce(steps[..second], first, k);
    }
  }

  lemma StepWaives(s: State, step: Step, k: Key)
    requires Enabled(s, step)
    ensures Count(Apply(s, step).history.waived, k) == Count(s.history.waived, k) + if Early(s, step, k) then Outstanding(s, k) else 0
  {
  }

  /** Waiting time was waived if and only if the send event came early. */
  lemma {:induction false} WaivedExactlyWhenEarly(steps: seq<Step>, k: Key)
    requires Run(steps).Reached?
    ensures Count(Run(steps).state.history.waived, k) > 0 <==> exists i :: EarlyAt(steps, i, k)
  {
    if steps != [] {
      var last := |steps| - 1;
      var front := steps[..last];
      WaivedExactlyWhenEarly(front, k);
      StepWaives(Run(front).state, steps[last], k);
      forall i: nat | i < last ensures EarlyAt(steps, i, k) <==> EarlyAt(front, i, k) {
        assert front[..i] == steps[..i];
      }
      assert EarlyAt(steps, last, k) <==> Early(Run(front).state, steps[last], k);
    }
  }

  /**
   After n recorded failures the next attempt is due a delay after the last one; at least n - 1 delays after
   the first in any case, and n delays unless the send event came early, which it does at most once.
   */
  lemma BackoffAccumulates(steps: seq<Step>, k: Key)
    requires Run(steps).Reached? && k in Run(steps).state.outbox
    requires Times(Run(steps).state.history, k) != []
    ensures var s := Run(steps).state;
            var times := Times(s.history, k);
            var n := |times|;
            && s.outbox[k].nextAt == times[n - 1] + Delay(n)
            && s.outbox[k].nextAt >= times[0] + TotalDelay(n - 1)
            && ((exists i :: EarlyAt(steps, i, k)) || s.outbox[k].nextAt >= times[0] + TotalDelay(n))
  {
    RunKeepsInvariant(steps);
    assert Timed(Run(steps).state, k) && Spared(Run(steps).state, k);
    TimedMeans(Run(steps).state, k);
    WaivedExactlyWhenEarly(steps, k);
  }

  lemma TimedMeans(s: State, k: Key)
    requires Timed(s, k) && Spared(s, k) && k in s.outbox && Times(s.history, k) != []
    ensures var times := Times(s.history, k);
            && s.outbox[k].nextAt == times[|times| - 1] + Delay(|times|)
            && s.outbox[k].nextAt >= times[0] + TotalDelay(|times| - 1)
            && (Count(s.history.waived, k) == 0 ==> s.outbox[k].nextAt >= times[0] + TotalDelay(|times|))
  {
  }

  // ---- one attempt -------------------------------------------------------------------------------

  datatype Store = Store(messages: map<Key, Status>, outbox: map<Key, Record>, inFlight: set<Key>)

  function StoreOf(s: State): Store {
    Store(s.messages, s.outbox, s.inFlight)
  }

  /** The step begins an attempt on the message. */
  predicate Begins(s: State, first: Step, a: AttemptId, k: Key) {
    Enabled(s, first) && (first == SendFires(a, k) || first == TimerFires(a, k))
  }

  /** Beginning and reading only take the token. */
  lemma ReadStore(s: State, first: Step, a: AttemptId, k: Key)
    requires Begins(s, first, a, k) && k !in s.inFlight
    ensures var read := Apply(Apply(s, first), Read(a));
            && StoreOf(read) == StoreOf(s).(inFlight := s.inFlight + {k}) && read.now == s.now
            && a in read.attempts
            && read.attempts[a] == Attempt(k, if k in s.messages && s.messages[k] == Pending then Sending else Clearing)
  {
  }

  // ---- runs that go wrong ------------------------------------------------------------------------

  /** An attempt that begins by one of the two events and fails in a passing way. */
  function Failing(first: Step, a: AttemptId, accepted: bool): seq<Step> {
    [first, Read(a), Rpc(a, Transient(accepted)), Schedule(a), Finish(a)]
  }

  /** What such an attempt leaves behind: a record due later, one failure more, and a delivery if there was one. */
  ghost predicate Fails(s: State, first: Step, k: Key, accepted: bool, t: State) {
    var n := Failures(s.outbox, k) + 1;
    && StoreOf(t) == StoreOf(s).(outbox := s.outbox[k := Record(n, s.now + Delay(n))])
    && t.now == s.now && t.attempts == s.attempts
    && t.sends == (if first.SendFires? then s.sends - {k} else s.sends)
    && Times(t.history, k) == Times(s.history, k) + [s.now]
    && Count(t.history.deliveries, k) == Count(s.history.deliveries, k) + (if accepted then 1 else 0)
    && Count(t.history.lost, k) == Count(s.history.lost, k)
  }

  lemma ReadRemembers(s: State, first: Step, a: AttemptId, k: Key)
    requires Begins(s, first, a, k) && k !in s.inFlight && k in s.messages && s.messages[k] == Pending
    ensures var read := Apply(Apply(s, first), Read(a));
            && read.attempts == s.attempts[a := Attempt(k, Sending)]
            && read.sends == (if first.SendFires? then s.sends - {k} else s.sends)
            && Times(read.history, k) == Times(s.history, k)
            && Count(read.history.deliveries, k) == Count(s.history.deliveries, k)
            && Count(read.history.lost, k) == Count(s.history.lost, k)
  {
    assert s.attempts[a := Attempt(k, Begun)][a := Attempt(k, Sending)] == s.attempts[a := Attempt(k, Sending)];
  }

  /** What the first three steps of an attempt do, up to the answer of the server. */
  ghost predicate Called(s: State, first: Step, a: AttemptId, k: Key, outcome: RpcOutcome, t: State) {
    && StoreOf(t) == StoreOf(s).(inFlight := s.inFlight + {k}) && t.now == s.now
    && t.attempts == s.attempts[a := Attempt(k, Answered(outcome))]
    && t.sends == (if first.SendFires? then s.sends - {k} else s.sends)
    && Times(t.history, k) == Times(s.history, k) && Count(t.history.lost, k) == Count(s.history.lost, k)
    && Count(t.history.deliveries, k) == Count(s.history.deliveries, k) + AcceptedBy(outcome)
  }

  lemma CallLeads(s: State, first: Step, a: AttemptId, k: Key, outcome: RpcOutcome) returns (t: State)
    requires Begins(s, first, a, k) && k !in s.inFlight && k in s.messages && s.messages[k] == Pending
    ensures Leads(Next, s, [first, Read(a), Rpc(a, outcome)], t) && Called(s, first, a, k, outcome, t)
  {
    var sending := Apply(Apply(s, first), Read(a));
    ReadStore(s, first, a, k);
    ReadRemembers(s, first, a, k);
    TwoSteps(s, first, Read(a));
    t := Answer(sending, a, k, outcome);
    LeadsOn(Next, s, [first, Read(a)], sending, [Rpc(a, outcome)], t);
    assert [first, Read(a)] + [Rpc(a, outcome)] == [first, Read(a), Rpc(a, outcome)];
    assert s.attempts[a := Attempt(k, Sending)][a := Attempt(k, Answered(outcome))] == s.attempts[a := Attempt(k, Answered(outcome))];
  }

  lemma Answer(s: State, a: AttemptId, k: Key, outcome: RpcOutcome) returns (t: State)
    requires a in s.attempts && s.attempts[a] == Attempt(k, Sending)
    ensures Leads(Next, s, [Rpc(a, outcome)], t)
    ensures StoreOf(t) == StoreOf(s) && t.now == s.now && t.sends == s.sends
    ensures t.attempts == s.attempts[a := Attempt(k, Answered(outcome))]
    ensures Times(t.history, k) == Times(s.history, k) && Count(t.history.lost, k) == Count(s.history.lost, k)
    ensures Count(t.history.deliveries, k) == Count(s.history.deliveries, k) + AcceptedBy(outcome)
  {
    t := Apply(s, Rpc(a, outcome));
    OneStep(Next, s, Rpc(a, outcome));
  }

  ghost predicate Retried(s: State, a: AttemptId, k: Key, t: State) {
    var n := Failures(s.outbox, k) + 1;
    && StoreOf(t) == StoreOf(s).(outbox := s.outbox[k := Record(n, s.now + Delay(n))], inFlight := s.inFlight - {k})
    && t.now == s.now && t.attempts == s.attempts - {a} && t.sends == s.sends
    && Times(t.history, k) == Times(s.history, k) + [s.now]
    && Count(t.history.deliveries, k) == Count(s.history.deliveries, k)
    && Count(t.history.lost, k) == Count(s.history.lost, k)
  }

  lemma RetryLeads(s: State, a: AttemptId, k: Key) returns (t: State)
    requires a in s.attempts && s.attempts[a] == Attempt(k, Stumbled)
    ensures Leads(Next, s, [Schedule(a), Finish(a)], t) && Retried(s, a, k, t)
  {
    t := Apply(Apply(s, Schedule(a)), Finish(a));
    TwoSteps(s, Schedule(a), Finish(a));
  }

  lemma CalledThenRetried(s: State, first: Step, a: AttemptId, k: Key, accepted: bool, m: State, t: State)
    requires k !in s.inFlight && a !in s.attempts
    requires Called(s, first, a, k, Transient(accepted), m) && Retried(m, a, k, t)
    ensures Fails(s, first, k, accepted, t)
  {
    assert s.inFlight + {k} - {k} == s.inFlight && s.attempts[a := Attempt(k, Stumbled)] - {a} == s.attempts;
  }

  lemma FailingLeads(s: State, first: Step, a: AttemptId, k: Key, accepted: bool) returns (t: State)
    requires Begins(s, first, a, k) && k !in s.inFlight && k in s.messages && s.messages[k] == Pending
    ensures Leads(Next, s, Failing(first, a, accepted), t) && Fails(s, first, k, accepted, t)
  {
    var answered := CallLeads(s, first, a, k, Transient(accepted));
    t := RetryLeads(answered, a, k);
    CalledThenRetried(s, first, a, k, accepted, answered, t);
    ThreeAndTwo(Next, s, first, Read(a), Rpc(a, Transient(accepted)), answered, Schedule(a), Finish(a), t);
  }

  lemma QueuedFirst(k: Key)
    ensures var s := Apply(INITIAL, Queue(k));
            && Run([Queue(k)]) == Reached(s)
            && StoreOf(s) == Store(map[k := Pending], map[k := Record(0, 0)], {}) && s.sends == {k}
            && s.attempts == map[] && s.now == 0 && Times(s.history, k) == []
            && Count(s.history.deliveries, k) == 0 && Count(s.history.lost, k) == 0
  {
    assert [Queue(k)][..0] == [];
  }

  /** A failed first attempt that the timer began, with the message's send event still to come. */
  lemma TimerFirst(k: Key) returns (once: State)
    ensures Run([Queue(k)] + Failing(TimerFires(0, k), 0, false)) == Reached(once)
    ensures once.messages == map[k := Pending] && once.outbox == map[k := Record(1, 1)] && once.inFlight == {}
    ensures once.attempts == map[] && once.now == 0 && once.sends == {k} && Times(once.history, k) == [0]
  {
    var queued := Apply(INITIAL, Queue(k));
    QueuedFirst(k);
    once := FailingLeads(queued, TimerFires(0, k), 0, k, false);
    RunThen([Queue(k)], Failing(TimerFires(0, k), 0, false), once);
    DelayIsBelowCap(1);
    PowersOfTwo();
    assert map[k := Record(0, 0)][k := Record(1, 1)] == map[k := Record(1, 1)];
  }

  /**
   The wait does fall short: where the timer comes first and the message's send event, come late itself, finds
   the record not due, two failures follow at once, and the next attempt is due after two seconds, not three.
   */
  lemma EarlySendFallsShort(k: Key)
    ensures var steps := [Queue(k)] + Failing(TimerFires(0, k), 0, false) + Failing(SendFires(1, k), 1, false);
            && Run(steps).Reached?
            && var s := Run(steps).state;
               && Times(s.history, k) == [0, 0]
               && k in s.outbox && s.outbox[k].nextAt == 2 && TotalDelay(2) == 3
  {
    var once := TimerFirst(k);
    var twice := FailingLeads(once, SendFires(1, k), 1, k, false);
    RunThen([Queue(k)] + Failing(TimerFires(0, k), 0, false), Failing(SendFires(1, k), 1, false), twice);
    DelayIsBelowCap(2);
    PowersOfTwo();
    TotalDelayFormula(2);
  }

  // ---- when the wait falls short -----------------------------------------------------------------

  /** Every token belongs to an attempt. */
  ghost predicate TokensUsed(s: State) {
    forall k :: k in s.inFlight ==> exists a :: a in s.attempts && s.attempts[a].key == k
  }

  lemma {:induction false} RunUsesTokens(steps: seq<Step>)
    requires Run(steps).Reached?
    ensures TokensUsed(Run(steps).state)
  {
    if steps != [] {
      var last := |steps| - 1;
      RunUsesTokens(steps[..last]);
      RunKeepsInvariant(steps[..last]);
      StepUsesTokens(Run(steps[..last]).state, steps[last]);
    }
  }

  lemma StepUsesTokens(s: State, step: Step)
    requires TokensHeld(s) && TokensUsed(s) && Enabled(s, step)
    ensures TokensUsed(Apply(s, step))
  {
    var t := Apply(s, step);
    forall k | k in t.inFlight ensures exists a :: a in t.attempts && t.attempts[a].key == k {
      if k in s.inFlight {
        var a :| a in s.attempts && s.attempts[a].key == k;
        AttemptStays(s, step, a);
      } else {
        assert step.SendFires? || step.TimerFires?;
        assert step.a in t.attempts && t.attempts[step.a].key == k;
      }
    }
  }

  lemma AttemptStays(s: State, step: Step, a: AttemptId)
    requires a in s.attempts && Enabled(s, step)
    requires s.attempts[a].key in Apply(s, step).inFlight
    ensures a in Apply(s, step).attempts && Apply(s, step).attempts[a].key == s.attempts[a].key
  {
  }

  /** The message is pending and listed, and no failure of it is recorded yet. */
  ghost predicate Untried(s: State, k: Key) {
    IsPending(s, k) && k in s.outbox && Times(s.history, k) == []
  }

  /** However the run goes on, each failure recorded puts the next attempt off until all delays so far have passed. */
  ghost predicate WaitsInFull(steps: seq<Step>, k: Key) {
    forall more :: WaitedInFull(Run(steps + more), k)
  }

  ghost predicate WaitedInFull(o: Outcome<State>, k: Key) {
    o.Reached? && k in o.state.outbox && Times(o.state.history, k) != [] ==>
      var times := Times(o.state.history, k);
      o.state.outbox[k].nextAt >= times[0] + TotalDelay(|times|)
  }

  lemma StepWaivesNothing(s: State, step: Step, k: Key)
    requires Enabled(s, step) && k in s.history.queued && k !in s.sends && Timed(s, k)
    requires Count(s.history.waived, k) == 0
    ensures var t := Apply(s, step);
            k in t.history.queued && k !in t.sends && Count(t.history.waived, k) == 0
  {
    StepSends(s, step, k);
    StepWaives(s, step, k);
  }

  lemma {:induction false} NothingIsWaived(steps: seq<Step>, more: seq<Step>, k: Key)
    requires Run(steps).Reached? && Run(steps + more).Reached?
    requires var s := Run(steps).state; k in s.history.queued && k !in s.sends && Count(s.history.waived, k) == 0
    ensures var t := Run(steps + more).state; k in t.history.queued && k !in t.sends && Count(t.history.waived, k) == 0
    decreases |more|
  {
    if more == [] {
      assert steps + more == steps;
    } else {
      var front, last := more[..|more| - 1], more[|more| - 1];
      assert steps + more == (steps + front) + [last];
      RunOfPrefix(steps + more, |steps + front|);
      assert (steps + more)[..|steps + front|] == steps + front;
      NothingIsWaived(steps, front, k);
      RunKeepsInvariant(steps + front);
      RunOneMore(steps + front, last);
      StepWaivesNothing(Run(steps + front).state, last, k);
    }
  }

  lemma WaitsWithoutSend(steps: seq<Step>, k: Key)
    requires Run(steps).Reached? && Untried(Run(steps).state, k) && k !in Run(steps).state.sends
    ensures WaitsInFull(steps, k)
  {
    RunKeepsInvariant(steps);
    assert Settled(Run(steps).state, k) && Spared(Run(steps).state, k);
    forall more ensures WaitedInFull(Run(steps + more), k) {
      if Run(steps + more).Reached? && k in Run(steps + more).state.outbox && Times(Run(steps + more).state.history, k) != [] {
        NothingIsWaived(steps, more, k);
        RunKeepsInvariant(steps + more);
        assert Timed(Run(steps + more).state, k) && Spared(Run(steps + more).state, k);
        TimedMeans(Run(steps + more).state, k);
      }
    }
  }

  lemma {:induction false} FreshAttempt(attempts: map<AttemptId, Attempt>) returns (a: AttemptId)
    ensures forall b :: b in attempts ==> b < a
    decreases |attempts|
  {
    a := 0;
    if attempts != map[] {
      var b :| b in attempts;
      var rest := FreshAttempt(attempts - {b});
      a := if b < rest then rest else b + 1;
      assert forall c :: c in attempts && c != b ==> c in attempts - {b};
    }
  }

  /** The token can be had: whoever holds it may break off. */
  lemma TokenIsFreed(s: State, k: Key) returns (steps: seq<Step>, t: State)
    requires TokensHeld(s) && TokensUsed(s)
    ensures Leads(Next, s, steps, t) && k !in t.inFlight
    ensures t.outbox == s.outbox && t.messages == s.messages && t.sends == s.sends && t.now == s.now
    ensures Times(t.history, k) == Times(s.history, k)
  {
    if k in s.inFlight {
      var a :| a in s.attempts && s.attempts[a].key == k;
      steps, t := [Finish(a)], Apply(s, Finish(a));
      OneStep(Next, s, Finish(a));
    } else {
      steps, t := [], s;
    }
  }

  lemma TwoFailuresAtOnce(s: State, a: AttemptId, k: Key) returns (t: State)
    requires a !in s.attempts && k !in s.inFlight && k in s.messages && s.messages[k] == Pending
    requires k in s.outbox && s.outbox[k] == Record(0, 0) && k in s.sends && Times(s.history, k) == []
    ensures Leads(Next, s, Failing(TimerFires(a, k), a, false) + Failing(SendFires(a, k), a, false), t)
    ensures k in t.outbox && t.outbox[k].nextAt == s.now + Delay(2) && Times(t.history, k) == [s.now, s.now]
  {
    var once := FailingLeads(s, TimerFires(a, k), a, k, false);
    t := FailingLeads(once, SendFires(a, k), a, k, false);
    LeadsOn(Next, s, Failing(TimerFires(a, k), a, false), once, Failing(SendFires(a, k), a, false), t);
  }

  lemma FallsShortWithSend(steps: seq<Step>, k: Key)
    requires Run(steps).Reached? && Untried(Run(steps).state, k) && k in Run(steps).state.sends
    ensures !WaitsInFull(steps, k)
  {
    var s := Run(steps).state;
    RunKeepsInvariant(steps);
    RunUsesTokens(steps);
    assert Settled(s, k) && Timed(s, k);
    var freeing, free := TokenIsFreed(s, k);
    var a := FreshAttempt(free.attempts);
    var t := TwoFailuresAtOnce(free, a, k);
    var failing := Failing(TimerFires(a, k), a, false) + Failing(SendFires(a, k), a, false);
    LeadsOn(Next, s, freeing, free, failing, t);
    RunThen(steps, freeing + failing, t);
    assert TotalDelay(2) == TotalDelay(1) + Delay(2) && TotalDelay(1) == TotalDelay(0) + Delay(1);
    DelayIsBelowCap(1);
    PowersOfTwo();
    assert !WaitedInFull(Run(steps + (freeing + failing)), k);
  }

  /**
   From where no failure of a message is recorded yet, its attempts wait in full however the run goes on, if and
   only if its send event has been handled (or lost in a crash) by then.
   */
  lemma WaitsInFullExactly(steps: seq<Step>, k: Key)
    requires Run(steps).Reached? && Untried(Run(steps).state, k)
    ensures WaitsInFull(steps, k) <==> k !in Run(steps).state.sends
  {
    if k in Run(steps).state.sends {
      FallsShortWithSend(steps, k);
    } else {
      WaitsWithoutSend(steps, k);
    }
  }

  /** A call accepted but answered too late is made again: the server gets the message twice, and no attempt breaks off. */
  lemma AcceptedTwice(k: Key)
    ensures var again := [TimerFires(1, k), Read(1), Rpc(1, Success), Complete(1), Finish(1)];
            var steps := [Queue(k)] + Failing(SendFires(0, k), 0, true) + [Tick] + again;
            && Run(steps).Reached?
            && AcceptedIn(steps, k) == 2 && Count(Run(steps).state.history.lost, k) == 0
  {
    var again := [TimerFires(1, k), Read(1), Rpc(1, Success), Complete(1), Finish(1)];
    var before := [Queue(k)] + Failing(SendFires(0, k), 0, true);
    var once := AcceptedOnce(k);
    var later := Apply(once, Tick);
    assert Leads(Next, once, [Tick], later);
    RunThen(before, [Tick], later);
    var t := SucceedingLeads(later, TimerFires(1, k), 1, k);
    RunThen(before + [Tick], again, t);
    DeliveriesAreCounted(before + [Tick] + again, k);
  }

  lemma AcceptedOnce(k: Key) returns (once: State)
    ensures Run([Queue(k)] + Failing(SendFires(0, k), 0, true)) == Reached(once)
    ensures once.messages == map[k := Pending] && once.outbox == map[k := Record(1, 1)] && once.inFlight == {}
    ensures once.attempts == map[] && once.now == 0
    ensures Count(once.history.deliveries, k) == 1 && Count(once.history.lost, k) == 0
  {
    var queued := Apply(INITIAL, Queue(k));
    QueuedFirst(k);
    once := FailingLeads(queued, SendFires(0, k), 0, k, true);
    RunThen([Queue(k)], Failing(SendFires(0, k), 0, true), once);
    DelayIsBelowCap(1);
    PowersOfTwo();
    assert map[k := Record(0, 0)][k := Record(1, 1)] == map[k := Record(1, 1)];
  }

  lemma SucceedingLeads(s: State, first: Step, a: AttemptId, k: Key) returns (t: State)
    requires Begins(s, first, a, k) && k !in s.inFlight && k in s.messages && s.messages[k] == Pending
    ensures Leads(Next, s, [first, Read(a), Rpc(a, Success), Complete(a), Finish(a)], t)
    ensures Count(t.history.deliveries, k) == Count(s.history.deliveries, k) + 1
    ensures Count(t.history.lost, k) == Count(s.history.lost, k)
  {
    var answered := CallLeads(s, first, a, k, Success);
    t := Apply(Apply(answered, Complete(a)), Finish(a));
    TwoSteps(answered, Complete(a), Finish(a));
    ThreeAndTwo(Next, s, first, Read(a), Rpc(a, Success), answered, Complete(a), Finish(a), t);
  }
}
