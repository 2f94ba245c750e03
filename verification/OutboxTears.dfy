/**
 What is left where an operation on the outbox was torn between two of its commits: which messages and records
 no longer go together, until when, and what becomes of the messages.
 */
module OutboxTears {
  import opened OutboxRuns
  import opened PendingOutbox
  import opened Runs

  // ---- the steps that tear -----------------------------------------------------------------------

  /** An attempt on the message settles it and leaves its record behind. */
  predicate LeavesRecord(s: State, step: Step, k: Key) {
    match step
    case MarkTorn(a) => a in s.attempts && s.attempts[a].key == k
    case CompleteTorn(a, cleared) => !cleared && a in s.attempts && s.attempts[a].key == k
    case _ => false
  }

  predicate Clears(s: State, step: Step, k: Key) {
    step.Clear? && step.a in s.attempts && s.attempts[step.a].key == k
  }

  predicate LosesMessage(s: State, step: Step, k: Key) {
    step.CompleteTorn? && step.a in s.attempts && s.attempts[step.a].key == k
  }

  ghost predicate LeavesRecordAt(steps: seq<Step>, i: nat, k: Key) {
    i < |steps| && Run(steps[..i]).Reached? && LeavesRecord(Run(steps[..i]).state, steps[i], k)
  }

  ghost predicate ClearsAt(steps: seq<Step>, i: nat, k: Key) {
    i < |steps| && Run(steps[..i]).Reached? && Clears(Run(steps[..i]).state, steps[i], k)
  }

  ghost predicate LosesMessageAt(steps: seq<Step>, i: nat, k: Key) {
    i < |steps| && Run(steps[..i]).Reached? && LosesMessage(Run(steps[..i]).state, steps[i], k)
  }

  /** A record was left behind at that step, and no attempt has cleared it since. */
  ghost predicate LeftAt(steps: seq<Step>, i: nat, k: Key) {
    LeavesRecordAt(steps, i, k) && forall j :: i < j < |steps| ==> !ClearsAt(steps, j, k)
  }

  lemma StepTears(s: State, step: Step, k: Key)
    requires Enabled(s, step)
    ensures var h := Recorded(s, step);
            && (k in h.unlisted <==> k in s.history.unlisted || step == QueueTorn(k))
            && (k in h.stale <==> LeavesRecord(s, step, k) || (k in s.history.stale && !Clears(s, step, k)))
            && (k in h.vanished <==> k in s.history.vanished || LosesMessage(s, step, k))
  {
    if step.CompleteTorn? || step.MarkTorn? || step.Clear? || step.QueueTorn? {
      TearTears(s, step, k);
    } else {
      OthersTearNothing(s, step);
    }
  }

  lemma TearTears(s: State, step: Step, k: Key)
    requires Enabled(s, step) && (step.CompleteTorn? || step.MarkTorn? || step.Clear? || step.QueueTorn?)
    ensures var h := Recorded(s, step);
            && (k in h.unlisted <==> k in s.history.unlisted || step == QueueTorn(k))
            && (k in h.stale <==> LeavesRecord(s, step, k) || (k in s.history.stale && !Clears(s, step, k)))
            && (k in h.vanished <==> k in s.history.vanished || LosesMessage(s, step, k))
  {
  }

  lemma OthersTearNothing(s: State, step: Step)
    requires Enabled(s, step) && !step.CompleteTorn? && !step.MarkTorn? && !step.Clear? && !step.QueueTorn?
    ensures var h := Recorded(s, step);
            h.unlisted == s.history.unlisted && h.stale == s.history.stale && h.vanished == s.history.vanished
  {
    if step.Rpc? {
      CallTearsNothing(s, step.a, step.outcome);
    }
  }

  lemma CallTearsNothing(s: State, a: AttemptId, outcome: RpcOutcome)
    requires Enabled(s, Rpc(a, outcome))
    ensures var h := Recorded(s, Rpc(a, outcome));
            h.unlisted == s.history.unlisted && h.stale == s.history.stale && h.vanished == s.history.vanished
  {
  }

  lemma SameBefore(steps: seq<Step>, last: nat, i: nat, k: Key)
    requires i < last < |steps|
    ensures LeavesRecordAt(steps[..last], i, k) <==> LeavesRecordAt(steps, i, k)
    ensures ClearsAt(steps[..last], i, k) <==> ClearsAt(steps, i, k)
    ensures LosesMessageAt(steps[..last], i, k) <==> LosesMessageAt(steps, i, k)
  {
    assert steps[..last][..i] == steps[..i];
  }

  lemma {:induction false} UnlistedExactly(steps: seq<Step>, k: Key)
    requires Run(steps).Reached?
    ensures k in Run(steps).state.history.unlisted <==> QueueTorn(k) in steps
  {
    if steps != [] {
      var last := |steps| - 1;
      UnlistedExactly(steps[..last], k);
      StepTears(Run(steps[..last]).state, steps[last], k);
      assert steps == steps[..last] + [steps[last]];
    }
  }

  lemma {:induction false} VanishedExactly(steps: seq<Step>, k: Key)
    requires Run(steps).Reached?
    ensures k in Run(steps).state.history.vanished <==> exists i :: LosesMessageAt(steps, i, k)
  {
    if steps != [] {
      var last := |steps| - 1;
      var front := steps[..last];
      VanishedExactly(front, k);
      StepTears(Run(front).state, steps[last], k);
      forall i: nat | i < last ensures LosesMessageAt(steps, i, k) <==> LosesMessageAt(front, i, k) {
        SameBefore(steps, last, i, k);
      }
      assert LosesMessageAt(steps, last, k) <==> LosesMessage(Run(front).state, steps[last], k);
    }
  }

  lemma LeftBefore(steps: seq<Step>, last: nat, i: nat, k: Key)
    requires i < last && last == |steps| - 1
    ensures LeftAt(steps, i, k) <==> LeftAt(steps[..last], i, k) && !ClearsAt(steps, last, k)
  {
    SameBefore(steps, last, i, k);
    forall j | i < j < last ensures ClearsAt(steps, j, k) <==> ClearsAt(steps[..last], j, k) {
      SameBefore(steps, last, j, k);
    }
  }

  lemma {:induction false} StaleExactly(steps: seq<Step>, k: Key)
    requires Run(steps).Reached?
    ensures k in Run(steps).state.history.stale <==> exists i :: LeftAt(steps, i, k)
  {
    if steps != [] {
      var last := |steps| - 1;
      var front := steps[..last];
      StaleExactly(front, k);
      StepTears(Run(front).state, steps[last], k);
      assert ClearsAt(steps, last, k) <==> Clears(Run(front).state, steps[last], k);
      forall i: nat | i < last ensures LeftAt(steps, i, k) <==> LeftAt(front, i, k) && !Clears(Run(front).state, steps[last], k) {
        LeftBefore(steps, last, i, k);
      }
      assert LeftAt(steps, last, k) <==> LeavesRecord(Run(front).state, steps[last], k);
    }
  }

  // ---- main results ------------------------------------------------------------------------------

  /**
   A message has a record exactly when it is pending, if and only if its queueing was not torn, and no torn
   settling left a record behind that has not been cleared since.
   */
  lemma MirrorsExactlyUnlessTorn(steps: seq<Step>, k: Key)
    requires Run(steps).Reached?
    ensures var s := Run(steps).state;
            (k in s.outbox <==> IsPending(s, k)) <==> QueueTorn(k) !in steps && !exists i :: LeftAt(steps, i, k)
  {
    OutboxMirrorsPending(steps, k);
    UnlistedExactly(steps, k);
    StaleExactly(steps, k);
  }

  /** A queued message is gone from the store if and only if it was completed, or a torn completion lost it. */
  lemma GoneExactly(steps: seq<Step>, k: Key)
    requires Run(steps).Reached? && k in Run(steps).state.history.queued
    ensures var s := Run(steps).state;
            k !in s.messages <==> Count(s.history.completions, k) == 1 || exists i :: LosesMessageAt(steps, i, k)
  {
    OutboxMirrorsPending(steps, k);
    VanishedExactly(steps, k);
  }

  /** Nothing of the message has happened yet, or its queueing was torn. */
  ghost predicate Untouched(s: State, k: Key) {
    k !in s.history.queued || k in s.history.unlisted
  }

  lemma {:induction false} UntouchedIsNotAccepted(steps: seq<Step>, k: Key)
    requires Run(steps).Reached? && Untouched(Run(steps).state, k)
    ensures AcceptedIn(steps, k) == 0
  {
    if steps != [] {
      var last := |steps| - 1;
      var s := Run(steps[..last]).state;
      RunKeepsInvariant(steps[..last]);
      UntouchedBefore(s, steps[last], k);
      UntouchedIsNotAccepted(steps[..last], k);
    }
  }

  lemma UntouchedBefore(s: State, step: Step, k: Key)
    requires AttemptsKnow(s) && Enabled(s, step) && Untouched(Apply(s, step), k)
    ensures Untouched(s, k) && !Accepts(s, step, k)
  {
    StepTears(s, step, k);
    assert step.Rpc? ==> AttemptKnows(s, s.attempts[step.a]);
  }

  /** A message whose queueing was torn stays pending for good: no attempt is ever made on it. */
  lemma TornMessageIsNeverSent(steps: seq<Step>, k: Key)
    requires Run(steps).Reached? && QueueTorn(k) in steps
    ensures var s := Run(steps).state;
            && IsPending(s, k) && k !in s.outbox && k !in s.sends
            && (forall a :: a in s.attempts ==> s.attempts[a].key != k)
            && AcceptedIn(steps, k) == 0
  {
    var s := Run(steps).state;
    RunKeepsInvariant(steps);
    UnlistedExactly(steps, k);
    UntouchedIsNotAccepted(steps, k);
    assert Settled(s, k) && Spared(s, k);
    forall a | a in s.attempts ensures s.attempts[a].key != k {
      assert AttemptKnows(s, s.attempts[a]);
    }
  }

  /** It takes no more than that: the message is stored, and then nothing. */
  lemma QueueingIsTorn(k: Key)
    ensures Run([QueueTorn(k)]).Reached? && QueueTorn(k) in [QueueTorn(k)]
  {
    assert [QueueTorn(k)][..0] == [];
  }

  /** A record left behind is cleared by the first attempt that the timer makes on it. */
  lemma TimerClears(s: State, a: AttemptId, k: Key)
    requires Settled(s, k) && k in s.history.stale && k !in s.inFlight && Enabled(s, TimerFires(a, k))
    ensures exists t :: Leads(Next, s, [TimerFires(a, k), Read(a), Clear(a)], t) && k !in t.outbox && k !in t.history.stale
  {
    var read := Apply(Apply(s, TimerFires(a, k)), Read(a));
    ReadStore(s, TimerFires(a, k), a, k);
    TwoSteps(s, TimerFires(a, k), Read(a));
    OneStep(Next, read, Clear(a));
    LeadsOn(Next, s, [TimerFires(a, k), Read(a)], read, [Clear(a)], Apply(read, Clear(a)));
    assert [TimerFires(a, k), Read(a)] + [Clear(a)] == [TimerFires(a, k), Read(a), Clear(a)];
  }

  /** A crash loses the send event, and so leaves a message that has not failed yet to wait in full. */
  lemma CrashLeavesTheTimer(steps: seq<Step>, k: Key)
    requires Run(steps).Reached? && Untried(Run(steps).state, k)
    ensures Run(steps + [Crash]).Reached? && k !in Run(steps + [Crash]).state.sends && WaitsInFull(steps + [Crash], k)
  {
    RunOneMore(steps, Crash);
    WaitsInFullExactly(steps + [Crash], k);
  }
}
