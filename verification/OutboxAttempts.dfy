/** One attempt to send a pending message, as the code makes it, and that it is a run of the protocol. */
module OutboxAttempts {
  import opened OutboxRuns
  import opened PendingOutbox
  import opened Runs

  /** The outcome of one attempt made without interruption; the second component is its return value. */
  function Attempted(s: Store, k: Key, outcome: RpcOutcome, now: nat): (Store, bool) {
    if k in s.inFlight then (s, false)
    else if k !in s.messages || s.messages[k] != Pending then (s.(outbox := s.outbox - {k}), false)
    else
      match outcome
      case Success => (s.(messages := s.messages - {k}, outbox := s.outbox - {k}), true)
      case Permanent => (s.(messages := s.messages[k := Failed], outbox := s.outbox - {k}), false)
      case Transient(_) =>
        var n := Failures(s.outbox, k) + 1;
        (s.(outbox := s.outbox[k := Record(n, now + Delay(n))]), false)
  }

  /**
   What an attempt comes to, by outcome: nothing while another holds the message; a message that is not pending
   only loses its record; one sent is gone with its record; one refused is failed and loses its record; one that
   failed in passing stays pending, with one attempt more and due a delay later.
   */
  lemma AttemptByOutcome(s: Store, k: Key, outcome: RpcOutcome, now: nat)
    ensures var (t, sent) := Attempted(s, k, outcome, now);
            var pending := k in s.messages && s.messages[k] == Pending && k !in s.inFlight;
            && t.inFlight == s.inFlight && (sent <==> pending && outcome == Success)
            && (forall j :: j != k ==>
                  && (j in t.messages <==> j in s.messages) && (j in s.messages ==> t.messages[j] == s.messages[j])
                  && (j in t.outbox <==> j in s.outbox) && (j in s.outbox ==> t.outbox[j] == s.outbox[j]))
            && (k in s.inFlight ==> t == s)
            && (k !in s.inFlight && !pending ==> t.messages == s.messages && k !in t.outbox)
            && (pending ==>
                  match outcome
                  case Success => k !in t.messages && k !in t.outbox
                  case Permanent => k in t.messages && t.messages[k] == Failed && k !in t.outbox
                  case Transient(_) =>
                    var before := if k in s.outbox then s.outbox[k].attempts else 0;
                    k in t.messages && t.messages[k] == Pending
                    && k in t.outbox && t.outbox[k].attempts == before + 1
                    && t.outbox[k].nextAt == now + if before < 5 then Pow2(before) else 32)
  {
    DelayIsBelowCap(Failures(s.outbox, k) + 1);
    PowersOfTwo();
  }

  /** The steps one uninterrupted attempt takes through the protocol. */
  function StepsOf(s: Store, first: Step, a: AttemptId, k: Key, outcome: RpcOutcome): seq<Step> {
    if k in s.inFlight then [first]
    else if k !in s.messages || s.messages[k] != Pending then [first, Read(a), Clear(a), Finish(a)]
    else [first, Read(a), Rpc(a, outcome), Settling(a, outcome), Finish(a)]
  }

  /** The protocol, left alone, does what the code of one attempt says. */
  lemma UninterruptedAttempt(s: State, first: Step, a: AttemptId, k: Key, outcome: RpcOutcome) returns (t: State)
    requires Begins(s, first, a, k)
    ensures Leads(Next, s, StepsOf(StoreOf(s), first, a, k, outcome), t)
    ensures StoreOf(t) == Attempted(StoreOf(s), k, outcome, s.now).0
  {
    if k in s.inFlight {
      t := Apply(s, first);
    } else if k !in s.messages || s.messages[k] != Pending {
      t := UninterruptedClearing(s, first, a, k, outcome);
    } else {
      t := UninterruptedSending(s, first, a, k, outcome);
    }
  }

  lemma ClearingLeads(s: State, a: AttemptId, k: Key) returns (t: State)
    requires a in s.attempts && s.attempts[a] == Attempt(k, Clearing)
    ensures Leads(Next, s, [Clear(a), Finish(a)], t)
    ensures StoreOf(t) == StoreOf(s).(outbox := s.outbox - {k}, inFlight := s.inFlight - {k})
  {
    t := Apply(Apply(s, Clear(a)), Finish(a));
    TwoSteps(s, Clear(a), Finish(a));
  }

  lemma UninterruptedClearing(s: State, first: Step, a: AttemptId, k: Key, outcome: RpcOutcome) returns (t: State)
    requires Begins(s, first, a, k) && k !in s.inFlight && (k !in s.messages || s.messages[k] != Pending)
    ensures Leads(Next, s, [first, Read(a), Clear(a), Finish(a)], t)
    ensures StoreOf(t) == StoreOf(s).(outbox := s.outbox - {k})
  {
    var read := Apply(Apply(s, first), Read(a));
    TwoSteps(s, first, Read(a));
    ReadStore(s, first, a, k);
    t := ClearingLeads(read, a, k);
    LeadsOn(Next, s, [first, Read(a)], read, [Clear(a), Finish(a)], t);
    assert s.inFlight + {k} - {k} == s.inFlight;
  }

  function Settling(a: AttemptId, outcome: RpcOutcome): Step {
    match outcome case Success => Complete(a) case Permanent => MarkFailed(a) case Transient(_) => Schedule(a)
  }

  lemma UninterruptedSending(s: State, first: Step, a: AttemptId, k: Key, outcome: RpcOutcome) returns (t: State)
    requires Begins(s, first, a, k) && k !in s.inFlight && k in s.messages && s.messages[k] == Pending
    ensures Leads(Next, s, StepsOf(StoreOf(s), first, a, k, outcome), t)
    ensures StoreOf(t) == Attempted(StoreOf(s), k, outcome, s.now).0
  {
    var answered := CallLeads(s, first, a, k, outcome);
    t := UninterruptedSettling(answered, a, k, outcome);
    ThreeAndTwo(Next, s, first, Read(a), Rpc(a, outcome), answered, Settling(a, outcome), Finish(a), t);
    assert s.inFlight + {k} - {k} == s.inFlight;
  }

  lemma UninterruptedSettling(s: State, a: AttemptId, k: Key, outcome: RpcOutcome) returns (t: State)
    requires a in s.attempts && s.attempts[a] == Attempt(k, Answered(outcome))
    requires k in s.messages && s.messages[k] == Pending
    ensures Leads(Next, s, [Settling(a, outcome), Finish(a)], t)
    ensures StoreOf(t) == Attempted(StoreOf(s).(inFlight := s.inFlight - {k}), k, outcome, s.now).0
  {
    t := Apply(Apply(s, Settling(a, outcome)), Finish(a));
    TwoSteps(s, Settling(a, outcome), Finish(a));
  }

  class Outbox {
    var messages: map<Key, Status>
    var outbox: map<Key, Record>
    var inFlight: set<Key>

    function Contents(): Store
      reads this
    {
      Store(messages, outbox, inFlight)
    }

    constructor ()
      ensures Contents() == Store(map[], map[], {})
    {
      messages, outbox, inFlight := map[], map[], {};
    }

    method StorePendingMessage(k: Key)
      modifies this
      ensures Contents() == old(Contents()).(messages := old(messages)[k := Pending],
                                             outbox := old(outbox)[k := Record(0, 0)])
    {
      messages := messages[k := Pending];
      outbox := outbox[k := Record(0, 0)];
    }

    method BeginPendingSend(k: Key) returns (ok: bool)
      modifies this`inFlight
      ensures ok <==> k !in old(inFlight)
      ensures inFlight == old(inFlight) + {k}
    {
      if k in inFlight {
        assert inFlight + {k} == inFlight;
        return false;
      }
      inFlight := inFlight + {k};
      return true;
    }

    method FinishPendingSend(k: Key)
      modifies this`inFlight
      ensures inFlight == old(inFlight) - {k}
    {
      inFlight := inFlight - {k};
    }

    method SchedulePendingRetry(k: Key, now: nat)
      modifies this`outbox
      ensures var n := Failures(old(outbox), k) + 1;
              outbox == old(outbox)[k := Record(n, now + Delay(n))]
    {
      var existing := if k in outbox then outbox[k] else Record(0, 0);
      var attempts := existing.attempts + 1;
      outbox := outbox[k := Record(attempts, now + Delay(attempts))];
    }

    method AttemptPendingSend(k: Key, outcome: RpcOutcome, now: nat) returns (sent: bool)
      modifies this
      ensures (Contents(), sent) == Attempted(old(Contents()), k, outcome, now)
    {
      var ok := BeginPendingSend(k);
      if !ok {
        assert inFlight == old(inFlight);
        return false;
      }
      sent := false;
      if k !in messages || messages[k] != Pending {
        outbox := outbox - {k};
      } else {
        match outcome
        case Permanent =>
          messages := messages[k := Failed];
          outbox := outbox - {k};
        case Transient(_) =>
          SchedulePendingRetry(k, now);
        case Success =>
          messages := messages - {k};
          outbox := outbox - {k};
          sent := true;
      }
      FinishPendingSend(k);
      assert inFlight == old(inFlight);
    }
  }
}
