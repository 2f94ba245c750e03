/**
 Sending and retrying: attempts on the same message start from the one send event it was queued with, whether
 due or not, and from the retry timer once its record is due, and interleave at every step. A token held in
 memory keeps all but one of them out; the outbox record in the store survives a crash, the token and the
 send event do not.
 */
module PendingOutbox {
  import opened Joins
  import opened Runs

  // ---- names and delays --------------------------------------------------------------------------

  datatype Key = Key(chat: string, id: string)

  /** Tokens and outbox keys are the two identifiers joined by a colon. */
  function Token(k: Key): string {
    Join(k.chat, k.id)
  }

  /**
   Two messages share a token if and only if they are the same, or the name of one chat goes on, after the
   other's and a colon, with what makes up the difference.
   */
  lemma TokensAgreeExactly(a: Key, b: Key)
    ensures Token(a) == Token(b) <==> a == b || Shifted(a.chat, a.id, b.chat, b.id) || Shifted(b.chat, b.id, a.chat, a.id)
  {
    JoinsAgreeExactly(a.chat, a.id, b.chat, b.id);
  }

  /** So chats without a colon in their names never get in each other's way. */
  lemma TokensDiffer(a: Key, b: Key)
    requires ':' !in a.chat && ':' !in b.chat
    ensures Token(a) == Token(b) <==> a == b
  {
    TokensAgreeExactly(a, b);
    PlainNamesDoNotShift(a.chat, a.id, b.chat, b.id);
    PlainNamesDoNotShift(b.chat, b.id, a.chat, a.id);
  }

  lemma PlainNamesDoNotShift(a: string, b: string, c: string, d: string)
    requires ':' !in c
    ensures !Shifted(a, b, c, d)
  {
    var joint := a + ":";
    assert joint[|a|] == ':';
    if |a| < |c| {
      assert c[|a|] in c;
    }
  }

  /** With a colon in a chat's name two messages may share a token. */
  lemma TokensMayCollide()
    ensures Token(Key("c:1", "x")) == Token(Key("c", "1:x")) && Key("c:1", "x") != Key("c", "1:x")
  {
    assert "c:1" + ":" + "x" == "c:1:x" && "c" + ":" + "1:x" == "c:1:x";
  }

  const RETRY_INTERVAL := 1
  const MAX_BACKOFF := 300

  function Pow2(n: nat): nat {
    if n == 0 then 1 else 2 * Pow2(n - 1)
  }

  function Min(a: int, b: int): int {
    if a < b then a else b
  }

  /** The delay after the n-th failure, n counted from 1. */
  function Delay(n: nat): nat
    requires n > 0
  {
    Min(MAX_BACKOFF, RETRY_INTERVAL * Pow2(Min(n - 1, 5)))
  }

  function TotalDelay(n: nat): nat {
    if n == 0 then 0 else TotalDelay(n - 1) + Delay(n)
  }

  lemma PowersOfTwo()
    ensures Pow2(0) == 1 && Pow2(1) == 2 && Pow2(2) == 4 && Pow2(3) == 8 && Pow2(4) == 16 && Pow2(5) == 32
  {
    assert Pow2(3) == 2 * Pow2(2);
    assert Pow2(4) == 2 * Pow2(3);
    assert Pow2(5) == 2 * Pow2(4);
  }

  /** The cap of 300 seconds is never what limits a delay: 32 seconds is the longest. */
  lemma DelayIsBelowCap(n: nat)
    requires n > 0
    ensures Delay(n) == Pow2(Min(n - 1, 5)) <= 32 < MAX_BACKOFF
  {
    PowersOfTwo();
  }

  lemma DelayGrows(n: nat)
    requires n > 0
    ensures Delay(n) <= Delay(n + 1)
  {
    PowersOfTwo();
    if n < 6 {
      assert Pow2(n) == 2 * Pow2(n - 1);
    }
  }

  lemma {:induction false} TotalDelayFormula(n: nat)
    ensures TotalDelay(n) == if n <= 6 then Pow2(n) - 1 else 63 + 32 * (n - 6)
  {
    PowersOfTwo();
    if n > 0 {
      TotalDelayFormula(n - 1);
      DelayIsBelowCap(n);
      if n == 6 {
        assert Pow2(6) == 2 * Pow2(5);
      }
    }
  }

  // ---- the protocol ------------------------------------------------------------------------------

  datatype Status = Pending | Failed

  datatype Record = Record(attempts: nat, nextAt: nat)

  type AttemptId = nat

  datatype Phase = Begun | Clearing | Sending | Sent | Refused | Stumbled | Closing

  datatype Attempt = Attempt(key: Key, phase: Phase)

  /** What is only remembered for the proofs, message by message. */
  datatype History = History(
    queued: set<Key>,
    deliveries: map<Key, nat>,   // calls the server accepted
    completions: map<Key, nat>,  // messages turned into sent ones
    lost: map<Key, nat>,         // deliveries whose attempt broke off before recording them
    doubted: map<Key, nat>,      // deliveries whose call failed all the same, and was taken for refused
    failures: map<Key, seq<nat>>, // when each transient failure was recorded
    waived: map<Key, nat>,       // waiting time cut short by a send event that came early
    unlisted: set<Key>,          // stored as pending, and cut off before the record
    stale: set<Key>,             // settled, and cut off before the record was deleted
    vanished: set<Key>)          // deleted as pending, and cut off before being stored as sent

  datatype State = State(
    messages: map<Key, Status>,
    outbox: map<Key, Record>,
    inFlight: set<Key>,
    sends: set<Key>,
    attempts: map<AttemptId, Attempt>,
    now: nat,
    history: History)

  /** A call that fails in a passing way, as by running out of time, may have been accepted by the server or not. */
  datatype RpcOutcome = Success | Permanent | Transient(accepted: bool)

  /**
   What commits more than once may be torn between two commits, by a crash or by something that raises: queueing
   after the message is stored, marking as failed after the mark, completing after the pending message is deleted
   and, where it says so, its record as well.
   */
  datatype Step =
    | Queue(key: Key)
    | QueueTorn(key: Key)
    | SendFires(a: AttemptId, key: Key)
    | TimerFires(a: AttemptId, key: Key)
    | Read(a: AttemptId)
    | Clear(a: AttemptId)
    | Rpc(a: AttemptId, outcome: RpcOutcome)
    | Complete(a: AttemptId)
    | CompleteTorn(a: AttemptId, cleared: bool)
    | MarkFailed(a: AttemptId)
    | MarkTorn(a: AttemptId)
    | Schedule(a: AttemptId)
    | Finish(a: AttemptId)
    | Crash
    | Tick

  const INITIAL := State(map[], map[], {}, {}, map[], 0, History({}, map[], map[], map[], map[], map[], map[], {}, {}, {}))

  function Count(m: map<Key, nat>, k: Key): nat {
    if k in m then m[k] else 0
  }

  function Times(h: History, k: Key): seq<nat> {
    if k in h.failures then h.failures[k] else []
  }

  predicate At(s: State, a: AttemptId, phase: Phase) {
    a in s.attempts && s.attempts[a].phase == phase
  }

  /** Local ids are new; each message is queued with one send event, and the timer looks for records that are due. */
  predicate Enabled(s: State, step: Step) {
    match step
    case Queue(key) => key !in s.history.queued
    case QueueTorn(key) => key !in s.history.queued
    case SendFires(a, key) => a !in s.attempts && key in s.sends
    case TimerFires(a, key) => a !in s.attempts && key in s.outbox && s.outbox[key].nextAt <= s.now
    case Read(a) => At(s, a, Begun)
    case Clear(a) => At(s, a, Clearing)
    case Rpc(a, _) => At(s, a, Sending)
    case Complete(a) => At(s, a, Sent)
    case CompleteTorn(a, _) => At(s, a, Sent)
    case MarkFailed(a) => At(s, a, Refused)
    case MarkTorn(a) => At(s, a, Refused)
    case Schedule(a) => At(s, a, Stumbled)
    // An attempt releases its token however it ends: anything may raise.
    case Finish(a) => a in s.attempts
    case Crash => true
    case Tick => true
  }

  /** The delay still outstanding when an attempt begins. */
  function Outstanding(s: State, k: Key): nat {
    if k in s.outbox && s.outbox[k].nextAt > s.now then s.outbox[k].nextAt - s.now else 0
  }

  function Delivered(attempts: map<AttemptId, Attempt>): set<Key> {
    set a | a in attempts && attempts[a].phase == Sent :: attempts[a].key
  }

  /** An attempt begins, unless another holds the token. */
  function WithAttempt(s: State, a: AttemptId, key: Key): State {
    if key in s.inFlight then s
    else s.(inFlight := s.inFlight + {key}, attempts := s.attempts[a := Attempt(key, Begun)])
  }

  function InPhase(s: State, a: AttemptId, phase: Phase): map<AttemptId, Attempt>
    requires a in s.attempts
  {
    s.attempts[a := Attempt(s.attempts[a].key, phase)]
  }

  function Answered(outcome: RpcOutcome): Phase {
    match outcome case Success => Sent case Permanent => Refused case Transient(_) => Stumbled
  }

  function Failures(outbox: map<Key, Record>, k: Key): nat {
    if k in outbox then outbox[k].attempts else 0
  }

  /** What a step does to the store and to memory. */
  function Moved(s: State, step: Step): State
    requires Enabled(s, step)
  {
    match step
    case Queue(key) =>
      s.(messages := s.messages[key := Pending], outbox := s.outbox[key := Record(0, 0)], sends := s.sends + {key})
    case QueueTorn(key) => s.(messages := s.messages[key := Pending])
    case SendFires(a, key) => WithAttempt(s.(sends := s.sends - {key}), a, key)
    case TimerFires(a, key) => WithAttempt(s, a, key)
    case Read(a) =>
      var k := s.attempts[a].key;
      s.(attempts := InPhase(s, a, if k in s.messages && s.messages[k] == Pending then Sending else Clearing))
    case Clear(a) => s.(outbox := s.outbox - {s.attempts[a].key}, attempts := InPhase(s, a, Closing))
    case Rpc(a, outcome) => s.(attempts := InPhase(s, a, Answered(outcome)))
    case Complete(a) =>
      var k := s.attempts[a].key;
      s.(messages := s.messages - {k}, outbox := s.outbox - {k}, attempts := InPhase(s, a, Closing))
    case CompleteTorn(a, cleared) =>
      var k := s.attempts[a].key;
      s.(messages := s.messages - {k}, outbox := if cleared then s.outbox - {k} else s.outbox, attempts := InPhase(s, a, Closing))
    case MarkTorn(a) => s.(messages := s.messages[s.attempts[a].key := Failed], attempts := InPhase(s, a, Closing))
    case MarkFailed(a) =>
      var k := s.attempts[a].key;
      s.(messages := s.messages[k := Failed], outbox := s.outbox - {k}, attempts := InPhase(s, a, Closing))
    case Schedule(a) =>
      var k := s.attempts[a].key;
      var n := Failures(s.outbox, k) + 1;
      s.(outbox := s.outbox[k := Record(n, s.now + Delay(n))], attempts := InPhase(s, a, Closing))
    case Finish(a) => s.(inFlight := s.inFlight - {s.attempts[a].key}, attempts := s.attempts - {a})
    case Crash => s.(inFlight := {}, sends := {}, attempts := map[])
    case Tick => s.(now := s.now + 1)
  }

  function Deliver(h: History, k: Key): History {
    h.(deliveries := h.deliveries[k := Count(h.deliveries, k) + 1])
  }

  function Doubt(h: History, k: Key): History {
    h.(doubted := h.doubted[k := Count(h.doubted, k) + 1])
  }

  function LoseDelivery(h: History, k: Key): History {
    h.(lost := h.lost[k := Count(h.lost, k) + 1])
  }

  function Waive(s: State, k: Key): History {
    if k in s.inFlight then s.history
    else s.history.(waived := s.history.waived[k := Count(s.history.waived, k) + Outstanding(s, k)])
  }

  /** What is remembered of a step. */
  function Recorded(s: State, step: Step): History
    requires Enabled(s, step)
  {
    var h := s.history;
    match step
    case Queue(key) => h.(queued := h.queued + {key})
    case QueueTorn(key) => h.(queued := h.queued + {key}, unlisted := h.unlisted + {key})
    case Clear(a) => h.(stale := h.stale - {s.attempts[a].key})
    case MarkTorn(a) => h.(stale := h.stale + {s.attempts[a].key})
    case CompleteTorn(a, cleared) =>
      var k := s.attempts[a].key;
      LoseDelivery(h, k).(vanished := h.vanished + {k}, stale := if cleared then h.stale else h.stale + {k})
    case SendFires(_, key) => Waive(s, key)
    case TimerFires(_, key) => Waive(s, key)
    case Rpc(a, outcome) =>
      var k := s.attempts[a].key;
      if outcome.Success? then Deliver(h, k)
      else if outcome.Transient? && outcome.accepted then Doubt(Deliver(h, k), k)
      else h
    case Complete(a) =>
      var k := s.attempts[a].key;
      h.(completions := h.completions[k := Count(h.completions, k) + 1])
    case Schedule(a) =>
      var k := s.attempts[a].key;
      h.(failures := h.failures[k := Times(h, k) + [s.now]])
    case Finish(a) => if s.attempts[a].phase == Sent then LoseDelivery(h, s.attempts[a].key) else h
    case Crash =>
      h.(lost := map k | k in h.lost.Keys + Delivered(s.attempts)
                    :: Count(h.lost, k) + if k in Delivered(s.attempts) then 1 else 0)
    case _ => h
  }

  function Apply(s: State, step: Step): State
    requires Enabled(s, step)
  {
    Moved(s, step).(history := Recorded(s, step))
  }

  function Run(steps: seq<Step>): Outcome<State> {
    if steps == [] then Reached(INITIAL)
    else
      var last := |steps| - 1;
      match Run(steps[..last])
      case Stuck => Stuck
      case Reached(s) => if Enabled(s, steps[last]) then Reached(Apply(s, steps[last])) else Stuck
  }

  // ---- invariants --------------------------------------------------------------------------------

  /** Each attempt holds its message's token, and no two attempts hold the same. */
  ghost predicate TokensHeld(s: State) {
    && (forall a :: a in s.attempts ==> s.attempts[a].key in s.inFlight)
    && (forall a, b :: a in s.attempts && b in s.attempts && a != b ==> s.attempts[a].key != s.attempts[b].key)
  }

  predicate Busy(phase: Phase) {
    phase.Sending? || phase.Sent? || phase.Refused? || phase.Stumbled?
  }

  ghost predicate AttemptsKnow(s: State) {
    forall a :: a in s.attempts ==> AttemptKnows(s, s.attempts[a])
  }

  /** While an attempt works on a message nobody else settles it; a settled one stays settled. */
  ghost predicate AttemptKnows(s: State, t: Attempt) {
    && t.key in s.history.queued && t.key !in s.history.unlisted
    && (Busy(t.phase) ==> t.key in s.messages && s.messages[t.key] == Pending)
    && (t.phase.Clearing? ==> !(t.key in s.messages && s.messages[t.key] == Pending))
  }

  /** A queued message is pending, or failed, or gone: as sent, or for good. */
  ghost predicate Settled(s: State, k: Key) {
    var h, pending := s.history, k in s.messages && s.messages[k] == Pending;
    if k !in h.queued then
      && k !in s.messages && k !in s.outbox && Count(h.completions, k) == 0
      && k !in h.unlisted && k !in h.stale && k !in h.vanished
    else if k in s.messages then
      && (k in s.outbox <==> if pending then k !in h.unlisted else k in h.stale)
      && (if pending then k !in h.stale else k !in h.unlisted)
      && k !in h.vanished && Count(h.completions, k) == 0
    else
      && (k in s.outbox <==> k in h.stale)
      && k !in h.unlisted && Count(h.completions, k) == if k in h.vanished then 0 else 1
  }

  /** Every delivery was recorded, is about to be, was doubted, or belongs to an attempt that broke off. */
  ghost predicate Accounted(s: State, k: Key) {
    var h := s.history;
    Count(h.deliveries, k) ==
      Count(h.completions, k) + Count(h.lost, k) + Count(h.doubted, k) + if k in Delivered(s.attempts) then 1 else 0
  }

  /** The time since the first failure makes up, with what was waived, for all the delays so far. */
  ghost predicate Waited(s: State, k: Key, time: nat) {
    var times := Times(s.history, k);
    times != [] ==> time + Count(s.history.waived, k) >= times[0] + TotalDelay(|times|)
  }

  ghost predicate Timed(s: State, k: Key) {
    var times := Times(s.history, k);
    && (k !in s.history.queued ==> times == [])
    && (k in s.outbox ==>
          && s.outbox[k].attempts == |times|
          && (times == [] ==> s.outbox[k].nextAt == 0)
          && (times != [] ==> s.outbox[k].nextAt == times[|times| - 1] + Delay(|times|))
          && Waited(s, k, s.outbox[k].nextAt))
  }

  ghost predicate AttemptsOnTime(s: State) {
    forall a :: a in s.attempts && (Busy(s.attempts[a].phase) || s.attempts[a].phase.Begun?)
            ==> s.attempts[a].key in s.outbox ==> Waited(s, s.attempts[a].key, s.now)
  }

  /** While its send event is still to come nothing of a message's wait has been waived, and after it at most one delay. */
  ghost predicate Spared(s: State, k: Key) {
    var times := Times(s.history, k);
    && (k in s.sends ==> k in s.history.queued && Count(s.history.waived, k) == 0)
    && (k in s.history.unlisted ==> k in s.history.queued && k !in s.sends)
    && Count(s.history.waived, k) <= (if times == [] then 0 else Delay(|times|))
    && (times != [] ==> times[|times| - 1] <= s.now)
  }

  ghost predicate Invariant(s: State) {
    && TokensHeld(s)
    && AttemptsKnow(s)
    && (forall k :: Settled(s, k))
    && (forall k :: Accounted(s, k))
    && (forall k :: Timed(s, k))
    && (forall k :: Spared(s, k))
    && AttemptsOnTime(s)
  }

  lemma StepKeepsTokens(s: State, step: Step)
    requires TokensHeld(s) && Enabled(s, step)
    ensures TokensHeld(Apply(s, step))
  {
  }

  lemma StepKeepsKnowledge(s: State, step: Step)
    requires TokensHeld(s) && AttemptsKnow(s) && (forall k :: Settled(s, k) && Spared(s, k)) && Enabled(s, step)
    ensures AttemptsKnow(Apply(s, step))
  {
    var t := Apply(s, step);
    forall a | a in t.attempts ensures AttemptKnows(t, t.attempts[a]) {
      if a in s.attempts {
        AttemptStaysKnowing(s, step, a);
      } else {
        assert Settled(s, step.key) && Spared(s, step.key);
      }
    }
  }

  lemma AttemptStaysKnowing(s: State, step: Step, a: AttemptId)
    requires a in s.attempts && Enabled(s, step) && a in Apply(s, step).attempts
    requires AttemptKnows(s, s.attempts[a]) && Settled(s, s.attempts[a].key)
    requires Settles(step) ==> step.a == a || s.attempts[step.a].key != s.attempts[a].key
    ensures AttemptKnows(Apply(s, step), Apply(s, step).attempts[a])
  {
    if Settles(step) {
      SettlingKeepsKnowing(s, step, a);
    } else {
      MessageIsLeft(s, step, s.attempts[a].key);
      AttemptMoves(s, step, a);
    }
  }

  predicate IsPending(s: State, k: Key) {
    k in s.messages && s.messages[k] == Pending
  }

  lemma MessageIsLeft(s: State, step: Step, k: Key)
    requires Enabled(s, step) && !Settles(step) && k in s.history.queued
    ensures var t := Apply(s, step);
            && k in t.history.queued && (k in t.history.unlisted <==> k in s.history.unlisted)
            && (k in t.messages <==> k in s.messages) && (k in s.messages ==> t.messages[k] == s.messages[k])
  {
    if step.Queue? || step.QueueTorn? {
      assert step.key != k;
    } else {
      OthersMoveNoMessage(s, step);
      OthersQueueNothing(s, step);
    }
  }

  lemma OthersMoveNoMessage(s: State, step: Step)
    requires Enabled(s, step) && !Settles(step) && !step.Queue? && !step.QueueTorn?
    ensures Moved(s, step).messages == s.messages
  {
  }

  lemma OthersQueueNothing(s: State, step: Step)
    requires Enabled(s, step) && !Settles(step) && !step.Queue? && !step.QueueTorn?
    ensures Recorded(s, step).queued == s.history.queued && Recorded(s, step).unlisted == s.history.unlisted
  {
  }

  lemma AttemptMoves(s: State, step: Step, a: AttemptId)
    requires a in s.attempts && Enabled(s, step) && a in Apply(s, step).attempts && !Settles(step)
    ensures var before, after := s.attempts[a], Apply(s, step).attempts[a];
            && after.key == before.key
            && (Busy(after.phase) ==> Busy(before.phase) || IsPending(s, before.key))
            && (after.phase.Clearing? ==> before.phase.Clearing? || !IsPending(s, before.key))
  {
  }

  /** The step settles a message, all the way or not. */
  predicate Settles(step: Step) {
    step.Complete? || step.CompleteTorn? || step.MarkFailed? || step.MarkTorn?
  }

  lemma SettlingKeepsKnowing(s: State, step: Step, a: AttemptId)
    requires Enabled(s, step) && Settles(step) && a in s.attempts && AttemptKnows(s, s.attempts[a])
    requires step.a == a || s.attempts[step.a].key != s.attempts[a].key
    ensures AttemptKnows(Apply(s, step), Apply(s, step).attempts[a])
  {
  }

  /** The step leaves alone what settles the message. */
  ghost predicate SameSettlement(s: State, t: State, k: Key) {
    && (k in t.history.queued <==> k in s.history.queued)
    && (k in t.messages <==> k in s.messages) && (k in s.messages ==> t.messages[k] == s.messages[k])
    && (k in t.outbox <==> k in s.outbox)
    && Count(t.history.completions, k) == Count(s.history.completions, k)
    && (k in t.history.unlisted <==> k in s.history.unlisted)
    && (k in t.history.stale <==> k in s.history.stale)
    && (k in t.history.vanished <==> k in s.history.vanished)
  }

  lemma StepKeepsSettled(s: State, step: Step, k: Key)
    requires AttemptsKnow(s) && Settled(s, k) && Enabled(s, step)
    ensures Settled(Apply(s, step), k)
  {
    match step
    case Queue(key) => assert key != k ==> SameSettlement(s, Apply(s, step), k);
    case QueueTorn(key) => assert key != k ==> SameSettlement(s, Apply(s, step), k);
    case Clear(a) => ClearKeepsSettled(s, a, k);
    case Complete(_) => SettlingKeepsSettled(s, step, k);
    case CompleteTorn(_, _) => SettlingKeepsSettled(s, step, k);
    case MarkFailed(_) => SettlingKeepsSettled(s, step, k);
    case MarkTorn(_) => SettlingKeepsSettled(s, step, k);
    case Schedule(a) =>
      assert AttemptKnows(s, s.attempts[a]);
      assert SameSettlement(s, Apply(s, step), k);
    case _ => OthersKeepSettlement(s, step, k);
  }

  lemma OthersKeepSettlement(s: State, step: Step, k: Key)
    requires Enabled(s, step) && !Settles(step) && !step.Queue? && !step.QueueTorn? && !step.Clear? && !step.Schedule?
    ensures SameSettlement(s, Apply(s, step), k)
  {
    var m, h := Moved(s, step), Recorded(s, step);
    assert m.messages == s.messages && m.outbox == s.outbox;
    assert h.queued == s.history.queued && h.completions == s.history.completions;
    assert h.unlisted == s.history.unlisted && h.stale == s.history.stale && h.vanished == s.history.vanished;
  }

  /** Clearing repairs what was torn. */
  lemma ClearKeepsSettled(s: State, a: AttemptId, k: Key)
    requires AttemptsKnow(s) && Settled(s, k) && Enabled(s, Clear(a))
    ensures Settled(Apply(s, Clear(a)), k)
  {
    assert AttemptKnows(s, s.attempts[a]);
    assert k != s.attempts[a].key ==> SameSettlement(s, Apply(s, Clear(a)), k);
  }

  lemma SettlingKeepsSettled(s: State, step: Step, k: Key)
    requires AttemptsKnow(s) && Settled(s, k) && Enabled(s, step) && Settles(step)
    ensures Settled(Apply(s, step), k)
  {
    assert AttemptKnows(s, s.attempts[step.a]);
    assert k != s.attempts[step.a].key ==> SameSettlement(s, Apply(s, step), k);
  }

  lemma DeliveredMeans(attempts: map<AttemptId, Attempt>, k: Key)
    ensures k in Delivered(attempts) <==> exists a :: a in attempts && attempts[a] == Attempt(k, Sent)
  {
    if k in Delivered(attempts) {
      var a :| a in attempts && attempts[a].phase == Sent && attempts[a].key == k;
      assert attempts[a] == Attempt(k, Sent);
    }
  }

  /** Changing one attempt changes what is delivered but unrecorded for its own message only. */
  lemma DeliveredAfter(s: State, a: AttemptId, t: Attempt, k: Key)
    requires TokensHeld(s) && a in s.attempts && s.attempts[a].key == t.key
    ensures k in Delivered(s.attempts[a := t]) <==> if k == t.key then t.phase == Sent else k in Delivered(s.attempts)
    ensures t.key in Delivered(s.attempts) <==> s.attempts[a].phase == Sent
  {
    DeliveredMeans(s.attempts, k);
    DeliveredMeans(s.attempts, t.key);
    DeliveredMeans(s.attempts[a := t], k);
    var after := s.attempts[a := t];
    if k == t.key && t.phase == Sent {
      assert after[a] == Attempt(k, Sent);
    }
    if k != t.key && k in Delivered(s.attempts) {
      var b :| b in s.attempts && s.attempts[b] == Attempt(k, Sent);
      assert after[b] == Attempt(k, Sent);
    }
    if s.attempts[a].phase == Sent {
      assert s.attempts[a] == Attempt(t.key, Sent);
    }
  }

  lemma DeliveredAfterFinish(s: State, a: AttemptId, k: Key)
    requires TokensHeld(s) && a in s.attempts
    ensures k in Delivered(s.attempts - {a}) <==> k in Delivered(s.attempts) && k != s.attempts[a].key
    ensures s.attempts[a].key in Delivered(s.attempts) <==> s.attempts[a].phase == Sent
  {
    DeliveredMeans(s.attempts, k);
    DeliveredMeans(s.attempts, s.attempts[a].key);
    DeliveredMeans(s.attempts - {a}, k);
    if s.attempts[a].phase == Sent {
      assert s.attempts[a] == Attempt(s.attempts[a].key, Sent);
    }
    if k in Delivered(s.attempts) && k != s.attempts[a].key {
      var b :| b in s.attempts && s.attempts[b] == Attempt(k, Sent);
      assert b in s.attempts - {a};
    }
  }

  lemma DeliveredAfterBegin(s: State, a: AttemptId, key: Key, k: Key)
    requires a !in s.attempts
    ensures k in Delivered(s.attempts[a := Attempt(key, Begun)]) <==> k in Delivered(s.attempts)
  {
    var after := s.attempts[a := Attempt(key, Begun)];
    DeliveredMeans(s.attempts, k);
    DeliveredMeans(after, k);
    if k in Delivered(s.attempts) {
      var b :| b in s.attempts && s.attempts[b] == Attempt(k, Sent);
      assert after[b] == Attempt(k, Sent);
    }
  }

  /** What a step that concerns no delivery leaves as it is. */
  ghost predicate SameAccounts(s: State, t: State, k: Key) {
    && Count(t.history.deliveries, k) == Count(s.history.deliveries, k)
    && Count(t.history.completions, k) == Count(s.history.completions, k)
    && Count(t.history.lost, k) == Count(s.history.lost, k)
    && Count(t.history.doubted, k) == Count(s.history.doubted, k)
    && (k in Delivered(t.attempts) <==> k in Delivered(s.attempts))
  }

  lemma RpcKeepsAccounts(s: State, a: AttemptId, outcome: RpcOutcome, k: Key)
    requires TokensHeld(s) && Accounted(s, k) && Enabled(s, Rpc(a, outcome))
    ensures Accounted(Apply(s, Rpc(a, outcome)), k)
  {
    var t := Apply(s, Rpc(a, outcome));
    DeliveredAfter(s, a, t.attempts[a], k);
    assert k != s.attempts[a].key ==> SameAccounts(s, t, k);
  }

  lemma CompleteKeepsAccounts(s: State, a: AttemptId, k: Key)
    requires TokensHeld(s) && Accounted(s, k) && Enabled(s, Complete(a))
    ensures Accounted(Apply(s, Complete(a)), k)
  {
    var t := Apply(s, Complete(a));
    DeliveredAfter(s, a, t.attempts[a], k);
    assert k != s.attempts[a].key ==> SameAccounts(s, t, k);
  }

  lemma CompleteTornKeepsAccounts(s: State, a: AttemptId, cleared: bool, k: Key)
    requires TokensHeld(s) && Accounted(s, k) && Enabled(s, CompleteTorn(a, cleared))
    ensures Accounted(Apply(s, CompleteTorn(a, cleared)), k)
  {
    var t := Apply(s, CompleteTorn(a, cleared));
    DeliveredAfter(s, a, t.attempts[a], k);
    assert k != s.attempts[a].key ==> SameAccounts(s, t, k);
  }

  lemma FinishKeepsAccounts(s: State, a: AttemptId, k: Key)
    requires TokensHeld(s) && Accounted(s, k) && Enabled(s, Finish(a))
    ensures Accounted(Apply(s, Finish(a)), k)
  {
    DeliveredAfterFinish(s, a, k);
    assert k != s.attempts[a].key ==> SameAccounts(s, Apply(s, Finish(a)), k);
  }

  lemma CrashKeepsAccounts(s: State, k: Key)
    requires Accounted(s, k)
    ensures Accounted(Apply(s, Crash), k)
  {
    DeliveredMeans(map[], k);
  }

  lemma AttemptKeepsAccounts(s: State, step: Step, k: Key)
    requires TokensHeld(s) && Enabled(s, step)
    requires step.Read? || step.Clear? || step.MarkFailed? || step.MarkTorn? || step.Schedule?
    ensures SameAccounts(s, Apply(s, step), k)
  {
    DeliveredAfter(s, step.a, Apply(s, step).attempts[step.a], k);
  }

  lemma StepKeepsAccounts(s: State, step: Step, k: Key)
    requires TokensHeld(s) && Accounted(s, k) && Enabled(s, step)
    ensures Accounted(Apply(s, step), k)
  {
    match step
    case SendFires(a, key) =>
      DeliveredAfterBegin(s, a, key, k);
      assert SameAccounts(s, Apply(s, step), k);
    case TimerFires(a, key) =>
      DeliveredAfterBegin(s, a, key, k);
      assert SameAccounts(s, Apply(s, step), k);
    case Rpc(a, outcome) => RpcKeepsAccounts(s, a, outcome, k);
    case Complete(a) => CompleteKeepsAccounts(s, a, k);
    case CompleteTorn(a, cleared) => CompleteTornKeepsAccounts(s, a, cleared, k);
    case Finish(a) => FinishKeepsAccounts(s, a, k);
    case Crash => CrashKeepsAccounts(s, k);
    case Queue(_) => assert SameAccounts(s, Apply(s, step), k);
    case QueueTorn(_) => assert SameAccounts(s, Apply(s, step), k);
    case Tick => assert SameAccounts(s, Apply(s, step), k);
    case _ => AttemptKeepsAccounts(s, step, k);
  }

  /** The step touches neither the message's record nor its failures; at most it waives more. */
  ghost predicate SameWait(s: State, t: State, k: Key) {
    && (k in s.history.queued ==> k in t.history.queued)
    && Times(t.history, k) == Times(s.history, k)
    && (k in t.outbox ==> k in s.outbox && t.outbox[k] == s.outbox[k])
    && Count(s.history.waived, k) <= Count(t.history.waived, k)
  }

  lemma TimedStays(s: State, t: State, k: Key)
    requires Timed(s, k) && SameWait(s, t, k)
    ensures Timed(t, k)
  {
  }

  lemma StepKeepsTime(s: State, step: Step, k: Key)
    requires AttemptsKnow(s) && AttemptsOnTime(s) && Settled(s, k) && Timed(s, k) && Enabled(s, step)
    ensures Timed(Apply(s, step), k)
  {
    if step.Schedule? && s.attempts[step.a].key == k {
      assert AttemptKnows(s, s.attempts[step.a]);
      ScheduleKeepsTime(s, step.a);
    } else if step != Queue(k) {
      OthersKeepWait(s, step, k);
      TimedStays(s, Apply(s, step), k);
    }
  }

  lemma OthersKeepWait(s: State, step: Step, k: Key)
    requires Enabled(s, step) && step != Queue(k) && !(step.Schedule? && s.attempts[step.a].key == k)
    ensures SameWait(s, Apply(s, step), k)
  {
  }

  /** One more failure: the new due time is a full delay after an attempt that had waited long enough. */
  lemma ScheduleKeepsTime(s: State, a: AttemptId)
    requires Enabled(s, Schedule(a)) && AttemptKnows(s, s.attempts[a]) && AttemptsOnTime(s)
    requires Timed(s, s.attempts[a].key) && Settled(s, s.attempts[a].key)
    ensures Timed(Apply(s, Schedule(a)), s.attempts[a].key)
  {
    var k := s.attempts[a].key;
    var times := Times(s.history, k);
    assert k in s.outbox && Waited(s, k, s.now);
    var times' := times + [s.now];
    assert Times(Apply(s, Schedule(a)).history, k) == times';
    assert |times'| == |times| + 1 && times'[|times|] == s.now;
    if times == [] {
      assert TotalDelay(1) == TotalDelay(0) + Delay(1);
    } else {
      assert times'[0] == times[0];
    }
  }

  lemma StepKeepsAttemptsOnTime(s: State, step: Step)
    requires TokensHeld(s) && AttemptsKnow(s) && AttemptsOnTime(s) && (forall k :: Settled(s, k))
    requires (forall k :: Timed(s, k)) && Enabled(s, step)
    ensures AttemptsOnTime(Apply(s, step))
  {
    var t := Apply(s, step);
    forall a | a in t.attempts && (Busy(t.attempts[a].phase) || t.attempts[a].phase.Begun?) && t.attempts[a].key in t.outbox
      ensures Waited(t, t.attempts[a].key, t.now)
    {
      var k := t.attempts[a].key;
      if a in s.attempts {
        assert Settled(s, k) && AttemptKnows(s, s.attempts[a]);
        AttemptStaysOnTime(s, step, a);
      } else {
        assert Timed(s, k) && (step == SendFires(a, k) || step == TimerFires(a, k));
        BeginIsOnTime(s, k);
      }
    }
  }

  lemma AttemptStaysOnTime(s: State, step: Step, a: AttemptId)
    requires TokensHeld(s) && AttemptsOnTime(s) && Enabled(s, step)
    requires a in s.attempts && Settled(s, s.attempts[a].key) && AttemptKnows(s, s.attempts[a])
    ensures var t, k := Apply(s, step), s.attempts[a].key;
            a in t.attempts && (Busy(t.attempts[a].phase) || t.attempts[a].phase.Begun?) && k in t.outbox
            ==> Waited(t, k, t.now)
  {
    var t, k := Apply(s, step), s.attempts[a].key;
    if a in t.attempts && (Busy(t.attempts[a].phase) || t.attempts[a].phase.Begun?) && k in t.outbox {
      assert Busy(s.attempts[a].phase) || s.attempts[a].phase.Begun?;
      assert k in s.outbox;
      assert Waited(s, k, s.now);
      assert Times(t.history, k) == Times(s.history, k) && Count(t.history.waived, k) == Count(s.history.waived, k);
    }
  }

  lemma BeginIsOnTime(s: State, k: Key)
    requires k !in s.inFlight && k in s.outbox && Timed(s, k)
    ensures Waited(s.(history := Waive(s, k)), k, s.now)
  {
  }

  lemma StepKeepsSpared(s: State, step: Step, k: Key)
    requires Spared(s, k) && Timed(s, k) && Enabled(s, step)
    ensures Spared(Apply(s, step), k)
  {
    if step.SendFires? {
      BeginKeepsSpared(s, step.a, step.key, k);
    } else if step.Schedule? && s.attempts[step.a].key == k {
      if Times(s.history, k) != [] {
        DelayGrows(|Times(s.history, k)|);
      }
    } else if step != Queue(k) {
      OthersKeepWait(s, step, k);
      OthersWaiveNothing(s, step, k);
    }
  }

  lemma OthersWaiveNothing(s: State, step: Step, k: Key)
    requires Enabled(s, step) && step != Queue(k) && !step.SendFires?
    ensures var t := Apply(s, step);
            && Count(t.history.waived, k) == Count(s.history.waived, k) && s.now <= t.now
            && (k in t.sends ==> k in s.sends)
            && (k in t.history.unlisted ==> k in s.history.unlisted || (step == QueueTorn(k) && k in t.history.queued))
  {
    OthersRecordNoWaiver(s, step, k);
    assert Apply(s, step).history == Recorded(s, step);
  }

  lemma OthersRecordNoWaiver(s: State, step: Step, k: Key)
    requires Enabled(s, step) && !step.SendFires?
    ensures var h := Recorded(s, step);
            && Count(h.waived, k) == Count(s.history.waived, k)
            && (k in h.unlisted ==> k in s.history.unlisted || (step == QueueTorn(k) && k in h.queued))
  {
  }

  lemma BeginKeepsSpared(s: State, a: AttemptId, key: Key, k: Key)
    requires Spared(s, k) && Timed(s, k) && Enabled(s, SendFires(a, key))
    ensures Spared(Apply(s, SendFires(a, key)), k)
  {
  }

  lemma StepKeepsInvariant(s: State, step: Step)
    requires Invariant(s) && Enabled(s, step)
    ensures Invariant(Apply(s, step))
  {
    StepKeepsTokens(s, step);
    StepKeepsKnowledge(s, step);
    StepKeepsAttemptsOnTime(s, step);
    var t := Apply(s, step);
    forall k ensures Settled(t, k) && Accounted(t, k) && Timed(t, k) && Spared(t, k) {
      StepKeepsSettled(s, step, k);
      StepKeepsAccounts(s, step, k);
      StepKeepsTime(s, step, k);
      StepKeepsSpared(s, step, k);
    }
  }

  lemma {:induction false} RunKeepsInvariant(steps: seq<Step>)
    requires Run(steps).Reached?
    ensures Invariant(Run(steps).state)
  {
    if steps != [] {
      var last := |steps| - 1;
      RunKeepsInvariant(steps[..last]);
      StepKeepsInvariant(Run(steps[..last]).state, steps[last]);
    }
  }

  // ---- main results ------------------------------------------------------------------------------

  /**
   Whatever attempts run and wherever they stop: the record of a message exists exactly when the message is
   pending, unless queueing or settling it was torn; a message is completed at most once, and one that was
   queued is gone exactly when it was completed, or lost to a torn completion.
   */
  lemma OutboxMirrorsPending(steps: seq<Step>, k: Key)
    requires Run(steps).Reached?
    ensures var s := Run(steps).state;
            && ((k in s.outbox <==> k in s.messages && s.messages[k] == Pending)
                <==> k !in s.history.unlisted && k !in s.history.stale)
            && Count(s.history.completions, k) <= 1
            && (k in s.history.queued ==> (k !in s.messages <==> Count(s.history.completions, k) == 1 || k in s.history.vanished))
  {
    RunKeepsInvariant(steps);
    assert Settled(Run(steps).state, k);
  }

  /** Sent and failed are final: no step leads back. */
  lemma SettledIsFinal(steps: seq<Step>, step: Step, k: Key)
    requires Run(steps).Reached? && Enabled(Run(steps).state, step) && k in Run(steps).state.history.queued
    ensures var s, t := Run(steps).state, Apply(Run(steps).state, step);
            && (k !in s.messages ==> k !in t.messages)
            && (k in s.messages && s.messages[k] == Failed ==> k in t.messages && t.messages[k] == Failed)
  {
    RunKeepsInvariant(steps);
    var s := Run(steps).state;
    match step
    case Complete(a) => assert AttemptKnows(s, s.attempts[a]);
    case CompleteTorn(a, _) => assert AttemptKnows(s, s.attempts[a]);
    case MarkFailed(a) => assert AttemptKnows(s, s.attempts[a]);
    case MarkTorn(a) => assert AttemptKnows(s, s.attempts[a]);
    case _ =>
  }
}
