/**
 The recovery of a connection whose keep-alives time out: when a reconnect is forced, and when the daemon
 gives up. Instants and durations count nanoseconds.
 */
module ConnectionHealth {
  import opened Options

  const SECOND := 1_000_000_000
  const RECONNECT_THRESHOLD := 45 * SECOND
  const TIMEOUT_COUNT_LIMIT := 2
  const STOP_THRESHOLD := 60 * SECOND

  datatype Health = Health(unhealthySince: Option<int>, recoveryStartedAt: Option<int>, timeouts: int, recovering: bool)

  const RESET := Health(None, None, 0, false)

  datatype Decision = Decision(force: bool, stop: bool)

  /** What happens to the connection; a look at it happens on its own every few seconds. */
  datatype Input =
    | Healthy
    | Disconnected
    | Timeout(at: int, lastSuccess: Option<int>, errorCount: int)
    | Look(at: int)

  predicate Evaluates(input: Input) {
    input.Timeout? || input.Look?
  }

  function Since(start: Option<int>, now: int): int {
    match start
    case None => 0
    case Some(t) => now - t
  }

  predicate Stops(h: Health, now: int) {
    h.recoveryStartedAt.Some? && Since(h.recoveryStartedAt, now) >= STOP_THRESHOLD
  }

  predicate Forces(h: Health, now: int) {
    && !Stops(h, now) && !h.recovering
    && (Since(h.unhealthySince, now) >= RECONNECT_THRESHOLD || h.timeouts >= TIMEOUT_COUNT_LIMIT)
  }

  function TimedOut(h: Health, at: int, lastSuccess: Option<int>, errorCount: int): Health {
    h.(timeouts := if errorCount > 0 then errorCount else h.timeouts + 1,
       unhealthySince := if h.unhealthySince.Some? then h.unhealthySince else Some(if lastSuccess.Some? then lastSuccess.value else at))
  }

  /** The state a decision is taken in. */
  function Facing(h: Health, input: Input): Health {
    if input.Timeout? then TimedOut(h, input.at, input.lastSuccess, input.errorCount) else h
  }

  function Decide(h: Health, input: Input): Decision {
    if !Evaluates(input) then Decision(false, false)
    else Decision(Forces(Facing(h, input), input.at), Stops(Facing(h, input), input.at))
  }

  function Next(h: Health, input: Input): Health {
    match input
    case Healthy => RESET
    case Disconnected => h.(recovering := false)
    case _ =>
      var g := Facing(h, input);
      if !Forces(g, input.at) then g
      else g.(recovering := true, recoveryStartedAt := if g.recoveryStartedAt.Some? then g.recoveryStartedAt else Some(input.at))
  }

  // ---- runs --------------------------------------------------------------------------------------

  function StateAt(inputs: seq<Input>, n: nat): Health
    requires n <= |inputs|
  {
    if n == 0 then RESET else Next(StateAt(inputs, n - 1), inputs[n - 1])
  }

  function DecisionAt(inputs: seq<Input>, i: nat): Decision
    requires i < |inputs|
  {
    Decide(StateAt(inputs, i), inputs[i])
  }

  function Forced(inputs: seq<Input>, n: nat): nat
    requires n <= |inputs|
  {
    if n == 0 then 0 else Forced(inputs, n - 1) + if DecisionAt(inputs, n - 1).force then 1 else 0
  }

  function Disconnects(inputs: seq<Input>, n: nat): nat
    requires n <= |inputs|
  {
    if n == 0 then 0 else Disconnects(inputs, n - 1) + if inputs[n - 1].Disconnected? then 1 else 0
  }

  /** Nothing says that the connection is well again, and the clock does not go back. */
  ghost predicate Episode(inputs: seq<Input>) {
    && (forall i :: 0 <= i < |inputs| ==> !inputs[i].Healthy?)
    && (forall i, j :: 0 <= i < j < |inputs| && Evaluates(inputs[i]) && Evaluates(inputs[j]) ==> inputs[i].at <= inputs[j].at)
  }

  /** After a reset it is as if nothing had happened before. */
  lemma {:induction false} ResetsStartOver(before: seq<Input>, inputs: seq<Input>, n: nat)
    requires n <= |inputs|
    ensures StateAt(before + [Healthy] + inputs, |before| + 1 + n) == StateAt(inputs, n)
  {
    if n > 0 {
      ResetsStartOver(before, inputs, n - 1);
    }
  }

  /** Each reconnect but the first needs a disconnect before it. */
  lemma {:induction false} ForcedAtMostOncePerDisconnect(inputs: seq<Input>, n: nat)
    requires Episode(inputs) && n <= |inputs|
    ensures Forced(inputs, n) + (if StateAt(inputs, n).recovering then 0 else 1) <= 1 + Disconnects(inputs, n)
  {
    if n > 0 {
      ForcedAtMostOncePerDisconnect(inputs, n - 1);
    }
  }

  /** Timeouts enough, then disconnects at once after each reconnect: one reconnect more than disconnects. */
  function Storm(n: nat): (inputs: seq<Input>)
    ensures |inputs| == 2 * n + 1
  {
    if n == 0 then [Timeout(0, None, TIMEOUT_COUNT_LIMIT)] else Storm(n - 1) + [Disconnected, Look(0)]
  }

  lemma {:induction false} SamePrefix(inputs: seq<Input>, more: seq<Input>, n: nat)
    requires n <= |inputs|
    ensures StateAt(inputs + more, n) == StateAt(inputs, n)
    ensures Forced(inputs + more, n) == Forced(inputs, n) && Disconnects(inputs + more, n) == Disconnects(inputs, n)
  {
    if n > 0 {
      SamePrefix(inputs, more, n - 1);
    }
  }

  const STRUCK := Health(Some(0), Some(0), TIMEOUT_COUNT_LIMIT, true)

  lemma {:induction false} StormReachesTheBound(n: nat)
    ensures var inputs := Storm(n);
            && StateAt(inputs, |inputs|) == STRUCK
            && Disconnects(inputs, |inputs|) == n && Forced(inputs, |inputs|) == n + 1
  {
    if n == 0 {
    } else {
      StormReachesTheBound(n - 1);
      StruckAfter(Storm(n - 1));
    }
  }

  lemma StruckAfter(before: seq<Input>)
    requires StateAt(before, |before|) == STRUCK
    ensures var inputs := before + [Disconnected, Look(0)];
            && StateAt(inputs, |inputs|) == STRUCK
            && Forced(inputs, |inputs|) == Forced(before, |before|) + 1
            && Disconnects(inputs, |inputs|) == Disconnects(before, |before|) + 1
  {
    SamePrefix(before, [Disconnected, Look(0)], |before|);
  }

  // ---- giving up ---------------------------------------------------------------------------------

  /** Recovery counts from a reconnect forced in this episode, and from no later than any of them. */
  lemma {:induction false} RecoveryBegan(inputs: seq<Input>, n: nat) returns (j: nat)
    requires Episode(inputs) && n <= |inputs| && StateAt(inputs, n).recoveryStartedAt.Some?
    ensures j < n && DecisionAt(inputs, j).force && StateAt(inputs, n).recoveryStartedAt == Some(inputs[j].at)
  {
    if StateAt(inputs, n - 1).recoveryStartedAt.Some? {
      j := RecoveryBegan(inputs, n - 1);
    } else {
      j := n - 1;
    }
  }

  lemma {:induction false} RecoveryCovers(inputs: seq<Input>, n: nat, j: nat)
    requires Episode(inputs) && j < n <= |inputs| && DecisionAt(inputs, j).force
    ensures var r := StateAt(inputs, n).recoveryStartedAt; r.Some? && r.value <= inputs[j].at
  {
    if j < n - 1 {
      RecoveryCovers(inputs, n - 1, j);
    } else if StateAt(inputs, j).recoveryStartedAt.Some? {
      var k := RecoveryBegan(inputs, j);
      assert inputs[k].at <= inputs[j].at;
    }
  }

  /** The daemon gives up exactly when some reconnect of the episode was forced a minute ago or longer. */
  lemma StopsExactlyAfterAMinute(inputs: seq<Input>, i: nat)
    requires Episode(inputs) && i < |inputs| && Evaluates(inputs[i])
    ensures DecisionAt(inputs, i).stop <==>
            exists j :: 0 <= j < i && DecisionAt(inputs, j).force && inputs[i].at - inputs[j].at >= STOP_THRESHOLD
  {
    if DecisionAt(inputs, i).stop {
      var j := RecoveryBegan(inputs, i);
    }
    forall j | 0 <= j < i && DecisionAt(inputs, j).force && inputs[i].at - inputs[j].at >= STOP_THRESHOLD
      ensures DecisionAt(inputs, i).stop
    {
      RecoveryCovers(inputs, i, j);
    }
  }

  /** The two evaluations have none between them. */
  ghost predicate Consecutive(inputs: seq<Input>, i: int, j: int) {
    && 0 <= i < j < |inputs| && Evaluates(inputs[i]) && Evaluates(inputs[j])
    && forall k :: i < k < j ==> !Evaluates(inputs[k])
  }

  ghost predicate AtMostApart(inputs: seq<Input>, d: int) {
    forall i, j :: Consecutive(inputs, i, j) ==> inputs[j].at <= inputs[i].at + d
  }

  /** The next evaluation. */
  lemma NextEvaluation(inputs: seq<Input>, i: nat, from: nat) returns (j: nat)
    requires i < from < |inputs| && Evaluates(inputs[i]) && Evaluates(inputs[|inputs| - 1])
    requires forall k :: i < k < from ==> !Evaluates(inputs[k])
    ensures from <= j && Consecutive(inputs, i, j)
    decreases |inputs| - from
  {
    if Evaluates(inputs[from]) {
      j := from;
    } else {
      j := NextEvaluation(inputs, i, from + 1);
    }
  }

  /** Between evaluations only the mark of an attempt under way can change. */
  lemma {:induction false} NothingBetween(inputs: seq<Input>, i: nat, j: nat)
    requires Episode(inputs) && i < j <= |inputs| && forall k :: i < k < j ==> !Evaluates(inputs[k])
    ensures StateAt(inputs, j) == StateAt(inputs, i + 1).(recovering := StateAt(inputs, j).recovering)
    ensures StateAt(inputs, j).recovering ==> StateAt(inputs, i + 1).recovering
  {
    if i + 1 < j {
      NothingBetween(inputs, i, j - 1);
    }
  }

  ghost predicate Waiting(h: Health, since: int) {
    h.unhealthySince == Some(since) && h.recoveryStartedAt.None? && !h.recovering
  }

  /** While nothing is forced, the first evaluation after the threshold forces a reconnect. */
  lemma FindForce(inputs: seq<Input>, i: nat, since: int, d: int) returns (j: nat)
    requires Episode(inputs) && AtMostApart(inputs, d) && i < |inputs| && Evaluates(inputs[i]) && Evaluates(inputs[|inputs| - 1])
    requires Waiting(StateAt(inputs, i + 1), since)
    requires inputs[i].at < since + RECONNECT_THRESHOLD <= inputs[|inputs| - 1].at
    ensures i < j < |inputs| && DecisionAt(inputs, j).force && inputs[j].at < since + RECONNECT_THRESHOLD + d
    ensures StateAt(inputs, j + 1).recoveryStartedAt == Some(inputs[j].at)
    decreases |inputs| - i
  {
    var next := NextEvaluation(inputs, i, i + 1);
    NothingBetween(inputs, i, next);
    if DecisionAt(inputs, next).force {
      j := next;
    } else {
      j := FindForce(inputs, next, since, d);
    }
  }

  /** Once a reconnect was forced, the first evaluation after the threshold gives up. */
  lemma FindStop(inputs: seq<Input>, i: nat, start: int, d: int) returns (j: nat)
    requires Episode(inputs) && AtMostApart(inputs, d) && i < |inputs| && Evaluates(inputs[i]) && Evaluates(inputs[|inputs| - 1])
    requires StateAt(inputs, i + 1).recoveryStartedAt == Some(start)
    requires inputs[i].at < start + STOP_THRESHOLD <= inputs[|inputs| - 1].at
    ensures i < j < |inputs| && DecisionAt(inputs, j).stop && inputs[j].at < start + STOP_THRESHOLD + d
    decreases |inputs| - i
  {
    var next := NextEvaluation(inputs, i, i + 1);
    NothingBetween(inputs, i, next);
    if DecisionAt(inputs, next).stop {
      j := next;
    } else {
      j := FindStop(inputs, next, start, d);
    }
  }

  function Later(a: int, b: int): int {
    if a < b then b else a
  }

  /**
   An episode that begins with a timeout and goes on, looked at no more than d apart: a reconnect is
   forced no later than at the first timeout or d after 45 seconds of ill health, and the daemon gives up
   no later than a minute and d after that.
   */
  lemma GivesUpInTime(inputs: seq<Input>, d: nat) returns (forced: nat, stopped: nat)
    requires Episode(inputs) && AtMostApart(inputs, d) && inputs != [] && inputs[0].Timeout?
    requires inputs[0].lastSuccess.Some? ==> inputs[0].lastSuccess.value <= inputs[0].at
    requires var since := StateAt(inputs, 1).unhealthySince.value;
             && Evaluates(inputs[|inputs| - 1])
             && inputs[|inputs| - 1].at >= Later(inputs[0].at, since + RECONNECT_THRESHOLD + d) + STOP_THRESHOLD
    ensures var since := StateAt(inputs, 1).unhealthySince.value;
            && forced < stopped < |inputs|
            && DecisionAt(inputs, forced).force && inputs[forced].at <= Later(inputs[0].at, since + RECONNECT_THRESHOLD + d)
            && DecisionAt(inputs, stopped).stop && inputs[stopped].at <= inputs[forced].at + STOP_THRESHOLD + d
  {
    var since := StateAt(inputs, 1).unhealthySince.value;
    assert StateAt(inputs, 0) == RESET;
    if DecisionAt(inputs, 0).force {
      forced := 0;
    } else {
      forced := FindForce(inputs, 0, since, d);
    }
    stopped := FindStop(inputs, forced, inputs[forced].at, d);
  }

  /** A first timeout that comes late puts the end off by as much: giving up takes a minute from there. */
  lemma LateFirstTimeout(inputs: seq<Input>, i: nat)
    requires Episode(inputs) && i < |inputs| && inputs[0].Timeout? && DecisionAt(inputs, i).stop
    ensures inputs[i].at >= inputs[0].at + STOP_THRESHOLD
  {
    var j := RecoveryBegan(inputs, i);
  }

  // ---- how late a first timeout may come ---------------------------------------------------------

  /** What 45 seconds, a minute and two gaps would promise, from the last success on. */
  function Ceiling(since: int, d: nat): int {
    since + RECONNECT_THRESHOLD + STOP_THRESHOLD + 2 * d
  }

  /**
   An episode whose first timeout is reported so long after the last success, looked at no more than d apart,
   and going on at least up to the ceiling.
   */
  ghost predicate LateEpisode(inputs: seq<Input>, since: int, delay: nat, d: nat) {
    && Episode(inputs) && AtMostApart(inputs, d)
    && inputs != [] && inputs[0].Timeout? && inputs[0].at == since + delay && StateAt(inputs, 1).unhealthySince == Some(since)
    && Evaluates(inputs[|inputs| - 1]) && inputs[|inputs| - 1].at >= Ceiling(since, d)
  }

  ghost predicate StopsBy(inputs: seq<Input>, bound: int) {
    exists i :: 0 <= i < |inputs| && DecisionAt(inputs, i).stop && inputs[i].at <= bound
  }

  lemma SoonEnough(inputs: seq<Input>, since: int, delay: nat, d: nat)
    requires LateEpisode(inputs, since, delay, d) && 0 < d && delay <= RECONNECT_THRESHOLD + d + 1
    ensures StopsBy(inputs, Ceiling(since, d))
  {
    assert StateAt(inputs, 0) == RESET;
    var forced := 0;
    if !DecisionAt(inputs, 0).force {
      forced := FindForce(inputs, 0, since, d);
    }
    var stopped := FindStop(inputs, forced, inputs[forced].at, d);
  }

  /** A look every nanosecond up to a minute after the first timeout, and then none for as long as may be. */
  function JustMissed(since: int, delay: nat, d: nat): (inputs: seq<Input>)
    ensures |inputs| == STOP_THRESHOLD + 1
  {
    [Timeout(since + delay, Some(since), 1)]
    + seq(STOP_THRESHOLD - 1, i => Look(since + delay + 1 + i))
    + [Look(since + delay + STOP_THRESHOLD - 1 + d)]
  }

  lemma JustMissedAt(since: int, delay: nat, d: nat, i: nat)
    requires i <= STOP_THRESHOLD
    ensures var input := JustMissed(since, delay, d)[i];
            && Evaluates(input) && (i == 0 ==> input == Timeout(since + delay, Some(since), 1))
            && input.at == since + delay + if i < STOP_THRESHOLD then i else STOP_THRESHOLD - 1 + d
  {
  }

  lemma JustMissedIsLate(since: int, delay: nat, d: nat)
    requires 0 < d && delay > RECONNECT_THRESHOLD + d + 1
    ensures LateEpisode(JustMissed(since, delay, d), since, delay, d)
  {
    var inputs := JustMissed(since, delay, d);
    forall i | 0 <= i < |inputs|
      ensures Evaluates(inputs[i]) && inputs[i].at == since + delay + if i < STOP_THRESHOLD then i else STOP_THRESHOLD - 1 + d
    {
      JustMissedAt(since, delay, d, i);
    }
    forall i, j | Consecutive(inputs, i, j) ensures inputs[j].at <= inputs[i].at + d {
      assert Evaluates(inputs[i + 1]);
    }
    JustMissedAt(since, delay, d, 0);
    assert StateAt(inputs, 0) == RESET;
  }

  lemma JustMissedStopsLate(since: int, delay: nat, d: nat)
    requires 0 < d && delay > RECONNECT_THRESHOLD + d + 1
    ensures !StopsBy(JustMissed(since, delay, d), Ceiling(since, d))
  {
    var inputs := JustMissed(since, delay, d);
    JustMissedIsLate(since, delay, d);
    forall i | 0 <= i < |inputs| && DecisionAt(inputs, i).stop ensures inputs[i].at > Ceiling(since, d) {
      LateFirstTimeout(inputs, i);
      JustMissedAt(since, delay, d, i);
      JustMissedAt(since, delay, d, 0);
    }
  }

  /** Looked at no more than nothing apart, an episode takes no time. */
  lemma NoTimePasses(inputs: seq<Input>, i: nat)
    requires Episode(inputs) && AtMostApart(inputs, 0) && i < |inputs| && Evaluates(inputs[i]) && Evaluates(inputs[|inputs| - 1])
    ensures inputs[|inputs| - 1].at == inputs[i].at
    decreases |inputs| - i
  {
    if i < |inputs| - 1 {
      var j := NextEvaluation(inputs, i, i + 1);
      NoTimePasses(inputs, j);
    }
  }

  /** The latest first timeout that still lets every episode end by the ceiling. */
  function LatestFirstTimeout(d: nat): nat {
    if d == 0 then RECONNECT_THRESHOLD + STOP_THRESHOLD - 1 else RECONNECT_THRESHOLD + d + 1
  }

  lemma NoTimeToStop(since: int, delay: nat)
    ensures (forall inputs :: LateEpisode(inputs, since, delay, 0) ==> StopsBy(inputs, Ceiling(since, 0)))
       <==> delay <= LatestFirstTimeout(0)
  {
    if delay <= LatestFirstTimeout(0) {
      forall inputs ensures !LateEpisode(inputs, since, delay, 0) {
        if LateEpisode(inputs, since, delay, 0) {
          NoTimePasses(inputs, 0);
        }
      }
    } else {
      var inputs := [Timeout(since + delay, Some(since), 1)];
      assert StateAt(inputs, 0) == RESET;
      assert LateEpisode(inputs, since, delay, 0);
    }
  }

  /**
   Every such episode ends by the ceiling if and only if the first timeout is reported no later than 45 seconds,
   one gap and a nanosecond after the last success (no time passes in an episode without gaps, so that it can
   only reach the ceiling by its first timeout).
   */
  lemma GivesUpWithinExactly(since: int, delay: nat, d: nat)
    ensures (forall inputs :: LateEpisode(inputs, since, delay, d) ==> StopsBy(inputs, Ceiling(since, d)))
       <==> delay <= LatestFirstTimeout(d)
  {
    if d == 0 {
      NoTimeToStop(since, delay);
    } else if delay <= LatestFirstTimeout(d) {
      forall inputs | LateEpisode(inputs, since, delay, d) ensures StopsBy(inputs, Ceiling(since, d)) {
        SoonEnough(inputs, since, delay, d);
      }
    } else {
      JustMissedIsLate(since, delay, d);
      JustMissedStopsLate(since, delay, d);
    }
  }

  // ---- the tracked state -------------------------------------------------------------------------

  /** What the five-second tick makes of it. */
  datatype Tick = ConnectionLost | GiveUp | Reconnect | Nothing

  class ConnectionHealthState {
    var unhealthySince: Option<int>
    var recoveryStartedAt: Option<int>
    var keepAliveTimeoutCount: int
    var keepAliveRecovering: bool

    function Abs(): Health
      reads this
    {
      Health(unhealthySince, recoveryStartedAt, keepAliveTimeoutCount, keepAliveRecovering)
    }

    constructor ()
      ensures Abs() == RESET
    {
      unhealthySince, recoveryStartedAt, keepAliveTimeoutCount, keepAliveRecovering := None, None, 0, false;
    }

    method MarkHealthy()
      modifies this
      ensures Abs() == Next(old(Abs()), Healthy)
    {
      unhealthySince, recoveryStartedAt, keepAliveTimeoutCount, keepAliveRecovering := None, None, 0, false;
    }

    method MarkDisconnected()
      modifies this
      ensures Abs() == Next(old(Abs()), Disconnected)
    {
      keepAliveRecovering := false;
    }

    method BeginRecovery(now: int) returns (begun: bool)
      modifies this
      ensures begun <==> !old(keepAliveRecovering)
      ensures Abs() == if !begun then old(Abs()) else
                old(Abs()).(recovering := true,
                            recoveryStartedAt := if old(recoveryStartedAt).Some? then old(recoveryStartedAt) else Some(now))
    {
      if keepAliveRecovering {
        return false;
      }
      keepAliveRecovering := true;
      if recoveryStartedAt.None? {
        recoveryStartedAt := Some(now);
      }
      begun := true;
    }

    method ShouldForceReconnect(now: int) returns (force: bool)
      ensures !Stops(Abs(), now) ==> (force <==> Forces(Abs(), now))
    {
      if keepAliveRecovering {
        return false;
      }
      force := Since(unhealthySince, now) >= RECONNECT_THRESHOLD || keepAliveTimeoutCount >= TIMEOUT_COUNT_LIMIT;
    }

    method ShouldStop(now: int) returns (stop: bool)
      ensures stop <==> Stops(Abs(), now)
    {
      if recoveryStartedAt.None? {
        return false;
      }
      stop := Since(recoveryStartedAt, now) >= STOP_THRESHOLD;
    }

    method EvaluateRecovery(now: int) returns (decision: Decision)
      modifies this
      ensures Abs() == Next(old(Abs()), Look(now)) && decision == Decide(old(Abs()), Look(now))
    {
      decision := Decision(false, false);
      var stop := ShouldStop(now);
      if stop {
        return decision.(stop := true);
      }
      var force := ShouldForceReconnect(now);
      if force {
        var begun := BeginRecovery(now);
        decision := decision.(force := begun);
      }
    }

    method RecordKeepAliveTimeout(now: int, lastSuccess: Option<int>, errorCount: int) returns (decision: Decision)
      modifies this
      ensures var input := Timeout(now, lastSuccess, errorCount);
              Abs() == Next(old(Abs()), input) && decision == Decide(old(Abs()), input)
    {
      if errorCount > 0 {
        keepAliveTimeoutCount := errorCount;
      } else {
        keepAliveTimeoutCount := keepAliveTimeoutCount + 1;
      }
      if unhealthySince.None? {
        unhealthySince := Some(now);
        if lastSuccess.Some? {
          unhealthySince := lastSuccess;
        }
      }
      decision := EvaluateRecovery(now);
    }

    method OnTick(connected: bool, now: int) returns (tick: Tick)
      modifies this
      ensures !connected ==> tick == ConnectionLost && Abs() == Next(old(Abs()), Disconnected)
      ensures connected ==> Abs() == Next(old(Abs()), Look(now))
      ensures connected ==> var decision := Decide(old(Abs()), Look(now));
                tick == if decision.stop then GiveUp else if decision.force then Reconnect else Nothing
    {
      if !connected {
        MarkDisconnected();
        return ConnectionLost;
      }
      var decision := EvaluateRecovery(now);
      tick := if decision.stop then GiveUp else if decision.force then Reconnect else Nothing;
    }
  }
}
