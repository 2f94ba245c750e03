/** What a reported timeout does, in seconds and counts. */
module HealthDecisions {
  import opened ConnectionHealth
  import opened Options

  /** Ill health dates from the last success, if that is known, and stays dated from the first timeout that found it. */
  function IllSince(h: Health, at: int, lastSuccess: Option<int>): int {
    if h.unhealthySince.Some? then h.unhealthySince.value else if lastSuccess.Some? then lastSuccess.value else at
  }

  /** The count reported with the timeout, or one more than before where none is. */
  function TimeoutsThen(h: Health, errorCount: int): int {
    if errorCount > 0 then errorCount else h.timeouts + 1
  }

  /**
   A timeout forces a reconnect if and only if none is under way, the daemon does not give up, and it is the second
   in a row or 45 seconds have gone since the last success; it makes the daemon give up a minute after a
   reconnect was forced.
   */
  lemma TimeoutDecides(h: Health, at: int, lastSuccess: Option<int>, errorCount: int)
    ensures var d, g := Decide(h, Timeout(at, lastSuccess, errorCount)), ConnectionHealth.Next(h, Timeout(at, lastSuccess, errorCount));
            && (d.stop <==> h.recoveryStartedAt.Some? && at - h.recoveryStartedAt.value >= 60_000_000_000)
            && (d.force <==>
                  && !d.stop && !h.recovering
                  && (TimeoutsThen(h, errorCount) >= 2 || at - IllSince(h, at, lastSuccess) >= 45_000_000_000))
            && g.timeouts == TimeoutsThen(h, errorCount) && g.unhealthySince == Some(IllSince(h, at, lastSuccess))
            && g.recovering == (h.recovering || d.force)
            && g.recoveryStartedAt == if d.force && h.recoveryStartedAt.None? then Some(at) else h.recoveryStartedAt
  {
  }

  /** Two timeouts in a row, with no reconnect under way and none forced before, force one at once. */
  lemma SecondTimeoutForces(at: int, again: int, lastSuccess: Option<int>)
    requires at <= again
    ensures var inputs := [Timeout(at, lastSuccess, 0), Timeout(again, lastSuccess, 0)];
            DecisionAt(inputs, 0).force || DecisionAt(inputs, 1).force
  {
    var inputs := [Timeout(at, lastSuccess, 0), Timeout(again, lastSuccess, 0)];
    assert StateAt(inputs, 0) == RESET;
    TimeoutDecides(RESET, at, lastSuccess, 0);
    TimeoutDecides(StateAt(inputs, 1), again, lastSuccess, 0);
  }
}
