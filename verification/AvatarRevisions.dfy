/**
 Which avatar requests and results are current: revisions over whole runs of producers, removals and the
 worker, told by the steps that bumped them and the step at which a request took its own.
 */
module AvatarRevisions {
  import opened AvatarQueue
  import opened AvatarWorker
  import opened Runs

  // ---- bumps -------------------------------------------------------------------------------------

  /** How often a step makes earlier results for the contact stale: a removal, or each forced request. */
  function BumpsOf(step: Step, jid: Jid): nat {
    match step
    case Remove(other) => if other == jid then 1 else 0
    case ProducerEnqueue(_, jids, _, force) => if force && jid != "" then multiset(jids)[jid] else 0
    case _ => 0
  }

  function BumpsIn(steps: seq<Step>, jid: Jid): nat {
    if steps == [] then 0 else BumpsIn(steps[..|steps| - 1], jid) + BumpsOf(steps[|steps| - 1], jid)
  }

  lemma {:induction false} EnqueueAllBumps(t: Tracked, jids: seq<Jid>, p: Priority, force: bool, jid: Jid)
    requires |t.queue.queues| == 3
    ensures Count(TrackEnqueueAll(t, jids, p, force).bumps, jid)
         == Count(t.bumps, jid) + if force && jid != "" then multiset(jids)[jid] else 0
  {
    if jids != [] {
      EnqueueAllBumps(t, jids[..|jids| - 1], p, force, jid);
      assert jids == jids[..|jids| - 1] + [jids[|jids| - 1]];
    }
  }

  lemma {:induction false} BumpsAreCounted(steps: seq<Step>, jid: Jid)
    requires Run(steps).Reached?
    ensures Count(Run(steps).state.tracked.bumps, jid) == BumpsIn(steps, jid)
  {
    if steps != [] {
      var last := |steps| - 1;
      BumpsAreCounted(steps[..last], jid);
      var s := Run(steps[..last]).state;
      match steps[last]
      case ProducerEnqueue(_, jids, p, force) => EnqueueAllBumps(s.tracked, jids, p, force, jid);
      case WorkerSeed(jids) => EnqueueAllBumps(s.tracked, jids, LOW, false, jid);
      case _ =>
    }
  }

  lemma SameRemainder(a: nat, b: nat)
    requires a <= b
    ensures a % REVISIONS == b % REVISIONS <==> (b - a) % REVISIONS == 0
  {
    var k := b / REVISIONS - a / REVISIONS;
    assert b - a == k * REVISIONS + (b % REVISIONS - a % REVISIONS);
  }

  lemma {:induction false} BumpsSplit(steps: seq<Step>, n: nat, jid: Jid)
    requires n <= |steps|
    ensures BumpsIn(steps, jid) == BumpsIn(steps[..n], jid) + BumpsIn(steps[n..], jid)
    decreases |steps| - n
  {
    var last := |steps| - 1;
    if n == |steps| {
      assert steps[..n] == steps;
    } else {
      BumpsSplit(steps[..last], n, jid);
      assert steps[..last][..n] == steps[..n] && steps[..last][n..] == steps[n..][..|steps[n..]| - 1];
    }
  }

  lemma {:induction false} RunOfPrefix(steps: seq<Step>, n: nat)
    requires Run(steps).Reached? && n <= |steps|
    ensures Run(steps[..n]).Reached?
    decreases |steps| - n
  {
    if n == |steps| {
      assert steps[..n] == steps;
    } else {
      RunOfPrefix(steps[..|steps| - 1], n);
      assert steps[..|steps| - 1][..n] == steps[..n];
    }
  }

  // ---- taking a revision -------------------------------------------------------------------------

  /** Enqueueing the contact takes its revision anew: by force, or because nothing was queued for it. */
  predicate Takes(s: State, step: Step, jid: Jid) {
    match step
    case ProducerEnqueue(_, jids, _, force) => jid in jids && (force || jid !in s.tracked.queue.queued)
    case WorkerSeed(jids) => jid in jids && jid !in s.tracked.queue.queued
    case _ => false
  }

  /** The n-th step of the run takes the contact's revision. */
  ghost predicate TakesAt(steps: seq<Step>, n: nat, jid: Jid) {
    n < |steps| && Run(steps[..n]).Reached? && Takes(Run(steps[..n]).state, steps[n], jid)
  }

  lemma {:induction false} EnqueueAllStamps(t: Tracked, jids: seq<Jid>, p: Priority, force: bool, jid: Jid)
    requires |t.queue.queues| == 3 && jid != ""
    ensures var r := TrackEnqueueAll(t, jids, p, force);
            && (jid in r.queue.queued <==> jid in t.queue.queued || jid in jids)
            && Count(r.stamps, jid) == if jid in jids && (force || jid !in t.queue.queued) then Count(r.bumps, jid) else Count(t.stamps, jid)
  {
    if jids != [] {
      var front, last := jids[..|jids| - 1], jids[|jids| - 1];
      assert jids == front + [last];
      EnqueueAllStamps(t, front, p, force, jid);
      EnqueueStamps(TrackEnqueueAll(t, front, p, force), last, p, force, jid);
      if !force {
        EnqueueAllBumps(t, front, p, force, jid);
      }
    }
  }

  lemma EnqueueStamps(t: Tracked, other: Jid, p: Priority, force: bool, jid: Jid)
    requires |t.queue.queues| == 3 && jid != ""
    ensures var r := TrackEnqueue(t, other, p, force);
            && (jid in r.queue.queued <==> jid in t.queue.queued || jid == other)
            && Count(r.stamps, jid) == (if jid == other && (force || jid !in t.queue.queued) then Count(r.bumps, jid) else Count(t.stamps, jid))
            && (jid != other || !force ==> Count(r.bumps, jid) == Count(t.bumps, jid))
  {
    if other != "" {
      EnqueueUpdates(t.queue, other, p, force);
    }
  }

  lemma {:induction false} NobodyIsNotQueued(steps: seq<Step>)
    requires Run(steps).Reached?
    ensures "" !in Run(steps).state.tracked.queue.queued
  {
    if steps != [] {
      var last := |steps| - 1;
      NobodyIsNotQueued(steps[..last]);
      RunKeepsInvariant(steps[..last]);
      var s := Run(steps[..last]).state;
      match steps[last]
      case ProducerEnqueue(_, jids, p, force) => NobodyIsEnqueued(s.tracked.queue, jids, p, force);
      case WorkerSeed(jids) => NobodyIsEnqueued(s.tracked.queue, jids, LOW, false);
      case WorkerNext => ScanServesHighest(s.tracked.queue, URGENT);
      case _ =>
    }
  }

  lemma {:induction false} NobodyIsEnqueued(q: Queue, jids: seq<Jid>, p: Priority, force: bool)
    requires |q.queues| == 3 && "" !in q.queued
    ensures "" !in EnqueueAll(q, jids, p, force).0.queued
  {
    if jids != [] {
      var front := EnqueueAll(q, jids[..|jids| - 1], p, force).0;
      NobodyIsEnqueued(q, jids[..|jids| - 1], p, force);
      if jids[|jids| - 1] != "" {
        EnqueueUpdates(front, jids[|jids| - 1], p, force);
      }
    }
  }

  /** The step is the last of the run, before the given end, at which the contact's revision was taken. */
  ghost predicate TookLast(steps: seq<Step>, n: nat, end: nat, jid: Jid) {
    TakesAt(steps, n, jid) && n < end && forall k :: n < k < end ==> !TakesAt(steps, k, jid)
  }

  lemma TookLastGoesOn(steps: seq<Step>, n: nat, end: nat, jid: Jid)
    requires end < |steps| && TookLast(steps[..end], n, end, jid) && !TakesAt(steps, end, jid)
    ensures TookLast(steps, n, end + 1, jid)
  {
    TakesAtPrefix(steps, end, n, jid);
    forall k | n < k < end ensures !TakesAt(steps, k, jid) {
      assert steps[..end][..k] == steps[..k];
      assert !TakesAt(steps[..end], k, jid);
    }
  }

  /** The request queued took its revision at the last such step of the run, and its stamp counts the bumps up to there. */
  lemma {:induction false} QueuedTookAt(steps: seq<Step>, jid: Jid) returns (n: nat)
    requires Run(steps).Reached? && jid in Run(steps).state.tracked.queue.queued
    ensures TookLast(steps, n, |steps|, jid) && Count(Run(steps).state.tracked.stamps, jid) == BumpsIn(steps[..n + 1], jid)
  {
    var last := |steps| - 1;
    var s, step := Run(steps[..last]).state, steps[last];
    assert steps[..|steps|] == steps;
    NobodyIsNotQueued(steps);
    if Takes(s, step, jid) {
      n := last;
      BumpsAreCounted(steps, jid);
      TakenByStep(s, step, jid);
    } else {
      NotTakenByStep(s, step, jid, steps[..last]);
      n := QueuedTookAt(steps[..last], jid);
      TakesAtPrefix(steps, last, n, jid);
      TookLastGoesOn(steps, n, last, jid);
    }
  }

  lemma TakenByStep(s: State, step: Step, jid: Jid)
    requires Enabled(s, step) && Takes(s, step, jid) && jid != ""
    ensures Count(Apply(s, step).tracked.stamps, jid) == Count(Apply(s, step).tracked.bumps, jid)
  {
    match step
    case ProducerEnqueue(_, jids, p, force) => EnqueueAllStamps(s.tracked, jids, p, force, jid);
    case WorkerSeed(jids) => EnqueueAllStamps(s.tracked, jids, LOW, false, jid);
  }

  lemma NotTakenByStep(s: State, step: Step, jid: Jid, steps: seq<Step>)
    requires Run(steps) == Reached(s) && Enabled(s, step) && !Takes(s, step, jid) && jid != ""
    requires jid in Apply(s, step).tracked.queue.queued
    ensures jid in s.tracked.queue.queued
    ensures Count(Apply(s, step).tracked.stamps, jid) == Count(s.tracked.stamps, jid)
  {
    match step
    case ProducerEnqueue(_, jids, p, force) => EnqueueAllStamps(s.tracked, jids, p, force, jid);
    case WorkerSeed(jids) => EnqueueAllStamps(s.tracked, jids, LOW, false, jid);
    case WorkerNext =>
      RunKeepsInvariant(steps);
      ScanServesHighest(s.tracked.queue, URGENT);
    case _ =>
  }

  lemma JobComesFromQueue(s: State)
    requires Listed(s.tracked.queue) && Enabled(s, WorkerNext) && Apply(s, WorkerNext).worker.Working?
    ensures var Working(job, stamp) := Apply(s, WorkerNext).worker;
            job.jid in s.tracked.queue.queued && stamp == Count(s.tracked.stamps, job.jid)
  {
    ScanServesHighest(s.tracked.queue, URGENT);
  }

  lemma StillWorking(s: State, step: Step)
    requires Enabled(s, step) && !step.WorkerNext? && Apply(s, step).worker.Working?
    ensures s.worker == Apply(s, step).worker
  {
  }

  /** The step is the last at which the worker looked for a job. */
  ghost predicate ServedLast(steps: seq<Step>, served: nat) {
    served < |steps| && steps[served].WorkerNext? && forall k :: served < k < |steps| ==> !steps[k].WorkerNext?
  }

  lemma TookLastOfPrefix(steps: seq<Step>, end: nat, n: nat, before: nat, jid: Jid)
    requires before <= end <= |steps| && TookLast(steps[..end], n, before, jid)
    ensures TookLast(steps, n, before, jid)
  {
    TakesAtPrefix(steps, end, n, jid);
    forall k | n < k < before ensures !TakesAt(steps, k, jid) {
      assert steps[..end][..k] == steps[..k];
      assert !TakesAt(steps[..end], k, jid);
    }
  }

  /** The job being worked on was served at the last look for one, and took its revision last before that. */
  lemma {:induction false} JobTookAt(steps: seq<Step>) returns (n: nat, served: nat)
    requires Run(steps).Reached? && Run(steps).state.worker.Working?
    ensures ServedLast(steps, served)
    ensures var Working(job, stamp) := Run(steps).state.worker;
            TookLast(steps, n, served, job.jid) && stamp == BumpsIn(steps[..n + 1], job.jid)
  {
    var last := |steps| - 1;
    if steps[last].WorkerNext? {
      RunKeepsInvariant(steps[..last]);
      JobComesFromQueue(Run(steps[..last]).state);
      n := QueuedTookAt(steps[..last], Run(steps).state.worker.job.jid);
      served := last;
    } else {
      StillWorking(Run(steps[..last]).state, steps[last]);
      n, served := JobTookAt(steps[..last]);
    }
    TookLastOfPrefix(steps, last, n, served, Run(steps).state.worker.job.jid);
    TakesAtPrefix(steps, last, n, Run(steps).state.worker.job.jid);
  }

  lemma TakesAtPrefix(steps: seq<Step>, k: nat, n: nat, jid: Jid)
    requires k <= |steps| && TakesAt(steps[..k], n, jid)
    ensures TakesAt(steps, n, jid) && steps[..k][..n + 1] == steps[..n + 1]
  {
    assert steps[..k][..n] == steps[..n];
  }

  lemma SameRevision(steps: seq<Step>, n: nat, jid: Jid)
    requires Run(steps).Reached? && n < |steps|
    ensures RevisionOf(Run(steps).state.tracked.queue, jid) == Wrapped(BumpsIn(steps[..n + 1], jid))
       <==> BumpsIn(steps[n + 1..], jid) % REVISIONS == 0
  {
    RunKeepsInvariant(steps);
    BumpsAreCounted(steps, jid);
    BumpsSplit(steps, n + 1, jid);
    SameRemainder(BumpsIn(steps[..n + 1], jid), BumpsIn(steps, jid));
  }

  lemma JobIsStamped(steps: seq<Step>)
    requires Run(steps).Reached? && Run(steps).state.worker.Working?
    ensures var Working(job, stamp) := Run(steps).state.worker; job.item.revision == Wrapped(stamp)
  {
    RunKeepsInvariant(steps);
  }

  // ---- main results ------------------------------------------------------------------------------

  /**
   A finished job passes the revision check exactly when the removals and forced requests for its contact
   number a multiple of 2^64 after the last step, before it was served, that took its revision: in practice,
   when there were none.
   */
  lemma FreshResultsOnly(steps: seq<Step>) returns (n: nat, served: nat)
    requires Run(steps).Reached? && Run(steps).state.worker.Working?
    ensures ServedLast(steps, served) && TookLast(steps, n, served, Run(steps).state.worker.job.jid)
    ensures var job := Run(steps).state.worker.job;
            var since := BumpsIn(steps[n + 1..], job.jid);
            var passes := RevisionOf(Run(steps).state.tracked.queue, job.jid) == job.item.revision;
            && (passes <==> since % REVISIONS == 0)
            && (since < REVISIONS ==> (passes <==> since == 0))
  {
    n, served := JobTookAt(steps);
    JobIsStamped(steps);
    SameRevision(steps, n, Run(steps).state.worker.job.jid);
  }

  /** Likewise a queued request: what it joined after taking its revision makes no difference to it. */
  lemma QueuedIsCurrentExactly(steps: seq<Step>, jid: Jid) returns (n: nat)
    requires Run(steps).Reached? && jid in Run(steps).state.tracked.queue.queued
    ensures TookLast(steps, n, |steps|, jid)
    ensures var q := Run(steps).state.tracked.queue;
            var since := BumpsIn(steps[n + 1..], jid);
            var current := q.queued[jid].revision == RevisionOf(q, jid);
            && (current <==> since % REVISIONS == 0)
            && (since < REVISIONS ==> (current <==> since == 0))
  {
    n := QueuedTookAt(steps, jid);
    RunKeepsInvariant(steps);
    SameRevision(steps, n, jid);
    assert StampFits(Run(steps).state.tracked, jid, Run(steps).state.tracked.queue.queued[jid].revision, Count(Run(steps).state.tracked.stamps, jid));
  }

  /**
   A request leaves its contact's entry current exactly when it was forced, found nothing queued, or joined
   an entry that was current: a plain one that joins an entry queued before a removal stays stale, whatever
   its priority.
   */
  lemma RequestIsCurrentExactly(q: Queue, jid: Jid, p: Priority, force: bool)
    requires |q.queues| == 3 && jid != ""
    ensures var after := Enqueue(q, jid, p, force).0;
            && jid in after.queued
            && (after.queued[jid].revision == RevisionOf(after, jid)
                <==> force || jid !in q.queued || q.queued[jid].revision == RevisionOf(q, jid))
  {
    EnqueueUpdates(q, jid, p, force);
  }

  /** Asked for, removed, and asked for again before the worker comes to it: the second request is taken for stale. */
  lemma JoinedRequestIsStale(jid: Jid, p: Priority)
    requires jid != ""
    ensures var steps := [ProducerEnqueue(0, [jid], LOW, false), Remove(jid), ProducerEnqueue(1, [jid], p, false)];
            && Run(steps).Reached?
            && var q := Run(steps).state.tracked.queue;
               jid in q.queued && q.queued[jid].revision != RevisionOf(q, jid)
  {
    var first, second, third := ProducerEnqueue(0, [jid], LOW, false), Remove(jid), ProducerEnqueue(1, [jid], p, false);
    assert [jid][..0] == [];
    OneMore([], first);
    assert [] + [first] == [first];
    OneMore([first], second);
    assert [first] + [second] == [first, second];
    OneMore([first, second], third);
    assert [first, second] + [third] == [first, second, third];
  }
}
