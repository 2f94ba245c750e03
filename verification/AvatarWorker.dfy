/**
 The avatar worker and the threads that feed it, interleaved at every point where the lock is free:
 a producer unlocks before it signals, the worker looks at the queue before it blocks, and the wake
 channel holds one token at most.
 */
module AvatarWorker {
  import opened AvatarQueue
  import opened Runs

  datatype Worker = Running | Seeding(signals: bool) | Working(job: Job, stamp: nat) | Blocked

  type ProducerId = nat

  /**
   Besides the shared state, three things are remembered for the proofs: how often each contact's
   revision was bumped, and how often it had been when the queued request, or the job, took it.
   */
  datatype Tracked = Tracked(queue: Queue, bumps: map<Jid, nat>, stamps: map<Jid, nat>)

  datatype State = State(tracked: Tracked, wake: bool, signalling: set<ProducerId>, worker: Worker)

  datatype Step =
    | ProducerEnqueue(id: ProducerId, jids: seq<Jid>, p: Priority, force: bool)
    | ProducerSignal(id: ProducerId)
    | Remove(jid: Jid)
    | WorkerSeed(jids: seq<Jid>)
    | WorkerSeeded
    | WorkerNext
    | WorkerWake
    | WorkerFinish

  const INITIAL := State(Tracked(Queue(map[], [[], [], []], map[]), map[], map[]), false, {}, Running)

  function Count(bumps: map<Jid, nat>, jid: Jid): nat {
    if jid in bumps then bumps[jid] else 0
  }

  function TrackBump(t: Tracked, jid: Jid): Tracked {
    t.(queue := Bump(t.queue, jid), bumps := t.bumps[jid := Count(t.bumps, jid) + 1])
  }

  function TrackEnqueue(t: Tracked, jid: Jid, p: Priority, force: bool): (r: Tracked)
    requires |t.queue.queues| == 3
    ensures |r.queue.queues| == 3
  {
    if jid == "" then t
    else
      var bumps := if force then t.bumps[jid := Count(t.bumps, jid) + 1] else t.bumps;
      var stamps := if force || jid !in t.queue.queued then t.stamps[jid := Count(bumps, jid)] else t.stamps;
      Tracked(Enqueue(t.queue, jid, p, force).0, bumps, stamps)
  }

  function TrackEnqueueAll(t: Tracked, jids: seq<Jid>, p: Priority, force: bool): (r: Tracked)
    requires |t.queue.queues| == 3
    ensures |r.queue.queues| == 3
    ensures r.queue == EnqueueAll(t.queue, jids, p, force).0
  {
    if jids == [] then t
    else TrackEnqueue(TrackEnqueueAll(t, jids[..|jids| - 1], p, force), jids[|jids| - 1], p, force)
  }

  predicate Enabled(s: State, step: Step) {
    && |s.tracked.queue.queues| == 3
    && match step
       case ProducerEnqueue(id, _, _, _) => id !in s.signalling
       case ProducerSignal(id) => id in s.signalling
       case Remove(_) => true
       case WorkerSeed(_) => s.worker.Running? || s.worker.Blocked?
       case WorkerSeeded => s.worker.Seeding?
       case WorkerNext => s.worker.Running?
       case WorkerWake => s.worker.Blocked? && s.wake
       case WorkerFinish => s.worker.Working?
  }

  function Apply(s: State, step: Step): State
    requires Enabled(s, step)
  {
    match step
    case ProducerEnqueue(id, jids, p, force) =>
      var changed := EnqueueAll(s.tracked.queue, jids, p, force).1;
      s.(tracked := TrackEnqueueAll(s.tracked, jids, p, force),
         signalling := if changed then s.signalling + {id} else s.signalling)
    case ProducerSignal(id) => s.(wake := true, signalling := s.signalling - {id})
    case Remove(jid) => s.(tracked := TrackBump(s.tracked, jid))
    case WorkerSeed(jids) =>
      s.(tracked := TrackEnqueueAll(s.tracked, jids, LOW, false),
         worker := Seeding(EnqueueAll(s.tracked.queue, jids, LOW, false).1))
    case WorkerSeeded => s.(wake := s.wake || s.worker.signals, worker := Running)
    case WorkerNext =>
      var (queue, result) := NextJob(s.tracked.queue);
      var worker := match result
                    case NoJob => Blocked
                    case Next(job) => Working(job, Count(s.tracked.stamps, job.jid));
      s.(tracked := s.tracked.(queue := queue), worker := worker)
    case WorkerWake => s.(wake := false, worker := Running)
    case WorkerFinish => s.(worker := Running)
  }

  /** The state a run of steps leads to, and whether each step could be taken in its turn. */
  function Run(steps: seq<Step>): Outcome<State> {
    if steps == [] then Reached(INITIAL)
    else
      var last := |steps| - 1;
      match Run(steps[..last])
      case Stuck => Stuck
      case Reached(s) => if Enabled(s, steps[last]) then Reached(Apply(s, steps[last])) else Stuck
  }

  // ---- invariants ------------------------------------------------------------------------------

  /** A count as a revision counter shows it. */
  function Wrapped(n: nat): Revision {
    n % REVISIONS
  }

  ghost predicate Stamped(t: Tracked) {
    && (forall jid :: RevisionOf(t.queue, jid) == Wrapped(Count(t.bumps, jid)))
    && (forall jid :: jid in t.queue.queued ==> StampFits(t, jid, t.queue.queued[jid].revision, Count(t.stamps, jid)))
  }

  ghost predicate StampFits(t: Tracked, jid: Jid, revision: Revision, stamp: nat) {
    stamp <= Count(t.bumps, jid) && revision == Wrapped(stamp)
  }

  ghost predicate NoLostWakeup(s: State) {
    s.worker.Blocked? && s.tracked.queue.queued != map[] ==> s.wake || s.signalling != {}
  }

  ghost predicate Invariant(s: State) {
    && Listed(s.tracked.queue)
    && Stamped(s.tracked)
    && NoLostWakeup(s)
    && (s.worker.Working? ==> StampFits(s.tracked, s.worker.job.jid, s.worker.job.item.revision, s.worker.stamp))
  }

  lemma NextRevision(n: nat)
    ensures Wrapped(n + 1) == Increment(Wrapped(n))
  {
    var r := n % REVISIONS;
    assert n + 1 == REVISIONS * (n / REVISIONS) + (r + 1);
    if r + 1 == REVISIONS {
      assert n + 1 == REVISIONS * (n / REVISIONS + 1);
    }
  }

  lemma TrackBumpStaysStamped(t: Tracked, jid: Jid)
    requires Stamped(t)
    ensures Stamped(TrackBump(t, jid))
  {
    NextRevision(Count(t.bumps, jid));
    var r := TrackBump(t, jid);
    forall other ensures RevisionOf(r.queue, other) == Wrapped(Count(r.bumps, other)) {
      assert RevisionOf(t.queue, other) == Wrapped(Count(t.bumps, other));
    }
    forall other | other in r.queue.queued
      ensures StampFits(r, other, r.queue.queued[other].revision, Count(r.stamps, other))
    {
      assert StampFits(t, other, t.queue.queued[other].revision, Count(t.stamps, other));
    }
  }

  lemma TrackEnqueueStaysStamped(t: Tracked, jid: Jid, p: Priority, force: bool)
    requires Listed(t.queue) && Stamped(t)
    ensures Stamped(TrackEnqueue(t, jid, p, force))
  {
    var r := TrackEnqueue(t, jid, p, force);
    if jid != "" {
      NextRevision(Count(t.bumps, jid));
      EnqueueUpdates(t.queue, jid, p, force);
      forall other ensures RevisionOf(r.queue, other) == Wrapped(Count(r.bumps, other)) {
        assert RevisionOf(t.queue, other) == Wrapped(Count(t.bumps, other));
      }
      forall other | other in r.queue.queued
        ensures StampFits(r, other, r.queue.queued[other].revision, Count(r.stamps, other))
      {
        if other in t.queue.queued {
          assert StampFits(t, other, t.queue.queued[other].revision, Count(t.stamps, other));
        }
      }
    }
  }

  lemma {:induction false} TrackEnqueueAllStaysStamped(t: Tracked, jids: seq<Jid>, p: Priority, force: bool)
    requires Listed(t.queue) && Stamped(t)
    ensures Listed(TrackEnqueueAll(t, jids, p, force).queue) && Stamped(TrackEnqueueAll(t, jids, p, force))
    ensures forall jid :: Count(t.bumps, jid) <= Count(TrackEnqueueAll(t, jids, p, force).bumps, jid)
  {
    EnqueueAllRefines(t.queue, jids, p, force);
    if jids != [] {
      TrackEnqueueAllStaysStamped(t, jids[..|jids| - 1], p, force);
      TrackEnqueueStaysStamped(TrackEnqueueAll(t, jids[..|jids| - 1], p, force), jids[|jids| - 1], p, force);
    }
  }

  lemma StepKeepsInvariant(s: State, step: Step)
    requires Invariant(s) && Enabled(s, step)
    ensures Invariant(Apply(s, step))
  {
    match step
    case ProducerEnqueue(id, jids, p, force) =>
      TrackEnqueueAllStaysStamped(s.tracked, jids, p, force);
      EnqueueAllRefines(s.tracked.queue, jids, p, force);
    case Remove(jid) =>
      TrackBumpStaysStamped(s.tracked, jid);
    case WorkerSeed(jids) =>
      TrackEnqueueAllStaysStamped(s.tracked, jids, LOW, false);
    case WorkerNext =>
      ScanServesHighest(s.tracked.queue, URGENT);
      var r := Apply(s, step).tracked;
      forall jid | jid in r.queue.queued
        ensures StampFits(r, jid, r.queue.queued[jid].revision, Count(r.stamps, jid))
      {
        assert StampFits(s.tracked, jid, s.tracked.queue.queued[jid].revision, Count(s.tracked.stamps, jid));
      }
    case _ =>
  }

  lemma {:induction false} RunKeepsInvariant(steps: seq<Step>)
    requires Run(steps).Reached?
    ensures Invariant(Run(steps).state)
  {
    if steps != [] {
      var last := |steps| - 1;
      RunKeepsInvariant(steps[..last]);
      StepKeepsInvariant(Run(steps[..last]).state, steps[last]);
    }
  }

  // ---- main results ----------------------------------------------------------------------------

  /** Whenever the worker sleeps over a queued job, a token or a producer about to leave one is there. */
  lemma WorkerIsNeverForgotten(steps: seq<Step>)
    requires Run(steps).Reached? && Run(steps).state.worker.Blocked?
    requires Requests(Run(steps).state.tracked.queue) != map[]
    ensures Run(steps).state.wake || Run(steps).state.signalling != {}
  {
    RunKeepsInvariant(steps);
    var q := Run(steps).state.tracked.queue;
    assert q.queued.Keys == Requests(q).Keys;
  }

  /** And then the worker can be woken and find a job, without any further request being made. */
  lemma WorkerCanProceed(steps: seq<Step>) returns (more: seq<Step>)
    requires Run(steps).Reached? && Run(steps).state.worker.Blocked?
    requires Requests(Run(steps).state.tracked.queue) != map[]
    ensures Run(steps + more).Reached? && Run(steps + more).state.worker.Working?
    ensures forall step :: step in more ==> step.ProducerSignal? || step.WorkerWake? || step.WorkerNext?
    ensures |more| <= 3
  {
    WorkerIsNeverForgotten(steps);
    RunKeepsInvariant(steps);
    var s := Run(steps).state;
    NextJobRefines(s.tracked.queue);
    more := [];
    var now := s;
    if !s.wake {
      var id :| id in s.signalling;
      OneMore(steps, ProducerSignal(id));
      more := [ProducerSignal(id)];
      now := Apply(s, ProducerSignal(id));
    } else {
      assert steps + more == steps;
    }
    OneMore(steps + more, WorkerWake);
    OneMore(steps + more + [WorkerWake], WorkerNext);
    assert steps + (more + [WorkerWake, WorkerNext]) == steps + more + [WorkerWake] + [WorkerNext];
    more := more + [WorkerWake, WorkerNext];
  }

  lemma OneMore(steps: seq<Step>, step: Step)
    requires Run(steps).Reached? && Enabled(Run(steps).state, step)
    ensures Run(steps + [step]) == Reached(Apply(Run(steps).state, step))
  {
    assert (steps + [step])[..|steps|] == steps;
  }
}
