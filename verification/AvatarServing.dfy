/**
 How often contacts are served and the worker is woken, over whole runs: each request that entered the queue is
 served once or still there, and no wake-up comes without a change to what is queued.
 */
module AvatarServing {
  import opened AvatarQueue
  import opened AvatarRevisions
  import opened AvatarWorker
  import opened Runs

  // ---- entering and being served -----------------------------------------------------------------

  /** The step queues the contact, which was not queued. */
  predicate Enters(s: State, step: Step, jid: Jid) {
    && jid !in s.tracked.queue.queued
    && match step
       case ProducerEnqueue(_, jids, _, _) => jid in jids
       case WorkerSeed(jids) => jid in jids
       case _ => false
  }

  /** The step gives the worker the contact to work on. */
  predicate Serves(s: State, step: Step, jid: Jid)
    requires Enabled(s, step)
  {
    step.WorkerNext? && Apply(s, step).worker.Working? && Apply(s, step).worker.job.jid == jid
  }

  ghost function EnteredIn(steps: seq<Step>, jid: Jid): nat {
    if steps == [] then 0
    else
      var last := |steps| - 1;
      EnteredIn(steps[..last], jid)
      + if Run(steps[..last]).Reached? && Enters(Run(steps[..last]).state, steps[last], jid) then 1 else 0
  }

  ghost function ServedIn(steps: seq<Step>, jid: Jid): nat {
    if steps == [] then 0
    else
      var last := |steps| - 1;
      ServedIn(steps[..last], jid)
      + if Run(steps[..last]).Reached? && Enabled(Run(steps[..last]).state, steps[last]) && Serves(Run(steps[..last]).state, steps[last], jid)
        then 1 else 0
  }

  function Queued(s: State, jid: Jid): nat {
    if jid in s.tracked.queue.queued then 1 else 0
  }

  lemma StepServes(s: State, step: Step, jid: Jid)
    requires Listed(s.tracked.queue) && Enabled(s, step) && jid != ""
    ensures Queued(Apply(s, step), jid) + (if Serves(s, step, jid) then 1 else 0)
         == Queued(s, jid) + (if Enters(s, step, jid) then 1 else 0)
  {
    match step
    case ProducerEnqueue(_, jids, p, force) => EnqueueAllStamps(s.tracked, jids, p, force, jid);
    case WorkerSeed(jids) => EnqueueAllStamps(s.tracked, jids, LOW, false, jid);
    case WorkerNext => ScanServesHighest(s.tracked.queue, URGENT);
    case _ =>
  }

  /** A contact is served as often as it entered the queue, but for the one time it may still be there. */
  lemma {:induction false} EachEntryIsServedOnce(steps: seq<Step>, jid: Jid)
    requires Run(steps).Reached? && jid != ""
    ensures ServedIn(steps, jid) + Queued(Run(steps).state, jid) == EnteredIn(steps, jid)
  {
    if steps != [] {
      var last := |steps| - 1;
      EachEntryIsServedOnce(steps[..last], jid);
      RunKeepsInvariant(steps[..last]);
      StepServes(Run(steps[..last]).state, steps[last], jid);
    }
  }

  // ---- wake-ups ----------------------------------------------------------------------------------

  /** The step changes what is queued, so that the worker must be told. */
  predicate Changes(s: State, step: Step)
    requires Enabled(s, step)
  {
    match step
    case ProducerEnqueue(_, jids, p, force) => EnqueueAll(s.tracked.queue, jids, p, force).1
    case WorkerSeed(jids) => EnqueueAll(s.tracked.queue, jids, LOW, false).1
    case _ => false
  }

  ghost function ChangesIn(steps: seq<Step>): nat {
    if steps == [] then 0
    else
      var last := |steps| - 1;
      ChangesIn(steps[..last])
      + if Run(steps[..last]).Reached? && Enabled(Run(steps[..last]).state, steps[last]) && Changes(Run(steps[..last]).state, steps[last])
        then 1 else 0
  }

  function WakesIn(steps: seq<Step>): nat {
    if steps == [] then 0 else WakesIn(steps[..|steps| - 1]) + if steps[|steps| - 1].WorkerWake? then 1 else 0
  }

  /** Wake-ups still to come: the token, and those who are about to leave one. */
  function WakesToCome(s: State): nat {
    (if s.wake then 1 else 0) + |s.signalling| + (if s.worker.Seeding? && s.worker.signals then 1 else 0)
  }

  lemma StepWakes(s: State, step: Step)
    requires Enabled(s, step)
    ensures WakesToCome(Apply(s, step)) + (if step.WorkerWake? then 1 else 0)
         <= WakesToCome(s) + (if Changes(s, step) then 1 else 0)
  {
    match step
    case ProducerEnqueue(id, _, _, _) => assert |s.signalling + {id}| == |s.signalling| + 1;
    case ProducerSignal(id) => assert |s.signalling - {id}| == |s.signalling| - 1;
    case _ =>
  }

  /** The worker is woken no more often than something changed in the queue. */
  lemma {:induction false} WakesAreEarned(steps: seq<Step>)
    requires Run(steps).Reached?
    ensures WakesIn(steps) + WakesToCome(Run(steps).state) <= ChangesIn(steps)
  {
    if steps != [] {
      var last := |steps| - 1;
      WakesAreEarned(steps[..last]);
      StepWakes(Run(steps[..last]).state, steps[last]);
    }
  }

  // ---- a contact from the start ------------------------------------------------------------------

  /** At the start the worker queues the contacts it has no picture of, and comes to them. */
  lemma SeedIsServed(jid: Jid)
    requires jid != ""
    ensures var steps := [WorkerSeed([jid]), WorkerSeeded, WorkerNext];
            && Run(steps).Reached? && Run(steps).state.worker.Working?
            && Run(steps).state.worker.job.jid == jid && jid !in Run(steps).state.tracked.queue.queued
  {
    var seed := WorkerSeed([jid]);
    assert [jid][..0] == [];
    OneMore([], seed);
    assert [] + [seed] == [seed];
    OneMore([seed], WorkerSeeded);
    assert [seed] + [WorkerSeeded] == [seed, WorkerSeeded];
    var s := Run([seed, WorkerSeeded]).state;
    EnqueueAllRefines(INITIAL.tracked.queue, [jid], LOW, false);
    EnqueueAllStamps(INITIAL.tracked, [jid], LOW, false, jid);
    assert jid in s.tracked.queue.queued;
    OnlySeed(s, jid);
    OneMore([seed, WorkerSeeded], WorkerNext);
    assert [seed, WorkerSeeded] + [WorkerNext] == [seed, WorkerSeeded, WorkerNext];
  }

  lemma OnlySeed(s: State, jid: Jid)
    requires s.tracked.queue.queued.Keys == {jid} && Listed(s.tracked.queue)
    ensures var (q, result) := NextJob(s.tracked.queue); result.Next? && result.job.jid == jid && jid !in q.queued
  {
    ScanServesHighest(s.tracked.queue, URGENT);
  }

  // ---- entries of the lists ----------------------------------------------------------------------

  /** A list gets an entry if and only if the contact was not queued, or waited at a lower priority. */
  lemma EntriesAreNeeded(q: Queue, jid: Jid, p: Priority, force: bool)
    requires |q.queues| == 3
    ensures Enqueue(q, jid, p, force).0.queues ==
            if jid != "" && (jid in q.queued ==> q.queued[jid].priority < p) then q.queues[p := q.queues[p] + [jid]] else q.queues
  {
  }
}
