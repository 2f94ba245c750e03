/**
 The queue of avatars to fetch: a map from contact to its one coalesced request, and three lists, one
 a priority, from which entries are never removed when the request moves on. A list may therefore name
 a contact twice, or name one that is no longer queued there; what is promised is about the map.
 */
module AvatarQueue {

  type Jid = string

  const LOW: Priority := 0
  const HIGH: Priority := 1
  const URGENT: Priority := 2

  type Priority = p: nat | p < 3

  /** Revision counters are unsigned 64-bit and wrap. */
  const REVISIONS: nat := 0x1_0000_0000_0000_0000

  type Revision = r: nat | r < REVISIONS

  datatype Item = Item(priority: Priority, force: bool, revision: Revision)

  datatype Job = Job(jid: Jid, item: Item)

  datatype NextJobResult = NoJob | Next(job: Job)

  datatype Queue = Queue(queued: map<Jid, Item>, queues: seq<seq<Jid>>, revisions: map<Jid, Revision>)

  function Increment(r: Revision): Revision {
    if r + 1 == REVISIONS then 0 else r + 1
  }

  function RevisionOf(q: Queue, jid: Jid): Revision {
    if jid in q.revisions then q.revisions[jid] else 0
  }

  function Bump(q: Queue, jid: Jid): Queue {
    q.(revisions := q.revisions[jid := Increment(RevisionOf(q, jid))])
  }

  /** Every queued contact is named in the list of its priority. */
  ghost predicate Listed(q: Queue) {
    |q.queues| == 3 && forall jid :: jid in q.queued ==> jid in q.queues[q.queued[jid].priority]
  }

  // ---- the request map the queue stands for ----------------------------------------------------

  datatype Request = Request(priority: Priority, force: bool)

  function Requests(q: Queue): map<Jid, Request> {
    map jid | jid in q.queued :: Request(q.queued[jid].priority, q.queued[jid].force)
  }

  /** Requests for one contact coalesce: the higher priority wins, and one forced request forces all. */
  function Coalesced(requests: map<Jid, Request>, jid: Jid, r: Request): map<Jid, Request> {
    if jid == "" then requests
    else if jid !in requests then requests[jid := r]
    else
      var known := requests[jid];
      requests[jid := Request(if r.priority > known.priority then r.priority else known.priority,
                              known.force || r.force)]
  }

  // ---- operations ------------------------------------------------------------------------------

  function Listing(q: Queue, p: Priority, jid: Jid): Queue
    requires |q.queues| == 3
  {
    q.(queues := q.queues[p := q.queues[p] + [jid]])
  }

  /** The second component says whether the worker must be told. */
  function Enqueue(q: Queue, jid: Jid, p: Priority, force: bool): (r: (Queue, bool))
    requires |q.queues| == 3
    ensures |r.0.queues| == 3
  {
    if jid == "" then (q, false)
    else
      var q := if force then Bump(q, jid) else q;
      var revision := RevisionOf(q, jid);
      if jid !in q.queued then
        (Listing(q.(queued := q.queued[jid := Item(p, force, revision)]), p, jid), true)
      else
        var item := q.queued[jid];
        var raised := p > item.priority;
        var forced := force && !item.force;
        var revised := force && item.revision != revision;
        var item' := Item(if raised then p else item.priority, item.force || force,
                          if force then revision else item.revision);
        var q' := q.(queued := q.queued[jid := item']);
        (if raised then Listing(q', p, jid) else q', raised || forced || revised)
  }

  function EnqueueAll(q: Queue, jids: seq<Jid>, p: Priority, force: bool): (r: (Queue, bool))
    requires |q.queues| == 3
    ensures |r.0.queues| == 3
  {
    if jids == [] then (q, false)
    else
      var front := EnqueueAll(q, jids[..|jids| - 1], p, force);
      var last := Enqueue(front.0, jids[|jids| - 1], p, force);
      (last.0, front.1 || last.1)
  }

  /** Scans the lists from the given priority down, dropping entries whose request has moved on. */
  function Scan(q: Queue, p: Priority): (r: (Queue, NextJobResult))
    requires |q.queues| == 3
    ensures |r.0.queues| == 3
    decreases p, |q.queues[p]|
  {
    if q.queues[p] == [] then
      if p == 0 then (q, NoJob) else Scan(q, p - 1)
    else
      var jid := q.queues[p][0];
      var q' := q.(queues := q.queues[p := q.queues[p][1..]]);
      if jid !in q.queued || q.queued[jid].priority != p then Scan(q', p)
      else (q'.(queued := q.queued - {jid}), Next(Job(jid, q.queued[jid])))
  }

  function NextJob(q: Queue): (Queue, NextJobResult)
    requires |q.queues| == 3
  {
    Scan(q, URGENT)
  }

  // ---- the queue refines the request map -------------------------------------------------------

  /** Enqueueing touches the map at one contact only. */
  lemma EnqueueUpdates(q: Queue, jid: Jid, p: Priority, force: bool)
    requires |q.queues| == 3 && jid != ""
    ensures var (q', changed) := Enqueue(q, jid, p, force);
            && jid in q'.queued && q'.queued == q.queued[jid := q'.queued[jid]]
            && (!changed ==> jid in q.queued && q'.queued == q.queued)
  {
  }

  lemma EnqueueCoalesces(q: Queue, jid: Jid, p: Priority, force: bool)
    requires |q.queues| == 3
    ensures Requests(Enqueue(q, jid, p, force).0) == Coalesced(Requests(q), jid, Request(p, force))
  {
    if jid != "" {
      EnqueueUpdates(q, jid, p, force);
      var q' := Enqueue(q, jid, p, force).0;
      var item := q'.queued[jid];
      assert Requests(q') == Requests(q)[jid := Request(item.priority, item.force)];
    }
  }

  lemma EnqueueRefines(q: Queue, jid: Jid, p: Priority, force: bool)
    requires Listed(q)
    ensures var (q', changed) := Enqueue(q, jid, p, force);
            && Listed(q')
            && Requests(q') == Coalesced(Requests(q), jid, Request(p, force))
            && (changed <==> q'.queued != q.queued)
  {
    EnqueueCoalesces(q, jid, p, force);
    if jid != "" {
      EnqueueUpdates(q, jid, p, force);
    }
  }

  function CoalescedAll(requests: map<Jid, Request>, jids: seq<Jid>, r: Request): map<Jid, Request> {
    if jids == [] then requests
    else Coalesced(CoalescedAll(requests, jids[..|jids| - 1], r), jids[|jids| - 1], r)
  }

  lemma {:induction false} EnqueueAllRefines(q: Queue, jids: seq<Jid>, p: Priority, force: bool)
    requires Listed(q)
    ensures var (q', changed) := EnqueueAll(q, jids, p, force);
            && Listed(q')
            && Requests(q') == CoalescedAll(Requests(q), jids, Request(p, force))
            && (!changed ==> q'.queued == q.queued)
  {
    if jids != [] {
      var last := |jids| - 1;
      EnqueueAllRefines(q, jids[..last], p, force);
      EnqueueRefines(EnqueueAll(q, jids[..last], p, force).0, jids[last], p, force);
    }
  }

  /** The lists above p hold nothing that is still queued there. */
  ghost predicate Exhausted(q: Queue, p: Priority)
    requires |q.queues| == 3
  {
    forall jid :: jid in q.queued ==> q.queued[jid].priority <= p
  }

  lemma {:induction false} ScanServesHighest(q: Queue, p: Priority)
    requires Listed(q) && Exhausted(q, p)
    ensures var (q', result) := Scan(q, p);
            && Listed(q')
            && q'.revisions == q.revisions
            && (result.NoJob? <==> q.queued == map[])
            && (result.NoJob? ==> q'.queued == q.queued)
            && (result.Next? ==>
                  && result.job.jid in q.queued
                  && result.job.item == q.queued[result.job.jid]
                  && q'.queued == q.queued - {result.job.jid}
                  && forall jid :: jid in q.queued ==> q.queued[jid].priority <= result.job.item.priority)
    decreases p, |q.queues[p]|
  {
    if q.queues[p] == [] {
      forall jid | jid in q.queued ensures q.queued[jid].priority != p {
        assert jid in q.queues[q.queued[jid].priority];
      }
      if p == 0 {
        assert q.queued.Keys == {};
      } else {
        ScanServesHighest(q, p - 1);
      }
    } else {
      var jid := q.queues[p][0];
      var q' := q.(queues := q.queues[p := q.queues[p][1..]]);
      assert q.queues[p] == [jid] + q.queues[p][1..];
      if jid !in q.queued || q.queued[jid].priority != p {
        ScanServesHighest(q', p);
      }
    }
  }

  /**
   Main result for the queue: a job is served exactly when one is queued, it is one of the highest
   priority with the coalesced flags, and serving it removes that one request and nothing else.
   */
  lemma NextJobRefines(q: Queue)
    requires Listed(q)
    ensures var (q', result) := NextJob(q);
            && Listed(q')
            && (result.NoJob? <==> Requests(q) == map[])
            && (result.NoJob? ==> Requests(q') == Requests(q))
            && (result.Next? ==>
                  var Job(jid, item) := result.job;
                  && jid in Requests(q)
                  && Requests(q)[jid] == Request(item.priority, item.force)
                  && Requests(q') == Requests(q) - {jid}
                  && forall other :: other in Requests(q) ==> Requests(q)[other].priority <= item.priority)
  {
    ScanServesHighest(q, URGENT);
    assert Requests(q).Keys == q.queued.Keys;
  }

  // ---- the class -------------------------------------------------------------------------------

  class Syncer {
    var queued: map<Jid, Item>
    var queues: seq<seq<Jid>>
    var revisions: map<Jid, Revision>
    /** The wake channel holds at most one token. */
    var wake: bool

    function State(): Queue
      reads this
    {
      Queue(queued, queues, revisions)
    }

    ghost predicate Valid()
      reads this
    {
      Listed(State())
    }

    constructor ()
      ensures Valid() && State() == Queue(map[], [[], [], []], map[]) && !wake
    {
      queued, queues, revisions, wake := map[], [[], [], []], map[], false;
    }

    method BumpRevision(jid: Jid) returns (revision: Revision)
      modifies this`revisions
      ensures State() == Bump(old(State()), jid) && revision == RevisionOf(State(), jid)
    {
      revision := Increment(if jid in revisions then revisions[jid] else 0);
      revisions := revisions[jid := revision];
    }

    method EnqueueLocked(jid: Jid, p: Priority, force: bool) returns (changed: bool)
      requires Valid()
      modifies this`queued, this`queues, this`revisions
      ensures Valid() && (State(), changed) == Enqueue(old(State()), jid, p, force)
    {
      EnqueueRefines(State(), jid, p, force);
      if jid == "" {
        return false;
      }
      var revision := if jid in revisions then revisions[jid] else 0;
      if force {
        revision := BumpRevision(jid);
      }
      if jid in queued {
        var item := queued[jid];
        changed := false;
        if p > item.priority {
          item := item.(priority := p);
          queues := queues[p := queues[p] + [jid]];
          changed := true;
        }
        if force {
          if !item.force {
            item := item.(force := true);
            changed := true;
          }
          if item.revision != revision {
            item := item.(revision := revision);
            changed := true;
          }
        }
        queued := queued[jid := item];
        return;
      }
      queued := queued[jid := Item(p, force, revision)];
      queues := queues[p := queues[p] + [jid]];
      changed := true;
    }

    /** The worker is signalled after the lock is released, and only if something changed. */
    method EnqueueBatch(jids: seq<Jid>, p: Priority, force: bool)
      requires Valid()
      modifies this
      ensures Valid()
      ensures State() == EnqueueAll(old(State()), jids, p, force).0
      ensures wake == (old(wake) || EnqueueAll(old(State()), jids, p, force).1)
    {
      var changed := false;
      for k := 0 to |jids|
        invariant Valid() && wake == old(wake)
        invariant (State(), changed) == EnqueueAll(old(State()), jids[..k], p, force)
      {
        assert jids[..k + 1][..k] == jids[..k];
        var one := EnqueueLocked(jids[k], p, force);
        if one {
          changed := true;
        }
      }
      assert jids[..|jids|] == jids;
      if changed {
        wake := true;
      }
    }

    method TakeNextJob() returns (result: NextJobResult)
      requires Valid()
      modifies this`queued, this`queues
      ensures Valid() && (State(), result) == NextJob(old(State()))
      ensures wake == old(wake)
    {
      ScanServesHighest(State(), URGENT);
      var p: int := URGENT;
      while p >= 0
        invariant -1 <= p <= URGENT && |queues| == 3 && wake == old(wake) && queued == old(queued)
        invariant p >= 0 ==> Scan(State(), p) == NextJob(old(State()))
        invariant p < 0 ==> (State(), NoJob) == NextJob(old(State()))
      {
        while |queues[p]| > 0
          invariant |queues| == 3 && wake == old(wake) && queued == old(queued)
          invariant Scan(State(), p) == NextJob(old(State()))
          decreases |queues[p]|
        {
          var jid := queues[p][0];
          queues := queues[p := queues[p][1..]];
          if jid in queued && queued[jid].priority == p {
            var item := queued[jid];
            queued := queued - {jid};
            return Next(Job(jid, item));
          }
        }
        p := p - 1;
      }
      return NoJob;
    }

    method IsCurrentRevision(jid: Jid, revision: Revision) returns (current: bool)
      ensures current <==> RevisionOf(State(), jid) == revision
    {
      current := (if jid in revisions then revisions[jid] else 0) == revision;
    }
  }
}
