/** In which order the avatar queue serves its requests, and when that is not the order they came in. */
module AvatarOrder {
  import opened AvatarQueue

  // ---- first places ------------------------------------------------------------------------------

  /** Where a value first stands in a list; past the end if it does not. */
  function First<T(==)>(s: seq<T>, x: T): (i: nat)
    ensures i <= |s| && (i < |s| ==> s[i] == x) && (i == |s| <==> x !in s)
    ensures forall k :: 0 <= k < i ==> s[k] != x
  {
    if s == [] then 0 else if s[0] == x then 0 else 1 + First(s[1..], x)
  }

  lemma FirstIs<T>(s: seq<T>, x: T, i: nat)
    requires i < |s| && s[i] == x && forall k :: 0 <= k < i ==> s[k] != x
    ensures First(s, x) == i
  {
  }

  /** Dropping entries that are not the one looked for brings it nearer by as many. */
  lemma {:induction false} FirstAfter<T>(s: seq<T>, n: nat, x: T)
    requires n <= |s| && forall k :: 0 <= k < n ==> s[k] != x
    ensures First(s, x) == n + First(s[n..], x)
  {
    var i := First(s[n..], x);
    if i < |s| - n {
      assert s[n + i] == s[n..][i];
      assert forall k :: n <= k < n + i ==> s[k] == s[n..][k - n];
      FirstIs(s, x, n + i);
    } else {
      assert forall k :: n <= k < |s| ==> s[k] == s[n..][k - n];
    }
  }

  // ---- one job -----------------------------------------------------------------------------------

  /** The entry stands for a request that waits at this priority. */
  predicate Live(q: Queue, p: Priority, jid: Jid) {
    jid in q.queued && q.queued[jid].priority == p
  }

  /** What serving a job does to the lists: its own loses everything up to the first live entry, lower ones nothing. */
  ghost predicate Serves(q: Queue, after: Queue, job: Job, k: nat)
    requires |q.queues| == 3 && |after.queues| == 3
  {
    var p := job.item.priority;
    && k < |q.queues[p]| && q.queues[p][k] == job.jid && Live(q, p, job.jid)
    && (forall i :: 0 <= i < k ==> !Live(q, p, q.queues[p][i]))
    && after.queues[p] == q.queues[p][k + 1..]
    && forall r: Priority :: r < p ==> after.queues[r] == q.queues[r]
  }

  lemma PastStaleEntry(q: Queue, q': Queue, after: Queue, job: Job, rest: nat, p: Priority) returns (k: nat)
    requires |q.queues| == 3 && |after.queues| == 3 && q.queues[p] != [] && !Live(q, p, q.queues[p][0])
    requires q' == q.(queues := q.queues[p := q.queues[p][1..]]) && Serves(q', after, job, rest) && job.item.priority <= p
    ensures Serves(q, after, job, k)
  {
    k := if job.item.priority == p then rest + 1 else rest;
    assert forall jid, r :: Live(q, r, jid) <==> Live(q', r, jid);
  }

  lemma {:induction false} ScanServesFirstLive(q: Queue, p: Priority) returns (k: nat)
    requires Listed(q) && Exhausted(q, p) && Scan(q, p).1.Next?
    ensures Serves(q, Scan(q, p).0, Scan(q, p).1.job, k) && Scan(q, p).1.job.item.priority <= p
    decreases p, |q.queues[p]|
  {
    if q.queues[p] == [] {
      forall jid | jid in q.queued ensures q.queued[jid].priority != p {
        assert jid in q.queues[q.queued[jid].priority];
      }
      k := ScanServesFirstLive(q, p - 1);
    } else {
      var jid := q.queues[p][0];
      var q' := q.(queues := q.queues[p := q.queues[p][1..]]);
      assert q.queues[p] == [jid] + q'.queues[p];
      if Live(q, p, jid) {
        k := 0;
      } else {
        var rest := ScanServesFirstLive(q', p);
        k := PastStaleEntry(q, q', Scan(q', p).0, Scan(q', p).1.job, rest, p);
      }
    }
  }

  /** The job served is the first live entry of the highest priority at which anything waits. */
  lemma NextJobServesFirstLive(q: Queue) returns (k: nat)
    requires Listed(q) && NextJob(q).1.Next?
    ensures Serves(q, NextJob(q).0, NextJob(q).1.job, k)
    ensures forall jid :: jid in q.queued ==> q.queued[jid].priority <= NextJob(q).1.job.item.priority
  {
    ScanServesHighest(q, URGENT);
    k := ScanServesFirstLive(q, URGENT);
  }

  // ---- all jobs ----------------------------------------------------------------------------------

  /** The contacts in the order they are served in, if nothing new is requested meanwhile. */
  function Drain(q: Queue): seq<Jid>
    requires Listed(q)
    decreases |q.queued|
  {
    ScanServesHighest(q, URGENT);
    var (after, result) := NextJob(q);
    if result.NoJob? then [] else [result.job.jid] + Drain(after)
  }

  lemma {:induction false} DrainServesEach(q: Queue, jid: Jid)
    requires Listed(q)
    ensures jid in Drain(q) <==> jid in q.queued
    decreases |q.queued|
  {
    ScanServesHighest(q, URGENT);
    if NextJob(q).1.Next? {
      DrainServesEach(NextJob(q).0, jid);
    }
  }

  /** Serving another contact moves every first entry at a priority forward by the same number. */
  lemma OrderIsKept(q: Queue, after: Queue, job: Job, k: nat, p: Priority, a: Jid)
    requires |q.queues| == 3 && |after.queues| == 3 && Serves(q, after, job, k)
    requires Live(q, p, a) && a != job.jid && job.item.priority >= p
    ensures First(q.queues[p], a) == First(after.queues[p], a) + if job.item.priority == p then k + 1 else 0
  {
    if job.item.priority == p {
      FirstAfter(q.queues[p], k + 1, a);
    }
  }

  /** Of two contacts waiting at one priority the one whose first entry stands before the other's is served first. */
  lemma {:induction false} DrainFollowsFirstEntries(q: Queue, p: Priority, a: Jid, b: Jid)
    requires Listed(q) && a != b && Live(q, p, a) && Live(q, p, b)
    ensures First(Drain(q), a) < First(Drain(q), b) <==> First(q.queues[p], a) < First(q.queues[p], b)
    decreases |q.queued|
  {
    ScanServesHighest(q, URGENT);
    var k := NextJobServesFirstLive(q);
    var (after, result) := NextJob(q);
    var job := result.job;
    assert Drain(q) == [job.jid] + Drain(after);
    if job.jid == a || job.jid == b {
      FirstIs(q.queues[p], job.jid, k);
      FirstServed(job.jid, Drain(after), if job.jid == a then b else a);
    } else {
      OrderIsKept(q, after, job, k, p, a);
      OrderIsKept(q, after, job, k, p, b);
      DrainFollowsFirstEntries(after, p, a, b);
      FirstServed(job.jid, Drain(after), a);
      FirstServed(job.jid, Drain(after), b);
    }
  }

  lemma FirstServed(jid: Jid, rest: seq<Jid>, other: Jid)
    requires jid != other
    ensures First([jid] + rest, jid) == 0 && First([jid] + rest, other) == 1 + First(rest, other)
  {
    assert ([jid] + rest)[1..] == rest;
  }

  // ---- overtaking --------------------------------------------------------------------------------

  /**
   A contact newly requested at a priority, or raised to it from a lower one, is served before one that already
   waits there if and only if an entry left over from an earlier request of it stands before the other's first.
   */
  lemma OvertakesExactlyByStaleEntry(q: Queue, a: Jid, b: Jid, p: Priority, force: bool)
    requires Listed(q) && a != "" && (a in q.queued ==> q.queued[a].priority < p) && Live(q, p, b)
    ensures var after := Enqueue(q, a, p, force).0;
            && Listed(after)
            && (First(Drain(after), a) < First(Drain(after), b) <==> First(q.queues[p], a) < First(q.queues[p], b))
  {
    var after := Enqueue(q, a, p, force).0;
    EnqueueRefines(q, a, p, force);
    assert after.queues[p] == q.queues[p] + [a];
    DrainFollowsFirstEntries(after, p, a, b);
    FirstOfExtended(q.queues[p], a, a);
    FirstOfExtended(q.queues[p], a, b);
  }

  lemma FirstOfExtended(s: seq<Jid>, last: Jid, x: Jid)
    requires x in s || x == last
    ensures First(s + [last], x) == First(s, x)
  {
    var i := First(s, x);
    assert forall k :: 0 <= k < |s| ==> (s + [last])[k] == s[k];
    FirstIs(s + [last], x, i);
  }

  /** It does happen, and after four requests already: a, asked for again with its old entry still there, passes b. */
  lemma NotFirstComeFirstServed(a: Jid, b: Jid)
    requires a != b && a != "" && b != ""
    ensures var q0 := Queue(map[], [[], [], []], map[]);
            var q1 := Enqueue(q0, a, LOW, false).0;
            var q2 := Enqueue(q1, a, HIGH, false).0;
            var q3 := NextJob(q2).0;
            var q4 := Enqueue(q3, b, LOW, false).0;
            var q5 := Enqueue(q4, a, LOW, false).0;
            NextJob(q5).1 == Next(Job(a, Item(LOW, false, 0)))
  {
    var q0 := Queue(map[], [[], [], []], map[]);
    var q1 := Enqueue(q0, a, LOW, false).0;
    assert q1.queues[0] == [a] && q1.queues[1] == [] && q1.queues[2] == [];
    var q2 := Enqueue(q1, a, HIGH, false).0;
    assert q2.queues[0] == [a] && q2.queues[1] == [a] && q2.queues[2] == [];
    assert Scan(q2, URGENT) == Scan(q2, HIGH);
    var q3 := NextJob(q2).0;
    assert q3.queues[0] == [a] && q3.queues[1] == [] && q3.queues[2] == [] && q3.queued == map[];
    var q4 := Enqueue(q3, b, LOW, false).0;
    assert q4.queues[0] == [a, b] && q4.queues[1] == [] && q4.queues[2] == [];
    var q5 := Enqueue(q4, a, LOW, false).0;
    assert q5.queues[0] == [a, b, a] && q5.queues[1] == [] && q5.queues[2] == [];
    assert Scan(q5, URGENT) == Scan(q5, HIGH);
    assert Scan(q5, HIGH) == Scan(q5, LOW);
  }
}
