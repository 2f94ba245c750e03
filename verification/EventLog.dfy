/** The daemon's event table: ids are handed out in order and never again, and rows leave it only as a prefix. */
module EventLog {

  datatype Event = Event(id: nat, kind: string, payload: string)

  const DEFAULT_LIMIT := 100
  const MAX_LIMIT := 500

  function Clamp(limit: int): (n: nat)
    ensures 0 < n <= MAX_LIMIT
  {
    if limit <= 0 then DEFAULT_LIMIT else if limit > MAX_LIMIT then MAX_LIMIT else limit
  }

  ghost predicate Ordered(events: seq<Event>) {
    forall i, j :: 0 <= i < j < |events| ==> events[i].id < events[j].id
  }

  function After(events: seq<Event>, id: nat): seq<Event> {
    if events == [] then []
    else if events[0].id > id then [events[0]] + After(events[1..], id)
    else After(events[1..], id)
  }

  function Take<T>(s: seq<T>, n: nat): seq<T> {
    if n <= |s| then s[..n] else s
  }

  function Listing(events: seq<Event>, id: nat, limit: int): seq<Event> {
    Take(After(events, id), Clamp(limit))
  }

  lemma {:induction false} AllAfter(events: seq<Event>, id: nat)
    requires forall i :: 0 <= i < |events| ==> events[i].id > id
    ensures After(events, id) == events
  {
    if events != [] {
      assert forall i :: 0 <= i < |events| - 1 ==> events[1..][i] == events[i + 1];
      AllAfter(events[1..], id);
    }
  }

  lemma {:induction false} AfterFrom(events: seq<Event>, id: nat, k: nat)
    requires k <= |events|
    requires forall i :: 0 <= i < k ==> events[i].id <= id
    requires forall i :: k <= i < |events| ==> events[i].id > id
    ensures After(events, id) == events[k..]
  {
    if k == 0 {
      AllAfter(events, id);
    } else {
      assert forall i :: 0 <= i < |events| - 1 ==> events[1..][i] == events[i + 1];
      AfterFrom(events[1..], id, k - 1);
    }
  }

  /** In an ordered table the rows after an id are a suffix: exactly those with a larger id. */
  lemma {:induction false} AfterIsSuffix(events: seq<Event>, id: nat) returns (k: nat)
    requires Ordered(events)
    ensures k <= |events| && After(events, id) == events[k..]
    ensures forall i :: 0 <= i < k ==> events[i].id <= id
    ensures forall i :: k <= i < |events| ==> events[i].id > id
  {
    if events == [] || events[0].id > id {
      k := 0;
      AllAfter(events, id);
    } else {
      k := AfterIsSuffix(events[1..], id);
      assert forall i :: 0 < i < |events| ==> events[i] == events[1..][i - 1];
      k := k + 1;
    }
  }

  lemma AfterStaysOrdered(events: seq<Event>, id: nat)
    requires Ordered(events)
    ensures Ordered(After(events, id)) && forall e :: e in After(events, id) ==> e in events
  {
    var k := AfterIsSuffix(events, id);
  }

  /**
   A listing holds the first rows with a larger id, oldest first: as many as asked for, a hundred if that is
   nothing, five hundred at most, or all there are.
   */
  lemma ListingIsFirstRows(events: seq<Event>, id: nat, limit: int) returns (k: nat, n: nat)
    requires Ordered(events)
    ensures k <= n <= |events| && Listing(events, id, limit) == events[k..n]
    ensures forall i :: 0 <= i < |events| ==> (i < k <==> events[i].id <= id)
    ensures var asked := if limit <= 0 then 100 else if limit < 500 then limit else 500;
            n - k <= asked && (n < |events| ==> n - k == asked)
  {
    k := AfterIsSuffix(events, id);
    n := k + |Listing(events, id, limit)|;
  }

  /** A listing passes over nothing between its first and its last event. */
  lemma ListingHolds(events: seq<Event>, id: nat, limit: int, e: Event)
    requires Ordered(events) && Listing(events, id, limit) != []
    requires e in events && id < e.id <= Listing(events, id, limit)[|Listing(events, id, limit)| - 1].id
    ensures e in Listing(events, id, limit)
  {
    var batch := Listing(events, id, limit);
    var k := AfterIsSuffix(events, id);
    var j :| 0 <= j < |events| && events[j] == e;
    assert batch[|batch| - 1] == events[k + |batch| - 1];
    assert batch[j - k] == events[j];
  }

  lemma ListingComesFrom(events: seq<Event>, id: nat, limit: int, e: Event)
    requires Ordered(events) && e in Listing(events, id, limit)
    ensures e in events && e.id > id
  {
    var k := AfterIsSuffix(events, id);
    var j :| 0 <= j < |Listing(events, id, limit)| && Listing(events, id, limit)[j] == e;
    assert events[k + j] == e;
  }

  class EventStore {
    var events: seq<Event>
    var lastId: nat

    ghost predicate Valid()
      reads this
    {
      Ordered(events) && forall e :: e in events ==> e.id <= lastId
    }

    constructor ()
      ensures Valid() && events == [] && lastId == 0
    {
      events, lastId := [], 0;
    }

    method Insert(kind: string, payload: string)
      requires Valid()
      modifies this
      ensures Valid() && lastId == old(lastId) + 1
      ensures events == old(events) + [Event(lastId, kind, payload)]
    {
      lastId := lastId + 1;
      events := events + [Event(lastId, kind, payload)];
    }

    /** Rows with a larger id, oldest first, up to the limit. */
    method List(afterId: nat, limit: int) returns (found: seq<Event>)
      requires Valid()
      ensures found == Listing(events, afterId, limit)
    {
      var n := Clamp(limit);
      found := [];
      var k := 0;
      while k < |events| && |found| < n
        invariant k <= |events| && |found| <= n
        invariant found == After(events[..k], afterId)
      {
        AfterOfAppend(events[..k], events[k], afterId);
        assert events[..k] + [events[k]] == events[..k + 1];
        if events[k].id > afterId {
          found := found + [events[k]];
        }
        k := k + 1;
      }
      AfterOfConcat(events[..k], events[k..], afterId);
      assert events[..k] + events[k..] == events;
    }

    method Delete(upToId: nat)
      requires Valid()
      modifies this
      ensures Valid() && lastId == old(lastId) && events == After(old(events), upToId)
    {
      AfterStaysOrdered(events, upToId);
      var kept := [];
      for i := 0 to |events|
        invariant events == old(events) && lastId == old(lastId)
        invariant kept == After(events[..i], upToId)
      {
        AfterOfAppend(events[..i], events[i], upToId);
        assert events[..i] + [events[i]] == events[..i + 1];
        if events[i].id > upToId {
          kept := kept + [events[i]];
        }
      }
      assert events[..|events|] == events;
      events := kept;
    }
  }

  lemma {:induction false} AfterOfConcat(a: seq<Event>, b: seq<Event>, id: nat)
    ensures After(a + b, id) == After(a, id) + After(b, id)
  {
    if a == [] {
      assert a + b == b;
    } else {
      assert (a + b)[1..] == a[1..] + b;
      AfterOfConcat(a[1..], b, id);
    }
  }

  lemma AfterOfAppend(a: seq<Event>, e: Event, id: nat)
    ensures After(a + [e], id) == After(a, id) + if e.id > id then [e] else []
  {
    AfterOfConcat(a, [e], id);
  }
}
