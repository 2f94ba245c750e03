/**
 The consumers of the event log: the app's loop, and the push helpers that run beside it. Each lists a
 batch, handles its events one by one, deletes the prefix it handled and stores how far it got; any of
 them may stop between two of these steps. A handler call is one step.
 */
module ChatSync {
  import opened EventLog
  import opened Runs

  const APP_BATCH := 500
  const PUSH_BATCH := 50

  datatype Consumer = App | Push(process: nat)

  /** Where a consumer stands. The batch kept while dispatching is what is still to be handled. */
  datatype Phase =
    | Idle
    | Ready(lastId: nat)
    | Dispatching(lastId: nat, rest: seq<Event>, maxId: nat, full: bool)
    | Deleted(maxId: nat, full: bool)

  /** `issued` and `handled` are histories: every event ever inserted, every handler call ever made. */
  datatype State = State(
    issued: seq<Event>,
    stored: seq<Event>,
    cursor: nat,
    handled: seq<Event>,
    phases: map<Consumer, Phase>)

  datatype Step =
    | Insert(kind: string, payload: string)
    | ReadCursor(who: Consumer)
    | List(who: Consumer)
    | Dispatch(who: Consumer)
    | Delete(who: Consumer)
    | Persist(who: Consumer)
    | Abort(who: Consumer)

  const INITIAL := State([], [], 0, [], map[])

  function PhaseOf(s: State, who: Consumer): Phase {
    if who in s.phases then s.phases[who] else Idle
  }

  function BatchLimit(who: Consumer): nat {
    if who.App? then APP_BATCH else PUSH_BATCH
  }

  predicate Enabled(s: State, step: Step) {
    match step
    case Insert(_, _) => true
    case ReadCursor(who) => PhaseOf(s, who).Idle?
    case List(who) => PhaseOf(s, who).Ready?
    case Dispatch(who) => PhaseOf(s, who).Dispatching? && PhaseOf(s, who).rest != []
    case Delete(who) => PhaseOf(s, who).Dispatching? && PhaseOf(s, who).rest == []
    case Persist(who) => PhaseOf(s, who).Deleted?
    case Abort(_) => true
  }

  function Apply(s: State, step: Step): State
    requires Enabled(s, step)
  {
    match step
    case Insert(kind, payload) =>
      var e := Event(|s.issued| + 1, kind, payload);
      s.(issued := s.issued + [e], stored := s.stored + [e])
    case ReadCursor(who) => s.(phases := s.phases[who := Ready(s.cursor)])
    case List(who) =>
      var lastId := PhaseOf(s, who).lastId;
      var batch := Listing(s.stored, lastId, BatchLimit(who));
      s.(phases := s.phases[who :=
        if batch == [] then Idle
        else Dispatching(lastId, batch, batch[|batch| - 1].id, |batch| >= BatchLimit(who))])
    case Dispatch(who) =>
      var phase := PhaseOf(s, who);
      s.(handled := s.handled + [phase.rest[0]], phases := s.phases[who := phase.(rest := phase.rest[1..])])
    case Delete(who) =>
      var phase := PhaseOf(s, who);
      s.(stored := After(s.stored, phase.maxId), phases := s.phases[who := Deleted(phase.maxId, phase.full)])
    case Persist(who) =>
      // Only the app's loop goes on after a full batch, from where it just got to.
      var phase := PhaseOf(s, who);
      s.(cursor := phase.maxId,
         phases := s.phases[who := if who.App? && phase.full then Ready(phase.maxId) else Idle])
    case Abort(who) => s.(phases := s.phases[who := Idle])
  }

  function Run(steps: seq<Step>): Outcome<State> {
    if steps == [] then Reached(INITIAL)
    else
      var last := |steps| - 1;
      match Run(steps[..last])
      case Stuck => Stuck
      case Reached(s) => if Enabled(s, steps[last]) then Reached(Apply(s, steps[last])) else Stuck
  }

  // ---- no event is lost --------------------------------------------------------------------------

  ghost predicate Numbered(issued: seq<Event>) {
    forall i :: 0 <= i < |issued| ==> issued[i].id == i + 1
  }

  /** Every event up to the n-th has been handled, or is still among the given ones. */
  ghost predicate HandledUpTo(s: State, n: nat, rest: seq<Event>) {
    n <= |s.issued| && forall i :: 0 <= i < n ==> s.issued[i] in s.handled || s.issued[i] in rest
  }

  ghost predicate PhaseSafe(s: State, phase: Phase) {
    match phase
    case Idle => true
    case Ready(lastId) => HandledUpTo(s, lastId, [])
    case Dispatching(_, rest, maxId, _) => HandledUpTo(s, maxId, rest)
    case Deleted(maxId, _) => HandledUpTo(s, maxId, [])
  }

  ghost predicate Safe(s: State) {
    && Numbered(s.issued)
    && Ordered(s.stored)
    && (forall e :: e in s.stored ==> e in s.issued)
    && HandledUpTo(s, |s.issued|, s.stored)
    && HandledUpTo(s, s.cursor, [])
    && (forall who :: PhaseSafe(s, PhaseOf(s, who)))
  }

  lemma HandledUpToGrows(s: State, t: State, n: nat, rest: seq<Event>)
    requires HandledUpTo(s, n, rest) && s.issued <= t.issued && s.handled <= t.handled
    ensures HandledUpTo(t, n, rest)
  {
    forall i | 0 <= i < n ensures t.issued[i] in t.handled || t.issued[i] in rest {
      assert s.issued[i] == t.issued[i];
    }
  }

  lemma PhaseStaysSafe(s: State, t: State, phase: Phase)
    requires PhaseSafe(s, phase) && s.issued <= t.issued && s.handled <= t.handled
    ensures PhaseSafe(t, phase)
  {
    match phase
    case Idle =>
    case Ready(lastId) => HandledUpToGrows(s, t, lastId, []);
    case Dispatching(_, rest, maxId, _) => HandledUpToGrows(s, t, maxId, rest);
    case Deleted(maxId, _) => HandledUpToGrows(s, t, maxId, []);
  }

  lemma PhasesStaySafe(s: State, t: State, who: Consumer)
    requires Safe(s) && s.issued <= t.issued && s.handled <= t.handled
    requires forall other :: other != who ==> PhaseOf(t, other) == PhaseOf(s, other)
    requires PhaseSafe(t, PhaseOf(t, who))
    ensures HandledUpTo(t, s.cursor, [])
    ensures forall other :: PhaseSafe(t, PhaseOf(t, other))
  {
    HandledUpToGrows(s, t, s.cursor, []);
    forall other ensures PhaseSafe(t, PhaseOf(t, other)) {
      if other != who {
        PhaseStaysSafe(s, t, PhaseOf(s, other));
      }
    }
  }

  lemma InsertIsSafe(s: State, kind: string, payload: string)
    requires Safe(s)
    ensures Safe(Apply(s, Insert(kind, payload)))
  {
    var t := Apply(s, Insert(kind, payload));
    HandledUpToGrows(s, t, |s.issued|, s.stored);
    assert PhaseSafe(s, PhaseOf(s, App));
    PhaseStaysSafe(s, t, PhaseOf(s, App));
    PhasesStaySafe(s, t, App);
    forall e | e in s.stored ensures e.id <= |s.issued| {
      var i :| 0 <= i < |s.issued| && s.issued[i] == e;
    }
    forall i | 0 <= i < |t.issued| ensures t.issued[i] in t.handled || t.issued[i] in t.stored {
      if i < |s.issued| {
        assert t.issued[i] == s.issued[i];
      }
    }
  }

  /** What a listing leaves out below its last id was deleted before, and so had been handled. */
  lemma ListIsSafe(s: State, who: Consumer)
    requires Safe(s) && PhaseOf(s, who).Ready?
    ensures PhaseSafe(Apply(s, List(who)), PhaseOf(Apply(s, List(who)), who))
  {
    var lastId := PhaseOf(s, who).lastId;
    var batch := Listing(s.stored, lastId, BatchLimit(who));
    if batch != [] {
      var last := batch[|batch| - 1];
      ListingComesFrom(s.stored, lastId, BatchLimit(who), last);
      assert last in s.issued;
      assert PhaseSafe(s, PhaseOf(s, who));
      forall i | 0 <= i < last.id ensures s.issued[i] in s.handled || s.issued[i] in batch {
        if i >= lastId && s.issued[i] in s.stored {
          ListingHolds(s.stored, lastId, BatchLimit(who), s.issued[i]);
        }
      }
    }
  }

  lemma DeleteIsSafe(s: State, who: Consumer)
    requires Safe(s) && Enabled(s, Delete(who))
    ensures var t := Apply(s, Delete(who));
            && Ordered(t.stored) && (forall e :: e in t.stored ==> e in s.stored)
            && HandledUpTo(t, |t.issued|, t.stored)
  {
    var maxId, t := PhaseOf(s, who).maxId, Apply(s, Delete(who));
    var k := AfterIsSuffix(s.stored, maxId);
    assert PhaseSafe(s, PhaseOf(s, who));
    forall i | 0 <= i < |t.issued| ensures t.issued[i] in t.handled || t.issued[i] in t.stored {
      if i >= maxId && s.issued[i] in s.stored {
        var j :| 0 <= j < |s.stored| && s.stored[j] == s.issued[i];
        assert t.stored[j - k] == s.issued[i];
      }
    }
  }

  lemma DispatchIsSafe(s: State, who: Consumer)
    requires Safe(s) && Enabled(s, Dispatch(who))
    ensures PhaseSafe(Apply(s, Dispatch(who)), PhaseOf(Apply(s, Dispatch(who)), who))
  {
    var phase, t := PhaseOf(s, who), Apply(s, Dispatch(who));
    assert PhaseSafe(s, phase);
    assert phase.rest == [phase.rest[0]] + phase.rest[1..];
  }

  lemma StepIsSafe(s: State, step: Step)
    requires Safe(s) && Enabled(s, step)
    ensures Safe(Apply(s, step))
  {
    var t := Apply(s, step);
    match step
    case Insert(kind, payload) =>
      InsertIsSafe(s, kind, payload);
    case ReadCursor(who) =>
      PhasesStaySafe(s, t, who);
    case List(who) =>
      ListIsSafe(s, who);
      PhasesStaySafe(s, t, who);
    case Dispatch(who) =>
      DispatchIsSafe(s, who);
      HandledUpToGrows(s, t, |s.issued|, s.stored);
      PhasesStaySafe(s, t, who);
    case Delete(who) =>
      DeleteIsSafe(s, who);
      assert PhaseSafe(s, PhaseOf(s, who));
      PhasesStaySafe(s, t, who);
    case Persist(who) =>
      assert PhaseSafe(s, PhaseOf(s, who));
      PhasesStaySafe(s, t, who);
    case Abort(who) =>
      PhasesStaySafe(s, t, who);
  }

  lemma {:induction false} RunIsSafe(steps: seq<Step>)
    requires Run(steps).Reached?
    ensures Safe(Run(steps).state)
  {
    if steps != [] {
      var last := |steps| - 1;
      RunIsSafe(steps[..last]);
      StepIsSafe(Run(steps[..last]).state, steps[last]);
    }
  }

  /**
   Main result: whatever the consumers do and wherever they stop, every event issued is still stored
   or has been handled, and every event at or below the stored cursor has been handled, also when a
   slow consumer has just moved the cursor back.
   */
  lemma NoEventIsLost(steps: seq<Step>, i: nat)
    requires Run(steps).Reached? && i < |Run(steps).state.issued|
    ensures var s := Run(steps).state;
            && s.issued[i].id == i + 1
            && (s.issued[i] in s.stored || s.issued[i] in s.handled)
            && (s.issued[i].id <= s.cursor ==> s.issued[i] in s.handled)
  {
    RunIsSafe(steps);
  }

  // ---- a single undisturbed consumer handles each event once, in order ---------------------------

  predicate Undisturbed(step: Step, who: Consumer) {
    match step
    case Insert(_, _) => true
    case Abort(_) => false
    case ReadCursor(w) => w == who
    case List(w) => w == who
    case Dispatch(w) => w == who
    case Delete(w) => w == who
    case Persist(w) => w == who
  }

  /** Nothing was skipped or repeated: the table holds exactly what comes after the given event. */
  ghost predicate InStep(s: State, who: Consumer) {
    && Numbered(s.issued)
    && s.cursor <= |s.issued|
    && match PhaseOf(s, who)
       case Idle => s.handled == s.issued[..s.cursor] && s.stored == s.issued[s.cursor..]
       case Ready(lastId) =>
         lastId == s.cursor && s.handled == s.issued[..s.cursor] && s.stored == s.issued[s.cursor..]
       case Dispatching(lastId, rest, maxId, _) =>
         && lastId == s.cursor <= |s.handled| <= maxId <= |s.issued|
         && s.handled == s.issued[..|s.handled|]
         && rest == s.issued[|s.handled|..maxId]
         && s.stored == s.issued[lastId..]
       case Deleted(maxId, _) =>
         maxId <= |s.issued| && s.handled == s.issued[..maxId] && s.stored == s.issued[maxId..]
  }

  lemma AfterOfNumbered(issued: seq<Event>, from: nat, id: nat)
    requires Numbered(issued) && from <= id <= |issued|
    ensures After(issued[from..], id) == issued[id..]
  {
    AfterFrom(issued[from..], id, id - from);
  }

  lemma ListStaysInStep(s: State, who: Consumer)
    requires InStep(s, who) && Enabled(s, List(who))
    ensures InStep(Apply(s, List(who)), who)
  {
    AfterOfNumbered(s.issued, s.cursor, s.cursor);
    var batch := Listing(s.stored, s.cursor, BatchLimit(who));
    if batch != [] {
      var last := s.cursor + |batch| - 1;
      assert batch == s.issued[s.cursor..last + 1];
      assert s.issued[last] == batch[|batch| - 1];
    }
  }

  lemma StepStaysInStep(s: State, step: Step, who: Consumer)
    requires InStep(s, who) && Enabled(s, step) && Undisturbed(step, who)
    ensures InStep(Apply(s, step), who)
  {
    var t := Apply(s, step);
    match step
    case Insert(_, _) =>
      assert forall n :: 0 <= n <= |s.issued| ==> t.issued[..n] == s.issued[..n];
      assert forall n, m :: 0 <= n <= m <= |s.issued| ==> t.issued[n..m] == s.issued[n..m];
    case ReadCursor(_) =>
    case List(_) =>
      ListStaysInStep(s, who);
    case Dispatch(_) =>
      assert t.handled == s.issued[..|s.handled| + 1];
    case Delete(_) =>
      AfterOfNumbered(s.issued, s.cursor, PhaseOf(s, who).maxId);
    case Persist(_) =>
  }

  lemma {:induction false} RunStaysInStep(steps: seq<Step>, who: Consumer)
    requires Run(steps).Reached? && forall k :: 0 <= k < |steps| ==> Undisturbed(steps[k], who)
    ensures InStep(Run(steps).state, who)
  {
    if steps != [] {
      var last := |steps| - 1;
      RunStaysInStep(steps[..last], who);
      StepStaysInStep(Run(steps[..last]).state, steps[last], who);
    }
  }

  /**
   Main result for one consumer that never stops half way: the handler calls are the first events
   issued, each once and in order, and when a listing comes back empty they are all of them.
   */
  lemma ExactlyOnceInOrder(steps: seq<Step>, who: Consumer)
    requires Run(steps).Reached? && forall k :: 0 <= k < |steps| ==> Undisturbed(steps[k], who)
    ensures var s := Run(steps).state;
            && |s.handled| <= |s.issued|
            && s.handled == s.issued[..|s.handled|]
            && (PhaseOf(s, who).Ready? && PhaseOf(Apply(s, List(who)), who).Idle? ==> s.handled == s.issued)
  {
    RunStaysInStep(steps, who);
    var s := Run(steps).state;
    if PhaseOf(s, who).Ready? {
      AfterOfNumbered(s.issued, s.cursor, s.cursor);
    }
  }

  /** Deleting up to the end of a batch leaves exactly what the batch did not list. */
  lemma RestAfterBatch(events: seq<Event>, lastId: nat, batch: seq<Event>)
    requires Ordered(events) && batch == Listing(events, lastId, APP_BATCH) && batch != []
    ensures var maxId := batch[|batch| - 1].id;
            && maxId > lastId
            && After(events, lastId) == batch + After(events, maxId)
            && After(After(events, maxId), maxId) == After(events, maxId)
            && |After(events, maxId)| < |After(events, lastId)|
            && (|batch| < APP_BATCH ==> After(events, maxId) == [])
  {
    var k, n := BatchSlice(events, lastId, batch);
    assert events[n - 1] == batch[|batch| - 1];
    SuffixAfter(events, n);
    assert events[k..] == events[k..n] + events[n..];
  }

  lemma BatchSlice(events: seq<Event>, lastId: nat, batch: seq<Event>) returns (k: nat, n: nat)
    requires Ordered(events) && batch == Listing(events, lastId, APP_BATCH) && batch != []
    ensures k < n <= |events| && After(events, lastId) == events[k..] && batch == events[k..n]
    ensures events[n - 1].id > lastId && (|batch| < APP_BATCH ==> n == |events|)
  {
    k := AfterIsSuffix(events, lastId);
    n := k + |batch|;
    assert batch == events[k..][..|batch|];
  }

  lemma SuffixAfter(events: seq<Event>, n: nat)
    requires Ordered(events) && 0 < n <= |events|
    ensures After(events, events[n - 1].id) == events[n..]
    ensures After(events[n..], events[n - 1].id) == events[n..]
  {
    AfterFrom(events, events[n - 1].id, n);
    AllAfter(events[n..], events[n - 1].id);
  }

  // ---- the code of the two consumers -------------------------------------------------------------

  /** Where a pass breaks off, if it does: a failed listing, a handler that raises, a failed deletion. */
  datatype Fault = None | ListFails | HandlerFails(at: nat) | DeleteFails

  function HandledBy(batch: seq<Event>, fault: Fault): (n: nat)
    ensures n <= |batch|
  {
    match fault
    case ListFails => 0
    case HandlerFails(at) => if at < |batch| then at else |batch|
    case _ => |batch|
  }

  predicate Completes(batch: seq<Event>, fault: Fault) {
    batch != [] && !fault.DeleteFails? && HandledBy(batch, fault) == |batch|
  }

  lemma BatchIsOrdered(events: seq<Event>, lastId: nat, limit: int)
    requires Ordered(events)
    ensures Ordered(Listing(events, lastId, limit))
    ensures forall i :: 0 <= i < |Listing(events, lastId, limit)| ==> Listing(events, lastId, limit)[i].id > lastId
  {
    var k := AfterIsSuffix(events, lastId);
  }

  class EventLoop {
    const store: EventStore
    var cursor: nat
    var handled: seq<Event>

    constructor (store: EventStore)
      ensures this.store == store && cursor == 0 && handled == []
    {
      this.store := store;
      cursor, handled := 0, [];
    }

    /** Handles the events of a batch one by one, up to the one whose handler raises, if any does. */
    method HandleBatch(batch: seq<Event>, lastId: nat, fault: Fault) returns (ok: bool, maxId: nat)
      requires Ordered(batch) && forall i :: 0 <= i < |batch| ==> batch[i].id > lastId
      modifies this`handled
      ensures ok <==> !(fault.HandlerFails? && fault.at < |batch|)
      ensures handled == old(handled) + batch[..if ok then |batch| else fault.at]
      ensures ok ==> maxId == if batch == [] then lastId else batch[|batch| - 1].id
    {
      maxId := lastId;
      for i := 0 to |batch|
        invariant handled == old(handled) + batch[..i]
        invariant maxId == if i == 0 then lastId else batch[i - 1].id
        invariant fault.HandlerFails? ==> fault.at >= i
      {
        if fault == HandlerFails(i) {
          return false, maxId;
        }
        handled := handled + [batch[i]];
        if batch[i].id > maxId {
          maxId := batch[i].id;
        }
      }
      ok := true;
    }

    /** One pass of the push helper: a prefix of the batch is handled, all of it unless a fault occurs. */
    method ProcessEventsOnce(limit: int, fault: Fault)
      requires store.Valid()
      modifies this, store
      ensures store.Valid() && store.lastId == old(store.lastId)
      ensures var batch := Listing(old(store.events), old(cursor), limit);
              handled == old(handled) + batch[..HandledBy(batch, fault)]
      ensures var batch := Listing(old(store.events), old(cursor), limit);
              if Completes(batch, fault)
              then cursor == batch[|batch| - 1].id && store.events == After(old(store.events), cursor)
              else cursor == old(cursor) && store.events == old(store.events)
    {
      var lastId := cursor;
      if fault.ListFails? {
        return;
      }
      var batch := store.List(lastId, limit);
      BatchIsOrdered(store.events, lastId, limit);
      if batch == [] {
        return;
      }
      var ok, maxId := HandleBatch(batch, lastId, fault);
      if !ok || fault.DeleteFails? {
        return;
      }
      if maxId > lastId {
        store.Delete(maxId);
        cursor := maxId;
      }
    }

    /** One round of the app's loop: after it, what was handled and what is left make up what there was. */
    method HandleOneBatch(lastId: nat) returns (size: nat, maxId: nat)
      requires store.Valid() && cursor == lastId
      modifies this, store
      ensures store.Valid() && store.lastId == old(store.lastId) && cursor == maxId
      ensures handled + After(store.events, maxId) == old(handled) + After(old(store.events), lastId)
      ensures size > 0 ==> |After(store.events, maxId)| < |After(old(store.events), lastId)|
      ensures size < APP_BATCH ==> After(store.events, maxId) == []
    {
      var batch := store.List(lastId, APP_BATCH);
      size, maxId := |batch|, lastId;
      if batch == [] {
        return;
      }
      BatchIsOrdered(store.events, lastId, APP_BATCH);
      RestAfterBatch(store.events, lastId, batch);
      ghost var rest := After(store.events, batch[|batch| - 1].id);
      assert After(rest, batch[|batch| - 1].id) == rest;
      var ok;
      ok, maxId := HandleBatch(batch, lastId, None);
      assert handled + rest == old(handled) + (batch + rest) by {
        assert batch[..|batch|] == batch;
      }
      if maxId > lastId {
        store.Delete(maxId);
        assert store.events == rest;
        cursor := maxId;
      }
    }

    /** The app's pass goes on, batch by batch, until it has handled everything that is stored. */
    method DoTrigger()
      requires store.Valid()
      modifies this, store
      ensures store.Valid() && store.lastId == old(store.lastId)
      ensures handled == old(handled) + After(old(store.events), old(cursor))
      ensures After(store.events, cursor) == []
    {
      var lastId := cursor;
      while true
        invariant store.Valid() && store.lastId == old(store.lastId) && lastId == cursor
        invariant handled + After(store.events, lastId) == old(handled) + After(old(store.events), old(cursor))
        decreases |After(store.events, lastId)|
      {
        var size;
        size, lastId := HandleOneBatch(lastId);
        if size < APP_BATCH {
          break;
        }
      }
    }
  }
}
