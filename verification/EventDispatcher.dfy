/**
 The queue of events to be triggered. The clock counts microseconds; the queue is ordered by the due
 millisecond, rounded up, and among equals by the order of scheduling.
 */
module EventDispatcher {
  import opened Options

  /** The millisecond in which an instant falls, rounded up. */
  function HeapKey(instant: int): int {
    (instant + 999) / 1000
  }

  /** Events are objects: one keeps its next date through being unregistered and registered again. */
  type Object = nat

  datatype Entry = Entry(key: int, counter: nat, due: int, event: Object)

  datatype Firing = Firing(entry: Entry, at: int)

  /** An interval of zero means that the event is not periodic. */
  datatype Event = Event(id: string, interval: nat, next: Option<int>)

  /** A periodic event queued by its period: when its next date was set, and the entry queued right after. */
  datatype Beat = Beat(dated: int, entry: Entry)

  /** `fired` and `beats` are remembered for the proofs: what was triggered, and what each event was queued for by its period. */
  datatype State = State(
    queue: set<Entry>,
    counter: nat,
    registry: map<string, Object>,
    objects: map<Object, Event>,
    now: int,
    fired: seq<Firing>,
    beats: map<Object, seq<Beat>>)

  /**
   Everything that is done with the dispatcher, with what the clock said at the time. A look at a periodic event
   reads it three times: to see whether the next date has passed, to set the one after, and to queue the event.
   */
  datatype Action =
    | Register(o: Object, id: string, interval: nat)
    | Unregister(id: string)
    | Schedule(id: string, delay: nat, now: int)
    | Enqueue(id: string, asked: int, dated: int, now: int)
    | Process(now: int)

  predicate Earlier(a: Entry, b: Entry) {
    a.key < b.key || (a.key == b.key && a.counter < b.counter)
  }

  predicate First(e: Entry, queue: set<Entry>) {
    e in queue && forall x :: x in queue && x != e ==> Earlier(e, x)
  }

  function Scheduled(s: State, id: string, due: int, now: int): State {
    if id !in s.registry then s.(now := now)
    else s.(queue := s.queue + {Entry(HeapKey(due), s.counter, due, s.registry[id])}, counter := s.counter + 1, now := now)
  }

  predicate Beats(s: State, id: string, asked: int) {
    && id in s.registry && s.registry[id] in s.objects
    && var event := s.objects[s.registry[id]];
       event.interval != 0 && (event.next.None? || event.next.value < asked)
  }

  /** One look at a periodic event: if its time has passed, the next is set and it is queued at once. */
  function Enqueued(s: State, id: string, asked: int, dated: int, now: int): State {
    if !Beats(s, id, asked) then s.(now := now)
    else Scheduled(Beaten(s, s.registry[id], dated, now), id, now, now)
  }

  function BeatsOf(s: State, o: Object): seq<Beat> {
    if o in s.beats then s.beats[o] else []
  }

  /** The next date is set, and the entry about to be queued remembered. */
  function Beaten(s: State, o: Object, dated: int, now: int): State
    requires o in s.objects
  {
    s.(objects := s.objects[o := s.objects[o].(next := Some(dated + s.objects[o].interval))],
       beats := s.beats[o := BeatsOf(s, o) + [Beat(dated, Entry(HeapKey(now), s.counter, now, o))]])
  }

  /** An object registered for the first time has no next date yet. */
  function Registered(s: State, o: Object, id: string, interval: nat): State {
    if o in s.objects then s.(registry := s.registry[s.objects[o].id := o])
    else s.(registry := s.registry[id := o], objects := s.objects[o := Event(id, interval, None)])
  }

  /** One turn of the processing loop: the first entry is triggered if its millisecond has come. */
  ghost predicate Processed(s: State, now: int, t: State) {
    if exists e :: First(e, s.queue) && e.key <= HeapKey(now) then
      exists e :: First(e, s.queue) && e.key <= HeapKey(now) && t == Fire(s, e, now)
    else t == s.(now := now)
  }

  function Fire(s: State, e: Entry, now: int): State {
    s.(queue := s.queue - {e}, fired := s.fired + [Firing(e, now)], now := now)
  }

  ghost predicate Step(s: State, a: Action, t: State) {
    match a
    case Register(o, id, interval) => t == Registered(s, o, id, interval)
    case Unregister(id) => t == s.(registry := s.registry - {id})
    case Schedule(id, delay, now) => s.now <= now && t == Scheduled(s, id, now + delay, now)
    case Enqueue(id, asked, dated, now) => s.now <= asked <= dated <= now && t == Enqueued(s, id, asked, dated, now)
    case Process(now) => s.now <= now && Processed(s, now, t)
  }

  ghost predicate Init(s: State) {
    s.queue == {} && s.counter == 0 && s.registry == map[] && s.objects == map[] && s.fired == [] && s.beats == map[]
  }

  ghost predicate Steps(s: State, actions: seq<Action>, t: State)
    decreases |actions|
  {
    if actions == [] then s == t
    else exists m :: Step(s, actions[0], m) && Steps(m, actions[1..], t)
  }

  // ---- what every run keeps ----------------------------------------------------------------------

  ghost predicate FiredInOrder(fired: seq<Firing>) {
    forall i, j :: 0 <= i < j < |fired| ==> Earlier(fired[i].entry, fired[j].entry)
  }

  /** An entry the counter has been used for, with the key its due time asks for. */
  predicate Known(s: State, e: Entry) {
    e.counter < s.counter && e.key == HeapKey(e.due)
  }

  ghost predicate FiredCounter(fired: seq<Firing>, n: nat) {
    exists i :: 0 <= i < |fired| && fired[i].entry.counter == n
  }

  ghost predicate QueuedCounter(queue: set<Entry>, n: nat) {
    exists e :: e in queue && e.counter == n
  }

  ghost predicate Inv(s: State) {
    && (forall e :: e in s.queue ==> Known(s, e))
    && FiredInOrder(s.fired)
    && (forall i :: 0 <= i < |s.fired| ==> Known(s, s.fired[i].entry) && InTime(s, s.fired[i]))
    && (forall i, e :: 0 <= i < |s.fired| && e in s.queue ==> Earlier(s.fired[i].entry, e))
  }

  /** Triggered no sooner than in its due millisecond, and that is past. */
  predicate InTime(s: State, f: Firing) {
    f.entry.key <= HeapKey(f.at) && f.at <= s.now
  }

  /** Every number given out belongs to one entry that waits, or to one that was triggered. */
  ghost predicate Conserved(s: State) {
    forall n: nat :: n < s.counter ==> QueuedCounter(s.queue, n) || FiredCounter(s.fired, n)
  }

  /** No number belongs to two of them. */
  ghost predicate Apart(s: State) {
    && (forall e, f :: e in s.queue && f in s.queue && e.counter == f.counter ==> e == f)
    && (forall i, j :: 0 <= i < |s.fired| && 0 <= j < |s.fired| && s.fired[i].entry.counter == s.fired[j].entry.counter ==> i == j)
    && (forall i, e :: 0 <= i < |s.fired| && e in s.queue ==> s.fired[i].entry.counter != e.counter)
  }

  lemma ScheduledKeepsInv(s: State, id: string, due: int, now: int)
    requires Inv(s) && Apart(s) && s.now <= now <= due
    ensures Inv(Scheduled(s, id, due, now)) && Apart(Scheduled(s, id, due, now))
  {
    if id in s.registry {
      var e := Entry(HeapKey(due), s.counter, due, s.registry[id]);
      assert forall i :: 0 <= i < |s.fired| ==> Earlier(s.fired[i].entry, e);
    }
  }

  lemma FireKeepsInv(s: State, e: Entry, now: int)
    requires Inv(s) && Apart(s) && s.now <= now && First(e, s.queue) && e.key <= HeapKey(now)
    ensures Inv(Fire(s, e, now)) && Apart(Fire(s, e, now))
  {
    var t := Fire(s, e, now);
    assert t.fired[|s.fired|].entry == e;
  }

  lemma ScheduleKeepsInv(s: State, id: string, delay: nat, now: int, t: State)
    requires Inv(s) && Apart(s) && s.now <= now && t == Scheduled(s, id, now + delay, now)
    ensures Inv(t) && Apart(t)
  {
    ScheduledKeepsInv(s, id, now + delay, now);
  }

  lemma EnqueuedKeepsInv(s: State, id: string, asked: int, dated: int, now: int)
    requires Inv(s) && Apart(s) && s.now <= asked <= dated <= now
    ensures Inv(Enqueued(s, id, asked, dated, now)) && Apart(Enqueued(s, id, asked, dated, now))
  {
    if Beats(s, id, asked) {
      ScheduledKeepsInv(Beaten(s, s.registry[id], dated, now), id, now, now);
    }
  }

  lemma ProcessedKeepsInv(s: State, now: int, t: State)
    requires Inv(s) && Apart(s) && s.now <= now && Processed(s, now, t)
    ensures Inv(t) && Apart(t)
  {
    if exists e :: First(e, s.queue) && e.key <= HeapKey(now) {
      var e :| First(e, s.queue) && e.key <= HeapKey(now) && t == Fire(s, e, now);
      FireKeepsInv(s, e, now);
    }
  }

  lemma SameEntriesKeepInv(s: State, t: State)
    requires Inv(s) && Apart(s) && t == s.(registry := t.registry, objects := t.objects)
    ensures Inv(t) && Apart(t)
  {
    assert forall e :: Known(s, e) <==> Known(t, e);
  }

  lemma StepKeepsInv(s: State, a: Action, t: State)
    requires Inv(s) && Apart(s) && Step(s, a, t)
    ensures Inv(t) && Apart(t)
  {
    match a
    case Register(_, _, _) => SameEntriesKeepInv(s, t);
    case Unregister(_) => SameEntriesKeepInv(s, t);
    case Schedule(id, delay, now) => ScheduleKeepsInv(s, id, delay, now, t);
    case Enqueue(id, asked, dated, now) => EnqueuedKeepsInv(s, id, asked, dated, now);
    case Process(now) => ProcessedKeepsInv(s, now, t);
  }

  lemma ScheduledConserves(s: State, id: string, due: int, now: int)
    requires Conserved(s)
    ensures Conserved(Scheduled(s, id, due, now))
  {
    if id in s.registry {
      var t, e := Scheduled(s, id, due, now), Entry(HeapKey(due), s.counter, due, s.registry[id]);
      assert e in t.queue;
      forall n: nat | n < s.counter && QueuedCounter(s.queue, n) ensures QueuedCounter(t.queue, n) {
        var x :| x in s.queue && x.counter == n;
        assert x in t.queue;
      }
    }
  }

  lemma FireConserves(s: State, e: Entry, now: int)
    requires Conserved(s) && e in s.queue
    ensures Conserved(Fire(s, e, now))
  {
    var t := Fire(s, e, now);
    forall n: nat | n < s.counter ensures QueuedCounter(t.queue, n) || FiredCounter(t.fired, n) {
      if n == e.counter {
        assert t.fired[|s.fired|].entry.counter == n;
      } else if QueuedCounter(s.queue, n) {
        var x :| x in s.queue && x.counter == n;
        assert x in t.queue;
      } else {
        var i :| 0 <= i < |s.fired| && s.fired[i].entry.counter == n;
        assert t.fired[i].entry.counter == n;
      }
    }
  }

  lemma StepConserves(s: State, a: Action, t: State)
    requires Conserved(s) && Step(s, a, t)
    ensures Conserved(t)
  {
    match a
    case Register(_, _, _) =>
    case Unregister(_) =>
    case Schedule(id, delay, now) => ScheduledConserves(s, id, now + delay, now);
    case Enqueue(id, asked, dated, now) =>
      if Beats(s, id, asked) {
        ScheduledConserves(Beaten(s, s.registry[id], dated, now), id, now, now);
      }
    case Process(now) =>
      if exists e :: First(e, s.queue) && e.key <= HeapKey(now) {
        var e :| First(e, s.queue) && e.key <= HeapKey(now) && t == Fire(s, e, now);
        FireConserves(s, e, now);
      }
  }

  lemma {:induction false} RunKeeps(s: State, actions: seq<Action>, t: State)
    requires Inv(s) && Apart(s) && Conserved(s) && Steps(s, actions, t)
    ensures Inv(t) && Apart(t) && Conserved(t)
    decreases |actions|
  {
    if actions != [] {
      var m :| Step(s, actions[0], m) && Steps(m, actions[1..], t);
      StepKeepsInv(s, actions[0], m);
      StepConserves(s, actions[0], m);
      RunKeeps(m, actions[1..], t);
    }
  }

  /**
   Over a whole run, whatever is scheduled from outside or from inside triggers: events are triggered in
   strictly increasing order of due millisecond and number, none before its due millisecond, and every
   number given out belongs to exactly one event, triggered once or still queued.
   */
  lemma TriggeredInOrder(s: State, actions: seq<Action>, t: State)
    requires Init(s) && Steps(s, actions, t)
    ensures forall i, j :: 0 <= i < j < |t.fired| ==>
              var (e, f) := (t.fired[i].entry, t.fired[j].entry);
              e.key < f.key || (e.key == f.key && e.counter < f.counter)
    ensures forall i :: 0 <= i < |t.fired| ==> t.fired[i].entry.key == HeapKey(t.fired[i].entry.due) <= HeapKey(t.fired[i].at)
    ensures forall n: nat :: n < t.counter ==> QueuedCounter(t.queue, n) || FiredCounter(t.fired, n)
    ensures Apart(t)
  {
    RunKeeps(s, actions, t);
  }

  // ---- how early ---------------------------------------------------------------------------------

  /** One event registered and scheduled at an instant, and the queue looked at in that very instant. */
  function AtOnce(at: int, delay: nat): seq<Action> {
    [Register(0, "e", 0), Schedule("e", delay, at), Process(at)]
  }

  /** An instant of the due millisecond is enough for the event to be triggered, however much before its due instant. */
  lemma FiresInItsMillisecond(at: int, delay: nat) returns (s: State, t: State)
    requires HeapKey(at + delay) <= HeapKey(at)
    ensures Init(s) && Steps(s, AtOnce(at, delay), t)
    ensures t.fired == [Firing(Entry(HeapKey(at + delay), 0, at + delay, 0), at)]
  {
    s := State({}, 0, map[], map[], at, [], map[]);
    var actions := AtOnce(at, delay);
    var registered := Registered(s, 0, "e", 0);
    var scheduled := Scheduled(registered, "e", at + delay, at);
    var e := Entry(HeapKey(at + delay), 0, at + delay, 0);
    t := Fire(scheduled, e, at);
    assert First(e, scheduled.queue) && Processed(scheduled, at, t);
    assert actions[2..] == [actions[2]] && [actions[2]][1..] == [];
    assert Steps(scheduled, [actions[2]], t) by {
      assert Step(scheduled, actions[2], t) && Steps(t, [], t);
    }
    assert actions[1..] == [actions[1], actions[2]] && [actions[1], actions[2]][1..] == [actions[2]];
    assert Step(registered, actions[1], scheduled) && Steps(scheduled, actions[1..][1..], t);
    assert Step(s, actions[0], registered) && Steps(registered, actions[1..], t);
  }

  /** No run triggers an event that is due at the given instant by more than so much before it. */
  ghost predicate NeverEarlierThan(due: int, lead: nat) {
    forall s, actions, t, i :: Init(s) && Steps(s, actions, t) && 0 <= i < |t.fired| && t.fired[i].entry.due == due ==>
      due - t.fired[i].at <= lead
  }

  /** By how much runs may trigger an event too soon: by its place in its millisecond, up to 999 microseconds. */
  function Lead(due: int): nat {
    (due + 999) % 1000
  }

  /**
   What is due at an instant is never triggered sooner than its place in its millisecond before it, and some
   run triggers it as soon as that.
   */
  lemma EarlyByAtMostTheLead(due: int, lead: nat)
    ensures NeverEarlierThan(due, lead) <==> Lead(due) <= lead
  {
    if Lead(due) <= lead {
      forall s, actions, t, i | Init(s) && Steps(s, actions, t) && 0 <= i < |t.fired| && t.fired[i].entry.due == due
        ensures due - t.fired[i].at <= lead
      {
        RunKeeps(s, actions, t);
        assert Known(t, t.fired[i].entry) && InTime(t, t.fired[i]);
        KeyIsTheLead(due, t.fired[i].at);
      }
    } else {
      var at := due - Lead(due);
      KeyIsTheLead(due, at);
      var s, t := FiresInItsMillisecond(at, Lead(due));
      assert t.fired[0].entry.due == due && due - t.fired[0].at > lead;
    }
  }

  lemma KeyIsTheLead(due: int, at: int)
    ensures HeapKey(due) <= HeapKey(at) <==> due - at <= Lead(due)
  {
  }

  /** Over all runs: what is due at an instant is never triggered early if and only if it is the first of its millisecond. */
  lemma NeverEarlyExactlyAtStart(due: int)
    ensures NeverEarlierThan(due, 0) <==> due % 1000 == 1
  {
    EarlyByAtMostTheLead(due, 0);
  }

  // ---- periodic events ---------------------------------------------------------------------------

  ghost predicate Waiting(s: State, e: Entry) {
    e in s.queue || exists i :: 0 <= i < |s.fired| && s.fired[i].entry == e
  }

  /**
   The beats of an event: the next dates set more than its interval apart, each entry queued at most so long after its
   date was set and before the next was, and still there or triggered.
   */
  ghost predicate Paced(s: State, o: Object, lag: nat)
    requires o in s.objects
  {
    var b, event := BeatsOf(s, o), s.objects[o];
    && event.next == (if b == [] then None else Some(b[|b| - 1].dated + event.interval))
    && (forall i :: 0 < i < |b| ==> b[i].dated > b[i - 1].dated + event.interval && b[i - 1].entry.due <= b[i].dated)
    && (forall i :: 0 <= i < |b| ==> InStep(s, o, b[i], lag))
  }

  ghost predicate InStep(s: State, o: Object, beat: Beat, lag: nat) {
    && beat.dated <= beat.entry.due <= beat.dated + lag && beat.entry.due <= s.now
    && beat.entry.event == o && Waiting(s, beat.entry)
  }

  ghost predicate AllPaced(s: State, lag: nat) {
    && (forall o :: o in s.objects ==> Paced(s, o, lag))
    && (forall o :: o in s.beats ==> o in s.objects)
  }

  /** Between setting the next date and queueing the event never more than so much time passes. */
  ghost predicate Prompt(actions: seq<Action>, lag: nat) {
    forall a :: a in actions && a.Enqueue? ==> a.now <= a.dated + lag
  }

  lemma StillWaiting(s: State, a: Action, t: State, e: Entry)
    requires Step(s, a, t) && Waiting(s, e)
    ensures Waiting(t, e) && s.now <= t.now
  {
    if a.Process? && exists x :: First(x, s.queue) && x.key <= HeapKey(a.now) {
      var x :| First(x, s.queue) && x.key <= HeapKey(a.now) && t == Fire(s, x, a.now);
      if x == e {
        assert t.fired[|s.fired|].entry == e;
      } else if e !in s.queue {
        var i :| 0 <= i < |s.fired| && s.fired[i].entry == e;
        assert t.fired[i].entry == e;
      }
    }
  }

  predicate BeatsNow(s: State, a: Action, o: Object) {
    a.Enqueue? && Beats(s, a.id, a.asked) && s.registry[a.id] == o
  }

  lemma EventIsLeft(s: State, a: Action, t: State, o: Object)
    requires Step(s, a, t) && o in s.objects && !BeatsNow(s, a, o)
    ensures o in t.objects && t.objects[o] == s.objects[o] && BeatsOf(t, o) == BeatsOf(s, o)
  {
  }

  /** Objects are met for the first time when they are registered. */
  lemma EventIsNew(s: State, a: Action, t: State, o: Object)
    requires Step(s, a, t) && (forall x :: x in s.beats ==> x in s.objects)
    requires o in t.objects && o !in s.objects
    ensures t.objects[o].next.None? && BeatsOf(t, o) == []
  {
  }

  lemma StepKeepsPace(s: State, a: Action, t: State, o: Object, lag: nat)
    requires AllPaced(s, lag) && Step(s, a, t) && o in t.objects && Prompt([a], lag)
    ensures Paced(t, o, lag)
  {
    if o !in s.objects {
      EventIsNew(s, a, t, o);
    } else {
      StillInStep(s, a, t, o, lag);
      if BeatsNow(s, a, o) {
        assert a in [a];
        BeatKeepsPace(s, a, t, o, lag);
      } else {
        EventIsLeft(s, a, t, o);
      }
    }
  }

  lemma StillInStep(s: State, a: Action, t: State, o: Object, lag: nat)
    requires o in s.objects && Paced(s, o, lag) && Step(s, a, t)
    ensures forall i :: 0 <= i < |BeatsOf(s, o)| ==> InStep(t, o, BeatsOf(s, o)[i], lag)
  {
    var b := BeatsOf(s, o);
    forall i | 0 <= i < |b| ensures InStep(t, o, b[i], lag) {
      assert InStep(s, o, b[i], lag);
      StillWaiting(s, a, t, b[i].entry);
    }
  }

  lemma BeatKeepsPace(s: State, a: Action, t: State, o: Object, lag: nat)
    requires o in s.objects && Paced(s, o, lag) && BeatsNow(s, a, o) && Step(s, a, t) && a.now <= a.dated + lag
    requires forall i :: 0 <= i < |BeatsOf(s, o)| ==> InStep(t, o, BeatsOf(s, o)[i], lag)
    ensures o in t.objects && Paced(t, o, lag)
  {
    var beat := Beat(a.dated, Entry(HeapKey(a.now), s.counter, a.now, o));
    BeatIsAdded(s, a, t, o, beat);
    PaceGoesOn(s, t, o, beat, lag);
  }

  lemma BeatIsAdded(s: State, a: Action, t: State, o: Object, beat: Beat)
    requires o in s.objects && BeatsNow(s, a, o) && Step(s, a, t)
    requires beat == Beat(a.dated, Entry(HeapKey(a.now), s.counter, a.now, o))
    ensures o in t.objects && t.objects[o] == s.objects[o].(next := Some(beat.dated + s.objects[o].interval))
    ensures BeatsOf(t, o) == BeatsOf(s, o) + [beat] && beat.entry in t.queue && t.now == a.now && s.now <= a.dated
    ensures s.objects[o].next.Some? ==> beat.dated > s.objects[o].next.value
  {
  }

  lemma PaceGoesOn(s: State, t: State, o: Object, beat: Beat, lag: nat)
    requires o in s.objects && Paced(s, o, lag) && o in t.objects && InStep(t, o, beat, lag) && s.now <= beat.dated
    requires t.objects[o] == s.objects[o].(next := Some(beat.dated + s.objects[o].interval))
    requires BeatsOf(t, o) == BeatsOf(s, o) + [beat]
    requires s.objects[o].next.Some? ==> beat.dated > s.objects[o].next.value
    requires forall i :: 0 <= i < |BeatsOf(s, o)| ==> InStep(t, o, BeatsOf(s, o)[i], lag)
    ensures Paced(t, o, lag)
  {
    var b := BeatsOf(s, o);
    assert b != [] ==> InStep(s, o, b[|b| - 1], lag);
  }

  lemma StepKeepsAllPaced(s: State, a: Action, t: State, lag: nat)
    requires AllPaced(s, lag) && Step(s, a, t) && Prompt([a], lag)
    ensures AllPaced(t, lag)
  {
    forall o | o in t.objects ensures Paced(t, o, lag) {
      StepKeepsPace(s, a, t, o, lag);
    }
  }

  lemma {:induction false} RunKeepsPace(s: State, actions: seq<Action>, t: State, lag: nat)
    requires AllPaced(s, lag) && Steps(s, actions, t) && Prompt(actions, lag)
    ensures AllPaced(t, lag)
    decreases |actions|
  {
    if actions != [] {
      var m :| Step(s, actions[0], m) && Steps(m, actions[1..], t);
      assert actions[0] in actions;
      StepKeepsAllPaced(s, actions[0], m, lag);
      RunKeepsPace(m, actions[1..], t, lag);
    }
  }

  /** By how much two beats are apart at least: an instant more than the interval, less what queueing may lag behind. */
  function Gap(interval: nat, lag: nat): nat {
    if interval + 1 < lag then 0 else interval + 1 - lag
  }

  /**
   Over a whole run, the next dates of an event are set more than its interval apart; the entries queued are
   due apart by that less the time that setting and queueing lie apart; and each was triggered or is queued.
   */
  lemma BeatsAreApart(s: State, actions: seq<Action>, t: State, o: Object, lag: nat)
    requires Init(s) && Steps(s, actions, t) && Prompt(actions, lag) && o in t.objects
    ensures var b, interval := BeatsOf(t, o), t.objects[o].interval;
            && (forall i :: 0 < i < |b| ==> b[i].dated - b[i - 1].dated > interval)
            && (forall i :: 0 < i < |b| ==> b[i].entry.due - b[i - 1].entry.due >= Gap(interval, lag))
            && (forall i :: 0 <= i < |b| ==> b[i].entry.event == o && Waiting(t, b[i].entry))
  {
    RunKeepsPace(s, actions, t, lag);
    assert Paced(t, o, lag);
    var b := BeatsOf(t, o);
    assert forall i :: 0 <= i < |b| ==> InStep(t, o, b[i], lag);
  }

  /** In no run with that lag are two beats of an event with that interval due less than so much apart. */
  ghost predicate DueApart(interval: nat, lag: nat, gap: int) {
    forall s, actions, t, o, i ::
      Init(s) && Steps(s, actions, t) && Prompt(actions, lag) && o in t.objects && t.objects[o].interval == interval
      && 0 < i < |BeatsOf(t, o)| ==>
        BeatsOf(t, o)[i].entry.due - BeatsOf(t, o)[i - 1].entry.due >= gap
  }

  /** No larger bound holds: beats of a periodic event may be due closer than its interval as soon as queueing lags. */
  lemma DueApartExactly(interval: nat, lag: nat, gap: int)
    requires interval > 0
    ensures DueApart(interval, lag, gap) <==> gap <= Gap(interval, lag)
  {
    if gap <= Gap(interval, lag) {
      forall s, actions, t, o, i | Init(s) && Steps(s, actions, t) && Prompt(actions, lag)
          && o in t.objects && t.objects[o].interval == interval && 0 < i < |BeatsOf(t, o)|
        ensures BeatsOf(t, o)[i].entry.due - BeatsOf(t, o)[i - 1].entry.due >= gap
      {
        BeatsAreApart(s, actions, t, o, lag);
      }
    } else {
      var s, actions, t := LateThenAtOnce(interval, lag);
      assert BeatsOf(t, 0)[1].entry.due - BeatsOf(t, 0)[0].entry.due < gap;
    }
  }

  /** The first beat is queued as late as may be after its date was set, the second as soon as possible and at once. */
  lemma LateThenAtOnce(interval: nat, lag: nat) returns (s: State, actions: seq<Action>, t: State)
    requires interval > 0
    ensures Init(s) && Steps(s, actions, t) && Prompt(actions, lag)
    ensures 0 in t.objects && t.objects[0].interval == interval && |BeatsOf(t, 0)| == 2
    ensures BeatsOf(t, 0)[1].entry.due - BeatsOf(t, 0)[0].entry.due == Gap(interval, lag)
  {
    s := State({}, 0, map[], map[], 0, [], map[]);
    var again := lag + Gap(interval, lag);
    actions := [Register(0, "e", interval), Enqueue("e", 0, 0, lag), Enqueue("e", again, again, again)];
    var registered := Registered(s, 0, "e", interval);
    var once := Enqueued(registered, "e", 0, 0, lag);
    t := Enqueued(once, "e", again, again, again);
    assert BeatsOf(once, 0) == [Beat(0, Entry(HeapKey(lag), 0, lag, 0))];
    assert actions[2..] == [actions[2]] && [actions[2]][1..] == [];
    assert Steps(once, [actions[2]], t) by {
      assert Step(once, actions[2], t) && Steps(t, [], t);
    }
    assert actions[1..] == [actions[1], actions[2]] && [actions[1], actions[2]][1..] == [actions[2]];
    assert Step(registered, actions[1], once) && Steps(once, actions[1..][1..], t);
    assert Step(s, actions[0], registered) && Steps(registered, actions[1..], t);
  }

  // ---- the dispatcher ----------------------------------------------------------------------------

  lemma {:induction false} FirstExists(queue: set<Entry>)
    requires queue != {}
    requires forall e, f :: e in queue && f in queue && e.counter == f.counter ==> e == f
    ensures exists e :: First(e, queue)
    decreases |queue|
  {
    var x :| x in queue;
    var rest := queue - {x};
    if rest == {} {
      assert queue == {x};
      assert First(x, queue);
    } else {
      FirstExists(rest);
      var e :| First(e, rest);
      assert queue == rest + {x};
      assert if Earlier(x, e) then First(x, queue) else First(e, queue);
    }
  }

  lemma {:induction false} StepsThen(s: State, actions: seq<Action>, m: State, a: Action, t: State)
    requires Steps(s, actions, m) && Step(m, a, t)
    ensures Steps(s, actions + [a], t)
    decreases |actions|
  {
    if actions == [] {
      assert ([a])[1..] == [];
      assert Step(s, [a][0], t) && Steps(t, [a][1..], t);
      assert actions + [a] == [a];
    } else {
      var n :| Step(s, actions[0], n) && Steps(n, actions[1..], m);
      StepsThen(n, actions[1..], m, a, t);
      assert (actions + [a])[1..] == actions[1..] + [a];
      assert Step(s, (actions + [a])[0], n);
    }
  }

  /** How a call of the processing loop ends: nothing is due, a trigger has raised, or it goes on beyond the triggers given. */
  datatype Ending = Drained | Raised | Running

  /** What a trigger does to the dispatcher: it schedules more, and may raise. */
  datatype Trigger = Trigger(schedules: seq<(string, nat)>, raises: bool)

  class Dispatcher {
    var queue: set<Entry>
    var counter: nat
    var registry: map<string, Object>
    var objects: map<Object, Event>
    var clock: int
    ghost var fired: seq<Firing>
    ghost var beats: map<Object, seq<Beat>>

    ghost function Abs(): State
      reads this
    {
      State(queue, counter, registry, objects, clock, fired, beats)
    }

    ghost predicate Valid()
      reads this
    {
      Inv(Abs()) && Apart(Abs()) && Conserved(Abs())
    }

    constructor (start: int)
      ensures Valid() && Init(Abs()) && clock == start
    {
      queue, counter, registry, objects, clock, fired, beats := {}, 0, map[], map[], start, [], map[];
      new;
      assert Init(Abs());
    }

    /** The clock never goes back. */
    method Now() returns (now: int)
      modifies this`clock
      ensures old(clock) <= clock == now
    {
      var elapsed: int :| elapsed >= 0;
      clock := clock + elapsed;
      now := clock;
    }

    method RegisterEvent(o: Object, id: string, interval: nat)
      requires Valid()
      modifies this
      ensures Valid() && Step(old(Abs()), Register(o, id, interval), Abs())
    {
      ghost var s := Abs();
      if o !in objects {
        objects := objects[o := Event(id, interval, None)];
      }
      registry := registry[objects[o].id := o];
      Stepped(s, Register(o, id, interval));
    }

    method UnregisterEvent(id: string)
      requires Valid()
      modifies this
      ensures Valid() && Step(old(Abs()), Unregister(id), Abs())
    {
      ghost var s := Abs();
      if id in registry {
        registry := registry - {id};
      }
      assert s.registry - {id} == registry;
      Stepped(s, Unregister(id));
    }

    ghost predicate WasValid(s: State) {
      Inv(s) && Apart(s) && Conserved(s)
    }

    lemma Stepped(s: State, a: Action)
      requires WasValid(s) && Step(s, a, Abs())
      ensures Valid()
    {
      StepKeepsInv(s, a, Abs());
      StepConserves(s, a, Abs());
    }

    method ScheduleEvent(id: string, delay: nat) returns (ghost action: Action)
      requires Valid()
      modifies this
      ensures action.Schedule? && action.id == id && action.delay == delay && action.now == clock
      ensures Valid() && Step(old(Abs()), action, Abs())
    {
      ghost var s := Abs();
      var now := Now();
      action := Schedule(id, delay, now);
      if id in registry {
        queue := queue + {Entry(HeapKey(now + delay), counter, now + delay, registry[id])};
        counter := counter + 1;
      }
      Stepped(s, action);
    }

    method EnqueueEvent(id: string) returns (ghost action: Action)
      requires Valid()
      modifies this
      ensures action.Enqueue? && action.id == id && action.now == clock
      ensures Valid() && Step(old(Abs()), action, Abs())
    {
      ghost var s := Abs();
      var asked := Now();
      var dated := asked;
      if id in registry && registry[id] in objects && objects[registry[id]].interval != 0 {
        var o := registry[id];
        var event := objects[o];
        if event.next.None? || event.next.value < asked {
          dated := Now();
          objects := objects[o := event.(next := Some(dated + event.interval))];
          var now := Now();
          beats := beats[o := BeatsOf(s, o) + [Beat(dated, Entry(HeapKey(now), counter, now, o))]];
          queue := queue + {Entry(HeapKey(now), counter, now, o)};
          counter := counter + 1;
        }
      }
      action := Enqueue(id, asked, dated, clock);
      Stepped(s, action);
    }

    /** One turn of the processing loop; nothing comes back when there is nothing to trigger. */
    method ProcessNext() returns (popped: Option<Entry>)
      requires Valid()
      modifies this
      ensures Valid() && Step(old(Abs()), Action.Process(clock), Abs())
      ensures popped.None? ==> NothingDue()
      ensures popped.Some? ==> Abs() == Fire(old(Abs()), popped.value, clock) && First(popped.value, old(queue))
    {
      ghost var s := Abs();
      popped := None;
      if queue == {} {
        Stepped(s, Action.Process(clock));
        return;
      }
      FirstExists(queue);
      var e :| First(e, queue);
      var now := Now();
      if e.key <= HeapKey(now) {
        queue := queue - {e};
        fired := fired + [Firing(e, now)];
        popped := Some(e);
      }
      Stepped(s, Action.Process(now));
    }

    ghost predicate NothingDue()
      reads this
    {
      forall e :: e in queue ==> e.key > HeapKey(clock)
    }

    method RunTrigger(schedules: seq<(string, nat)>, ghost s: State, ghost before: seq<Action>) returns (ghost actions: seq<Action>)
      requires Valid() && Steps(s, before, Abs())
      modifies this
      ensures Valid() && Steps(s, actions, Abs())
    {
      actions := before;
      for i := 0 to |schedules|
        invariant Valid() && Steps(s, actions, Abs())
      {
        ghost var m := Abs();
        ghost var action := ScheduleEvent(schedules[i].0, schedules[i].1);
        StepsThen(s, actions, m, action, Abs());
        actions := actions + [action];
      }
    }

    /** The processing loop, for as many triggers as are given: when it drains the queue, nothing is left that is due. */
    method Process(triggers: seq<Trigger>) returns (ending: Ending, ghost actions: seq<Action>)
      requires Valid()
      modifies this
      ensures Valid() && Steps(old(Abs()), actions, Abs())
      ensures ending.Drained? ==> NothingDue()
    {
      ghost var s := Abs();
      actions := [];
      for i := 0 to |triggers|
        invariant Valid() && Steps(s, actions, Abs())
      {
        ghost var m := Abs();
        var popped := ProcessNext();
        StepsThen(s, actions, m, Action.Process(clock), Abs());
        actions := actions + [Action.Process(clock)];
        if popped.None? {
          return Drained, actions;
        }
        actions := RunTrigger(triggers[i].schedules, s, actions);
        if triggers[i].raises {
          return Raised, actions;
        }
      }
      ending := Running;
    }
  }
}
