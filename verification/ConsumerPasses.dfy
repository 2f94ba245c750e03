/** One pass of a consumer that nothing interrupts, as the code makes it, and that it is a run of the protocol. */
module ConsumerPasses {
  import opened ChatSync
  import opened EventLog
  import opened Runs

  function Next(s: State, step: Step): Outcome<State> {
    if Enabled(s, step) then Reached(Apply(s, step)) else Stuck
  }

  /** The events a consumer lists: at most 500 for the app, at most 50 for a push helper. */
  function Listed(s: State, who: Consumer): seq<Event> {
    Listing(s.stored, s.cursor, if who == App then 500 else 50)
  }

  function Handling(who: Consumer, n: nat): (steps: seq<Step>)
    ensures |steps| == n
  {
    if n == 0 then [] else [Dispatch(who)] + Handling(who, n - 1)
  }

  function PassOf(s: State, who: Consumer): seq<Step> {
    var batch := Listed(s, who);
    if batch == [] then [ReadCursor(who), List(who)]
    else [ReadCursor(who), List(who)] + Handling(who, |batch|) + [Delete(who), Persist(who)]
  }

  /** Where the consumer is listed as being, as it is in the middle of a pass. */
  ghost predicate At(s: State, who: Consumer, phase: Phase) {
    PhaseOf(s, who) == phase
  }

  lemma BeginLeads(s: State, who: Consumer) returns (t: State)
    requires At(s, who, Idle)
    ensures Leads(Next, s, [ReadCursor(who), List(who)], t)
    ensures t.(phases := s.phases) == s
    ensures var batch := Listed(s, who);
            if batch == [] then At(t, who, Idle)
            else At(t, who, Dispatching(s.cursor, batch, batch[|batch| - 1].id, |batch| >= if who == App then 500 else 50))
  {
    var ready := Apply(s, ReadCursor(who));
    t := Apply(ready, List(who));
    OneStep(Next, ready, List(who));
    assert [ReadCursor(who), List(who)][1..] == [List(who)];
  }

  lemma {:induction false} HandlingLeads(s: State, who: Consumer, lastId: nat, rest: seq<Event>, maxId: nat, full: bool) returns (t: State)
    requires At(s, who, Dispatching(lastId, rest, maxId, full))
    ensures Leads(Next, s, Handling(who, |rest|), t)
    ensures t.(phases := s.phases, handled := s.handled) == s && t.handled == s.handled + rest
    ensures At(t, who, Dispatching(lastId, [], maxId, full))
    decreases |rest|
  {
    if rest == [] {
      t := s;
    } else {
      var next := Apply(s, Dispatch(who));
      t := HandlingLeads(next, who, lastId, rest[1..], maxId, full);
      assert Handling(who, |rest|)[1..] == Handling(who, |rest| - 1);
      assert rest == [rest[0]] + rest[1..];
    }
  }

  lemma EndLeads(s: State, who: Consumer, lastId: nat, maxId: nat, full: bool) returns (t: State)
    requires At(s, who, Dispatching(lastId, [], maxId, full))
    ensures Leads(Next, s, [Delete(who), Persist(who)], t)
    ensures t.issued == s.issued && t.handled == s.handled && t.stored == After(s.stored, maxId) && t.cursor == maxId
    ensures At(t, who, if who == App && full then Ready(maxId) else Idle)
  {
    var deleted := Apply(s, Delete(who));
    t := Apply(deleted, Persist(who));
    OneStep(Next, deleted, Persist(who));
    assert [Delete(who), Persist(who)][1..] == [Persist(who)];
  }

  /**
   Left alone, the protocol does what one pass of the code does: the events listed are handled in order, the
   table loses them and what lies before, and the cursor moves to the last; of an empty listing nothing comes.
   The app goes on after a full batch.
   */
  lemma UninterruptedPass(s: State, who: Consumer) returns (t: State)
    requires PhaseOf(s, who).Idle?
    ensures Leads(Next, s, PassOf(s, who), t) && t.issued == s.issued
    ensures var batch := Listed(s, who);
            && t.handled == s.handled + batch
            && (batch == [] ==> t.stored == s.stored && t.cursor == s.cursor && PhaseOf(t, who).Idle?)
            && (batch != [] ==>
                  && t.cursor == batch[|batch| - 1].id && t.stored == After(s.stored, t.cursor)
                  && PhaseOf(t, who) == if who == App && |batch| >= 500 then Ready(t.cursor) else Idle)
    ensures forall i :: 0 <= i < |PassOf(s, who)| ==> Undisturbed(PassOf(s, who)[i], who)
  {
    var batch := Listed(s, who);
    var begun := BeginLeads(s, who);
    PassIsUndisturbed(s, who);
    if batch == [] {
      t := begun;
    } else {
      var maxId, full := batch[|batch| - 1].id, |batch| >= if who == App then 500 else 50;
      var handled := HandlingLeads(begun, who, s.cursor, batch, maxId, full);
      t := EndLeads(handled, who, s.cursor, maxId, full);
      LeadsOn(Next, s, [ReadCursor(who), List(who)], begun, Handling(who, |batch|), handled);
      LeadsOn(Next, s, [ReadCursor(who), List(who)] + Handling(who, |batch|), handled, [Delete(who), Persist(who)], t);
    }
  }

  /** A consumer that broke off, wherever it was, makes a whole pass when it starts again. */
  lemma PassAfterAbort(s: State, who: Consumer) returns (t: State)
    ensures var free := Apply(s, Abort(who));
            && free.(phases := s.phases) == s
            && Leads(Next, s, [Abort(who)] + PassOf(free, who), t)
            && t.handled == s.handled + Listed(s, who) && t.issued == s.issued
  {
    var free := Apply(s, Abort(who));
    t := UninterruptedPass(free, who);
    OneStep(Next, s, Abort(who));
    LeadsOn(Next, s, [Abort(who)], free, PassOf(free, who), t);
  }

  /** So any run may go on with such a pass. */
  lemma RunGoesOn(steps: seq<Step>, who: Consumer) returns (t: State)
    requires Run(steps).Reached?
    ensures var s := Run(steps).state;
            && Run(steps + ([Abort(who)] + PassOf(Apply(s, Abort(who)), who))) == Reached(t)
            && t.handled == s.handled + Listed(s, who)
  {
    var s := Run(steps).state;
    t := PassAfterAbort(s, who);
    var run := (xs: seq<Step>) => Run(xs);
    forall xs, x | run(xs).Reached? ensures run(xs + [x]) == Next(run(xs).state, x) {
      assert (xs + [x])[..|xs|] == xs;
    }
    ReachedThen(Next, run, steps, [Abort(who)] + PassOf(Apply(s, Abort(who)), who), t);
  }

  lemma {:induction false} HandlingIsUndisturbed(who: Consumer, n: nat)
    ensures forall i :: 0 <= i < n ==> Undisturbed(Handling(who, n)[i], who)
  {
    if n > 0 {
      HandlingIsUndisturbed(who, n - 1);
    }
  }

  lemma PassIsUndisturbed(s: State, who: Consumer)
    ensures forall i :: 0 <= i < |PassOf(s, who)| ==> Undisturbed(PassOf(s, who)[i], who)
  {
    HandlingIsUndisturbed(who, |Listed(s, who)|);
  }
}
