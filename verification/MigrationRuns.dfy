/** That migrations come to an end: wherever a run was cut off, starting again and leaving it alone finishes it. */
module MigrationRuns {
  import opened KeyValue
  import opened Options
  import opened Runs
  import opened StorageMigrations

  function Next(p: string -> bool): (State, Step) -> Outcome<State> {
    (s: State, step: Step) => if Enabled(s, step) then Reached(Apply(p, s, step)) else Stuck
  }

  /** What is left to do at a version: pages, then the version itself. */
  function PagesLeft(p: string -> bool, s: State): nat {
    if s.phase.Migrating? then |Remaining(s.rows, p, s.phase.cursor, false)| else 0
  }

  /** The pages of one version, from where the run stands, up to the last. */
  lemma {:induction false} PagesLead(p: string -> bool, s: State, target: seq<Row<Json>>) returns (steps: seq<Step>, t: State)
    requires Invariant(p, s, target) && s.phase.Migrating?
    ensures Leads(Next(p), s, steps, t) && Invariant(p, t, target)
    ensures t.version == s.version && t.phase == Storing(s.version + 1)
    decreases PagesLeft(p, s)
  {
    var cursor := s.phase.cursor;
    var after := Apply(p, s, RewritePage);
    StepKeepsInvariant(p, s, RewritePage, target);
    OneStep(Next(p), s, RewritePage);
    if after.phase.Storing? {
      steps, t := [RewritePage], after;
    } else {
      PageProgress(MIGRATIONS[s.version], p, s.rows, cursor);
      FewerRemain(p, s.rows, cursor);
      var more;
      more, t := PagesLead(p, after, target);
      LeadsOn(Next(p), s, [RewritePage], after, more, t);
      steps := [RewritePage] + more;
    }
  }

  /** The version that follows: its pages, and its number stored. */
  lemma VersionLeads(p: string -> bool, s: State, target: seq<Row<Json>>) returns (steps: seq<Step>, t: State)
    requires Invariant(p, s, target) && s.phase.Migrating?
    ensures Leads(Next(p), s, steps, t) && Invariant(p, t, target)
    ensures t.version == s.version + 1 && (t.version < |MIGRATIONS| ==> t.phase.Migrating?)
  {
    var pages, stored := PagesLead(p, s, target);
    t := Apply(p, stored, StoreVersion);
    StepKeepsInvariant(p, stored, StoreVersion, target);
    OneStep(Next(p), stored, StoreVersion);
    LeadsOn(Next(p), s, pages, stored, [StoreVersion], t);
    steps := pages + [StoreVersion];
  }

  lemma {:induction false} VersionsLead(p: string -> bool, s: State, target: seq<Row<Json>>) returns (steps: seq<Step>, t: State)
    requires Invariant(p, s, target) && (s.version < |MIGRATIONS| ==> s.phase.Migrating?)
    ensures Leads(Next(p), s, steps, t) && t.version == |MIGRATIONS| && t.rows == target
    decreases |MIGRATIONS| - s.version
  {
    if s.version == |MIGRATIONS| {
      steps, t := [], s;
    } else {
      var first, between := VersionLeads(p, s, target);
      var more;
      more, t := VersionsLead(p, between, target);
      LeadsOn(Next(p), s, first, between, more, t);
      steps := first + more;
    }
  }

  /**
   From wherever a run was cut off, a new start that is left alone stores the last version, and the table has then
   lost the fields of all migrations after the version the first run started from, and nothing else.
   */
  lemma RestartFinishes(p: string -> bool, first: State, steps: seq<Step>) returns (more: seq<Step>, t: State)
    requires Ordered(first.rows) && first.version <= |MIGRATIONS| && first.phase.Stopped?
    requires Run(p, first, steps).Reached?
    ensures Run(p, first, steps + more) == Reached(t)
    ensures t.version == 3 && FieldsRemoved(FieldsAfter(first.version), p, first.rows, t.rows)
  {
    var s, target := Run(p, first, steps).state, Target(p, first.rows, first.version);
    RunKeepsInvariant(p, first, steps);
    TargetLosesFields(p, first.rows, first.version);
    var stopped := Apply(p, s, Crash);
    OneStep(Next(p), s, Crash);
    if stopped.version == |MIGRATIONS| {
      more, t := [Crash], stopped;
    } else {
      var started := Apply(p, stopped, Start);
      StepKeepsInvariant(p, s, Crash, target);
      StepKeepsInvariant(p, stopped, Start, target);
      OneStep(Next(p), stopped, Start);
      LeadsOn(Next(p), s, [Crash], stopped, [Start], started);
      var rest;
      rest, t := VersionsLead(p, started, target);
      LeadsOn(Next(p), s, [Crash] + [Start], started, rest, t);
      more := [Crash] + [Start] + rest;
    }
    RunThen(p, first, steps, more, t);
  }

  lemma RunThen(p: string -> bool, first: State, steps: seq<Step>, more: seq<Step>, t: State)
    requires Run(p, first, steps).Reached? && Leads(Next(p), Run(p, first, steps).state, more, t)
    ensures Run(p, first, steps + more) == Reached(t)
  {
    var run := (xs: seq<Step>) => Run(p, first, xs);
    forall xs, x | run(xs).Reached? ensures run(xs + [x]) == Next(p)(run(xs).state, x) {
      assert (xs + [x])[..|xs|] == xs;
    }
    ReachedThen(Next(p), run, steps, more, t);
  }
}
