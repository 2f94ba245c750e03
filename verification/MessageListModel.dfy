/**
 The list a chat page shows. It keeps its rows sorted and indexed through resets, upserts and patches,
 and tells the views connected to it what changed, row by row.
 */
module MessageListModel {
  import opened MessageRows
  import opened AliasIndex

  // ---- what a connected view sees ---------------------------------------------------------------

  /** Each signal carries what the view reads from the model when it receives it. */
  datatype Signal =
    | ModelReset(rows: seq<Message>)
    | RowsInserted(first: nat, items: seq<Message>)
    | RowMoved(source: nat, destinationChild: nat)
    | DataChanged(row: nat, item: Message)
    | CountChanged(count: nat)

  datatype View = View(rows: seq<Message>, count: nat)

  const EMPTY_VIEW := View([], 0)

  /** Qt's rules: rows are inserted within bounds, and no row moves to just before or after itself. */
  predicate Legal(v: View, s: Signal) {
    match s
    case ModelReset(_) => true
    case RowsInserted(first, items) => first <= |v.rows| && items != []
    case RowMoved(source, child) => source < |v.rows| && child <= |v.rows| && child != source && child != source + 1
    case DataChanged(row, _) => row < |v.rows|
    case CountChanged(_) => true
  }

  function Observe(v: View, s: Signal): View
    requires Legal(v, s)
  {
    match s
    case ModelReset(rows) => v.(rows := rows)
    case RowsInserted(first, items) => v.(rows := v.rows[..first] + items + v.rows[first..])
    case RowMoved(source, child) =>
      var destination := if child > source then child - 1 else child;
      v.(rows := Move(v.rows, source, destination))
    case DataChanged(row, item) => v.(rows := v.rows[row := item])
    case CountChanged(count) => v.(count := count)
  }

  /** A moved row first shows its old content at the new place, then the new content. */
  lemma MoveSignals(v: View, i: nat, destination: nat, m: Message)
    requires i < |v.rows| && destination < |v.rows| && destination != i
    ensures var s := RowMoved(i, if destination > i then destination + 1 else destination);
            && Legal(v, s)
            && Legal(Observe(v, s), DataChanged(destination, m))
            && Observe(Observe(v, s), DataChanged(destination, m)) == v.(rows := Move(v.rows[i := m], i, destination))
            && Move(v.rows[i := m], i, destination) == InsertAt(RemoveAt(v.rows, i), destination, m)
            && Move(v.rows[i := m], i, destination)[destination] == m
  {
    MoveAndOverwrite(v.rows, i, destination, m);
  }

  datatype Playback = Illegal | Shown(view: View)

  /** A view that starts empty and follows every signal. */
  function Replay(signals: seq<Signal>): Playback {
    if signals == [] then Shown(EMPTY_VIEW)
    else
      var last := |signals| - 1;
      match Replay(signals[..last])
      case Illegal => Illegal
      case Shown(v) => if Legal(v, signals[last]) then Shown(Observe(v, signals[last])) else Illegal
  }

  // ---- the model as a value ---------------------------------------------------------------------

  datatype Model = Model(rows: seq<Message>, index: Index)

  ghost predicate Consistent(s: Model) {
    Sorted(s.rows) && Sound(s.rows, s.index)
  }

  function UpdateAt(s: Model, i: nat, m: Message): Model
    requires i < |s.rows|
  {
    if s.rows[i] == m then s
    else
      var remaining := RemoveAt(s.rows, i);
      var destination := InsertIndex(m, remaining);
      var rows := InsertAt(remaining, destination, m);
      Model(rows, if destination == i then ReplaceAliases(s.index, i, s.rows[i], m) else IndexOf(rows))
  }

  lemma FindIsRow(s: Model, m: Message)
    requires Consistent(s)
    ensures Find(s.index, m) < |s.rows|
  {
  }

  lemma ReinsertIsReplace(rows: seq<Message>, i: nat, m: Message)
    requires Sorted(rows) && i < |rows|
    ensures multiset(Insert(RemoveAt(rows, i), m)) == multiset(rows[i := m])
    ensures m in Insert(RemoveAt(rows, i), m)
  {
    InsertKeepsSorted(RemoveAt(rows, i), m);
    assert rows[i := m] == rows[..i] + [m] + rows[i + 1..];
    assert m in multiset(Insert(RemoveAt(rows, i), m));
  }

  lemma SameBagSameDisjoint(a: seq<Message>, b: seq<Message>)
    requires multiset(a) == multiset(b)
    ensures Disjoint(a) <==> Disjoint(b)
  {
    DisjointIsDisjointBag(a);
    DisjointIsDisjointBag(b);
  }

  lemma UpdateInPlace(rows: seq<Message>, i: nat, m: Message)
    requires i < |rows|
    ensures InsertAt(RemoveAt(rows, i), i, m) == rows[i := m]
  {
  }

  lemma UpdateAtIsConsistent(s: Model, i: nat, m: Message)
    requires Consistent(s) && i < |s.rows|
    ensures Consistent(UpdateAt(s, i, m))
    ensures multiset(UpdateAt(s, i, m).rows) == multiset(s.rows[i := m])
    ensures m in UpdateAt(s, i, m).rows
  {
    if s.rows[i] == m {
      assert s.rows[i := m] == s.rows;
    } else {
      InsertKeepsSorted(RemoveAt(s.rows, i), m);
      ReinsertIsReplace(s.rows, i, m);
      UpdateAtIsSound(s, i, m);
    }
  }

  lemma UpdateAtIsSound(s: Model, i: nat, m: Message)
    requires Sound(s.rows, s.index) && i < |s.rows|
    ensures Sound(UpdateAt(s, i, m).rows, UpdateAt(s, i, m).index)
  {
    UpdateInPlace(s.rows, i, m);
    ReplaceKeepsSound(s.rows, s.index, i, m);
    IndexOfIsSound(UpdateAt(s, i, m).rows);
  }

  /** Updating a row keeps the index exact exactly when the new message's identifiers lead nowhere else. */
  lemma UpdateAtIsExact(s: Model, i: nat, m: Message)
    requires Consistent(s) && Exact(s.rows, s.index) && i < |s.rows|
    ensures Fits(s.index, i, m) <==> Exact(UpdateAt(s, i, m).rows, UpdateAt(s, i, m).index)
    ensures Fits(s.index, i, m) <==> Disjoint(UpdateAt(s, i, m).rows)
  {
    ReplaceIsExact(s.rows, s.index, i, m);
    var after := UpdateAt(s, i, m);
    if s.rows[i] == m {
      assert s.rows[i := m] == s.rows;
    } else if InsertIndex(m, RemoveAt(s.rows, i)) == i {
      UpdateInPlace(s.rows, i, m);
    } else {
      IndexOfIsExact(after.rows);
      ReinsertIsReplace(s.rows, i, m);
      SameBagSameDisjoint(after.rows, s.rows[i := m]);
    }
  }

  /** The first half of an upsert: known messages are updated in place, the others are set aside. */
  datatype Split = Split(model: Model, unplaced: seq<Message>)

  function UpsertStep(u: Split, m: Message): (r: Split)
    requires Consistent(u.model)
    ensures Consistent(r.model)
  {
    var i := Find(u.model.index, m);
    if i < 0 then Split(u.model, u.unplaced + [m])
    else
      UpdateAtIsConsistent(u.model, i, m);
      Split(UpdateAt(u.model, i, m), u.unplaced)
  }

  function UpsertKnown(s: Model, ms: seq<Message>): (u: Split)
    requires Consistent(s)
    ensures Consistent(u.model)
  {
    if ms == [] then Split(s, []) else UpsertStep(UpsertKnown(s, ms[..|ms| - 1]), ms[|ms| - 1])
  }

  lemma UpsertKnownNext(s: Model, ms: seq<Message>, k: nat)
    requires Consistent(s) && k < |ms|
    ensures UpsertKnown(s, ms[..k + 1]) == UpsertStep(UpsertKnown(s, ms[..k]), ms[k])
  {
    assert ms[..k + 1][..k] == ms[..k];
  }

  /** The second half: what was set aside is sorted, in some way, and inserted. */
  ghost predicate InsertsUnplaced(u: Split, after: Model) {
    if u.unplaced == [] then after == u.model
    else exists p :: SortedListing(p, u.unplaced) && after == Model(InsertAll(u.model.rows, p), IndexOf(after.rows))
  }

  ghost predicate IsUpsert(before: Model, batch: seq<Message>, after: Model)
    requires Consistent(before)
  {
    InsertsUnplaced(UpsertKnown(before, Normalize(batch)), after)
  }

  /** An upsert adds one row for each message it could not place and none otherwise. */
  lemma UpsertIsConsistent(before: Model, batch: seq<Message>, after: Model)
    requires Consistent(before) && IsUpsert(before, batch, after)
    ensures Consistent(after)
    ensures var u := UpsertKnown(before, Normalize(batch));
            multiset(after.rows) == multiset(u.model.rows) + multiset(u.unplaced)
  {
    var u := UpsertKnown(before, Normalize(batch));
    if u.unplaced != [] {
      var p :| SortedListing(p, u.unplaced) && after == Model(InsertAll(u.model.rows, p), IndexOf(after.rows));
      InsertAllKeepsSorted(u.model.rows, p);
      IndexOfIsSound(after.rows);
    }
  }

  // ---- exactness over an upsert ------------------------------------------------------------------

  /** No message of the batch bridges two rows of the list when its turn to update comes. */
  ghost predicate BridgesNoRows(s: Model, ms: seq<Message>)
    requires Consistent(s)
  {
    forall k :: 0 <= k < |ms| ==> !Bridges(UpsertKnown(s, ms[..k]).model.index, ms[k])
  }

  ghost predicate Apart(unplaced: seq<Message>, rows: seq<Message>) {
    forall f, i :: f in unplaced && 0 <= i < |rows| ==> Aliases(f) !! Aliases(rows[i])
  }

  lemma UpsertStepIsExact(u: Split, m: Message)
    requires Consistent(u.model) && Exact(u.model.rows, u.model.index) && !Bridges(u.model.index, m)
    requires Disjoint(u.unplaced) && Apart(u.unplaced, u.model.rows)
    requires forall f :: f in u.unplaced ==> Aliases(f) !! Aliases(m)
    ensures var r := UpsertStep(u, m);
            Exact(r.model.rows, r.model.index) && Disjoint(r.unplaced) && Apart(r.unplaced, r.model.rows)
  {
    var i := Find(u.model.index, m);
    if i < 0 {
      forall k, a | 0 <= k < |u.model.rows| && a in Aliases(u.model.rows[k]) ensures a !in Aliases(m) {
        assert a in u.model.index;
      }
    } else {
      BridgesMeansNoFit(u.model.index, m);
      UpdateAtIsExact(u.model, i, m);
      StaysApart(u, i, m);
    }
  }

  lemma StaysApart(u: Split, i: nat, m: Message)
    requires Consistent(u.model) && i < |u.model.rows|
    requires Apart(u.unplaced, u.model.rows)
    requires forall f :: f in u.unplaced ==> Aliases(f) !! Aliases(m)
    ensures Apart(u.unplaced, UpdateAt(u.model, i, m).rows)
  {
    UpdateAtIsConsistent(u.model, i, m);
    var after := UpdateAt(u.model, i, m).rows;
    forall f, k | f in u.unplaced && 0 <= k < |after| ensures Aliases(f) !! Aliases(after[k]) {
      assert after[k] in multiset(after);
      assert after[k] in multiset(u.model.rows[i := m]);
      assert after[k] in u.model.rows[i := m];
    }
  }

  lemma {:induction false} UpsertKnownIsExact(s: Model, ms: seq<Message>, n: nat)
    requires Consistent(s) && Exact(s.rows, s.index) && Disjoint(ms)
    requires n <= |ms| && BridgesNoRows(s, ms)
    ensures var u := UpsertKnown(s, ms[..n]);
            Exact(u.model.rows, u.model.index) && Disjoint(u.unplaced) && Apart(u.unplaced, u.model.rows)
    ensures forall f :: f in UpsertKnown(s, ms[..n]).unplaced ==> f in ms[..n]
  {
    if n > 0 {
      UpsertKnownIsExact(s, ms, n - 1);
      assert ms[..n][..n - 1] == ms[..n - 1];
      var u := UpsertKnown(s, ms[..n - 1]);
      forall f | f in u.unplaced ensures Aliases(f) !! Aliases(ms[n - 1]) {
        var j :| 0 <= j < n - 1 && ms[j] == f;
      }
      UpsertStepIsExact(u, ms[n - 1]);
    }
  }

  ghost predicate ExactAfter(s: Model, ms: seq<Message>, k: nat)
    requires Consistent(s) && k <= |ms|
  {
    var m := UpsertKnown(s, ms[..k]).model;
    Exact(m.rows, m.index)
  }

  /** The index stays exact through the updates of a batch exactly when no message bridges two rows in its turn. */
  lemma UpsertKnownIsExactUnlessBridged(s: Model, ms: seq<Message>)
    requires Consistent(s) && Exact(s.rows, s.index)
    ensures (forall k :: 0 <= k <= |ms| ==> ExactAfter(s, ms, k)) <==> BridgesNoRows(s, ms)
  {
    if BridgesNoRows(s, ms) {
      forall k | 0 <= k <= |ms| ensures ExactAfter(s, ms, k) {
        UnbridgedIsExact(s, ms, k);
      }
    }
    if forall k :: 0 <= k <= |ms| ==> ExactAfter(s, ms, k) {
      forall k | 0 <= k < |ms| ensures !Bridges(UpsertKnown(s, ms[..k]).model.index, ms[k]) {
        assert ExactAfter(s, ms, k) && ExactAfter(s, ms, k + 1);
        BridgedIsNotExact(s, ms, k);
      }
    }
  }

  lemma {:induction false} UnbridgedIsExact(s: Model, ms: seq<Message>, k: nat)
    requires Consistent(s) && Exact(s.rows, s.index) && k <= |ms| && BridgesNoRows(s, ms)
    ensures ExactAfter(s, ms, k)
  {
    if k > 0 {
      UnbridgedIsExact(s, ms, k - 1);
      assert ms[..k][..k - 1] == ms[..k - 1];
      var m := UpsertKnown(s, ms[..k - 1]).model;
      var i := Find(m.index, ms[k - 1]);
      if i >= 0 {
        BridgesMeansNoFit(m.index, ms[k - 1]);
        UpdateAtIsExact(m, i, ms[k - 1]);
      }
    }
  }

  lemma BridgedIsNotExact(s: Model, ms: seq<Message>, k: nat)
    requires Consistent(s) && k < |ms| && ExactAfter(s, ms, k) && ExactAfter(s, ms, k + 1)
    ensures !Bridges(UpsertKnown(s, ms[..k]).model.index, ms[k])
  {
    assert ms[..k + 1][..k] == ms[..k];
    var m := UpsertKnown(s, ms[..k]).model;
    var i := Find(m.index, ms[k]);
    if i >= 0 {
      BridgesMeansNoFit(m.index, ms[k]);
      UpdateAtIsExact(m, i, ms[k]);
    }
  }

  lemma UnplacedAreDisjoint(u: Split)
    requires Disjoint(u.model.rows) && Disjoint(u.unplaced) && Apart(u.unplaced, u.model.rows)
    ensures DisjointBag(multiset(u.model.rows) + multiset(u.unplaced))
  {
    var all := u.model.rows + u.unplaced;
    forall i, j | 0 <= i < |all| && 0 <= j < |all| && i != j ensures Aliases(all[i]) !! Aliases(all[j]) {
      if i >= |u.model.rows| && j < |u.model.rows| {
        assert all[i] in u.unplaced;
      }
      if j >= |u.model.rows| && i < |u.model.rows| {
        assert all[j] in u.unplaced;
      }
    }
    DisjointIsDisjointBag(all);
  }

  /**
   Main result for an upsert: if no message bridges two entries of its own batch, and none bridges two
   rows of the list, the list stays disjoint and exactly indexed.
   */
  lemma UpsertIsExact(before: Model, batch: seq<Message>, after: Model)
    requires Consistent(before) && Exact(before.rows, before.index)
    requires IsUpsert(before, batch, after)
    requires forall k :: 0 <= k < |batch| ==> !Bridges(NormalizeTable(batch[..k]).index, batch[k])
    requires BridgesNoRows(before, Normalize(batch))
    ensures Exact(after.rows, after.index) && Disjoint(after.rows)
  {
    var ms := Normalize(batch);
    assert Disjoint(ms) by {
      NormalizeCleanIsExact(batch, |batch|);
      assert batch[..|batch|] == batch;
      ExactMeansDisjoint(ms, NormalizeTable(batch).index);
    }
    UpsertKnownIsExact(before, ms, |ms|);
    assert ms[..|ms|] == ms;
    var u := UpsertKnown(before, ms);
    ExactMeansDisjoint(u.model.rows, u.model.index);
    if u.unplaced != [] {
      UpsertIsConsistent(before, batch, after);
      UnplacedAreDisjoint(u);
      DisjointIsDisjointBag(after.rows);
      IndexOfIsExact(after.rows);
    }
  }

  /** An update displaces no message but those it shares an identifier with. */
  lemma UpdateAtKeepsOthers(s: Model, m: Message, kept: Message)
    requires Consistent(s) && Find(s.index, m) >= 0
    requires kept in s.rows && Aliases(kept) !! Aliases(m)
    ensures kept in UpdateAt(s, Find(s.index, m), m).rows
  {
    var i := Find(s.index, m);
    var k :| 0 <= k < |s.rows| && s.rows[k] == kept;
    UpdateAtIsConsistent(s, i, m);
    assert s.rows[i := m][k] == kept;
    assert kept in multiset(s.rows[i := m]);
    assert kept in multiset(UpdateAt(s, i, m).rows);
  }

  ghost predicate Placed(u: Split, m: Message) {
    m in u.model.rows || m in u.unplaced
  }

  /** With a disjoint batch nothing is lost: every coalesced message ends up as a row. */
  lemma {:induction false} UpsertKnownKeepsBatch(s: Model, ms: seq<Message>, n: nat, j: nat)
    requires Consistent(s) && Disjoint(ms) && j < n <= |ms|
    ensures Placed(UpsertKnown(s, ms[..n]), ms[j])
  {
    assert ms[..n][..n - 1] == ms[..n - 1];
    var u, m := UpsertKnown(s, ms[..n - 1]), ms[n - 1];
    assert UpsertKnown(s, ms[..n]) == UpsertStep(u, m);
    var i := Find(u.model.index, m);
    if j == n - 1 {
      if i >= 0 {
        UpdateAtIsConsistent(u.model, i, m);
      }
    } else {
      UpsertKnownKeepsBatch(s, ms, n - 1, j);
      if i >= 0 && ms[j] in u.model.rows {
        UpdateAtKeepsOthers(u.model, m, ms[j]);
      }
    }
  }

  lemma UpsertShowsBatch(before: Model, batch: seq<Message>, after: Model)
    requires Consistent(before) && IsUpsert(before, batch, after) && Disjoint(Normalize(batch))
    ensures forall m :: m in Normalize(batch) ==> m in after.rows
  {
    var ms := Normalize(batch);
    UpsertIsConsistent(before, batch, after);
    var u := UpsertKnown(before, ms);
    forall m | m in ms ensures m in after.rows {
      var j :| 0 <= j < |ms| && ms[j] == m;
      UpsertKnownKeepsBatch(before, ms, |ms|, j);
      assert ms[..|ms|] == ms;
      assert m in multiset(u.model.rows) + multiset(u.unplaced);
      assert m in multiset(after.rows);
    }
  }

  /** Why the hypothesis is needed: a message joining two rows leaves its temporary id on both. */
  lemma BridgingBreaksDisjointness()
    ensures var server := map["id" := Value("s", 0, "")];
            var pending := map["id" := Value("p", 0, "")];
            var joining := map["id" := Value("s", 0, ""), "temp_id" := Value("p", 0, "")];
            var before := Model([server, pending], map["s" := 0, "p" := 1]);
            && Consistent(before) && Exact(before.rows, before.index)
            && Bridges(before.index, joining)
            && !Disjoint(UpdateAt(before, Find(before.index, joining), joining).rows)
  {
    var server: Message := map["id" := Value("s", 0, "")];
    var pending: Message := map["id" := Value("p", 0, "")];
    var joining: Message := map["id" := Value("s", 0, ""), "temp_id" := Value("p", 0, "")];
    assert MessageId(server) == "s" && MessageId(pending) == "p" && TempId(joining) == "p";
    var before := Model([server, pending], map["s" := 0, "p" := 1]);
    assert "p"[0] < "s"[0];
    assert Consistent(before);
    BridgesMeansNoFit(before.index, joining);
    UpdateAtIsExact(before, 0, joining);
  }

  // ---- the class ---------------------------------------------------------------------------------

  class MessageListModel {
    var messages: seq<Message>
    var indexesByAlias: Index
    var signals: seq<Signal>

    function State(): Model
      reads this
    {
      Model(messages, indexesByAlias)
    }

    /** A view connected from the start has followed only legal signals and shows exactly the rows. */
    ghost predicate Valid()
      reads this
    {
      Consistent(State()) && Replay(signals) == Shown(View(messages, |messages|))
    }

    constructor ()
      ensures Valid() && messages == [] && signals == []
    {
      messages, indexesByAlias, signals := [], map[], [];
    }

    method Emit(s: Signal, ghost v: View)
      requires Replay(signals) == Shown(v) && Legal(v, s)
      modifies this`signals
      ensures signals == old(signals) + [s]
      ensures Replay(signals) == Shown(Observe(v, s))
    {
      assert (signals + [s])[..|signals|] == signals;
      signals := signals + [s];
    }

    method RebuildIndexes()
      modifies this`indexesByAlias
      ensures indexesByAlias == IndexOf(messages)
    {
      indexesByAlias := map[];
      for i := 0 to |messages|
        invariant indexesByAlias == IndexOf(messages[..i])
      {
        assert messages[..i + 1][..i] == messages[..i];
        PutBoth(indexesByAlias, MessageId(messages[i]), TempId(messages[i]), i);
        indexesByAlias := Put(indexesByAlias, MessageId(messages[i]), i);
        indexesByAlias := Put(indexesByAlias, TempId(messages[i]), i);
      }
      assert messages[..|messages|] == messages;
    }

    method ReplaceAliasesAt(i: nat, previous: Message, m: Message)
      modifies this`indexesByAlias
      ensures indexesByAlias == ReplaceAliases(old(indexesByAlias), i, previous, m)
    {
      ForgetBoth(indexesByAlias, MessageId(previous), TempId(previous), i);
      indexesByAlias := Forget(indexesByAlias, MessageId(previous), i);
      indexesByAlias := Forget(indexesByAlias, TempId(previous), i);
      PutBoth(indexesByAlias, MessageId(m), TempId(m), i);
      indexesByAlias := Put(indexesByAlias, MessageId(m), i);
      indexesByAlias := Put(indexesByAlias, TempId(m), i);
    }

    method OverwriteRow(i: nat, m: Message)
      requires i < |messages| && Replay(signals) == Shown(View(messages, |messages|))
      modifies this
      ensures messages == old(messages)[i := m]
      ensures indexesByAlias == ReplaceAliases(old(indexesByAlias), i, old(messages[i]), m)
      ensures Replay(signals) == Shown(View(messages, |messages|)) && old(signals) <= signals
    {
      ghost var shown := View(messages, |messages|);
      var previous := messages[i];
      messages := messages[i := m];
      ReplaceAliasesAt(i, previous, m);
      Emit(DataChanged(i, m), shown);
    }

    method MoveRow(i: nat, destination: nat, m: Message)
      requires i < |messages| && destination < |messages| && destination != i
      requires Replay(signals) == Shown(View(messages, |messages|))
      modifies this
      ensures messages == InsertAt(RemoveAt(old(messages), i), destination, m)
      ensures indexesByAlias == IndexOf(messages)
      ensures Replay(signals) == Shown(View(messages, |messages|)) && old(signals) <= signals
    {
      ghost var shown := View(messages, |messages|);
      var destinationChild := if destination > i then destination + 1 else destination;
      MoveSignals(shown, i, destination, m);
      messages := messages[i := m];
      messages := Move(messages, i, destination);
      ghost var moved := Observe(shown, RowMoved(i, destinationChild));
      Emit(RowMoved(i, destinationChild), shown);
      assert messages[destination] == m && View(messages, |messages|) == Observe(moved, DataChanged(destination, m));
      RebuildIndexes();
      Emit(DataChanged(destination, messages[destination]), moved);
    }

    method UpdateMessageAt(i: nat, m: Message)
      requires Valid() && i < |messages|
      modifies this
      ensures Valid() && State() == UpdateAt(old(State()), i, m)
      ensures old(signals) <= signals
      ensures |messages| == old(|messages|)
    {
      if messages[i] == m {
        return;
      }
      UpdateAtIsConsistent(State(), i, m);
      var destination := DisplayInsertIndex(m, RemoveAt(messages, i));
      if destination == i {
        UpdateInPlace(messages, i, m);
        OverwriteRow(i, m);
      } else {
        MoveRow(i, destination, m);
      }
    }

    /** Each of the three ways of inserting a sorted batch amounts to inserting its messages one by one. */
    method PrependRows(p: seq<Message>)
      requires p != []
      requires Replay(signals) == Shown(View(messages, |messages|))
      modifies this`messages, this`signals
      ensures messages == p + old(messages)
      ensures Replay(signals) == Shown(View(messages, old(|messages|))) && old(signals) <= signals
    {
      ghost var before := messages;
      for k := |p| downto 0
        invariant messages == p[k..] + before && signals == old(signals)
      {
        messages := [p[k]] + messages;
      }
      Emit(RowsInserted(0, messages[..|p|]), View(before, |before|));
    }

    method AppendRows(p: seq<Message>)
      requires p != []
      requires Replay(signals) == Shown(View(messages, |messages|))
      modifies this`messages, this`signals
      ensures messages == old(messages) + p
      ensures Replay(signals) == Shown(View(messages, old(|messages|))) && old(signals) <= signals
    {
      ghost var before := messages;
      var first := |messages|;
      for k := 0 to |p|
        invariant messages == before + p[..k] && signals == old(signals)
      {
        messages := messages + [p[k]];
      }
      assert messages[first..] == p;
      Emit(RowsInserted(first, messages[first..]), View(before, |before|));
    }

    method InsertRows(p: seq<Message>)
      requires Sorted(messages)
      requires Replay(signals) == Shown(View(messages, |messages|))
      modifies this`messages, this`signals
      ensures messages == InsertAll(old(messages), p)
      ensures Replay(signals) == Shown(View(messages, old(|messages|))) && old(signals) <= signals
    {
      ghost var before := messages;
      for k := 0 to |p|
        invariant Sorted(messages) && InsertAll(messages, p[k..]) == InsertAll(before, p)
        invariant Replay(signals) == Shown(View(messages, |before|)) && old(signals) <= signals
      {
        ghost var shown := View(messages, |before|);
        InsertKeepsSorted(messages, p[k]);
        var at := DisplayInsertIndex(p[k], messages);
        messages := InsertAt(messages, at, p[k]);
        Emit(RowsInserted(at, [messages[at]]), shown);
        assert p[k..][1..] == p[k + 1..];
      }
    }

    method InsertNewMessages(unplaced: seq<Message>)
      requires Valid()
      modifies this
      ensures Consistent(State()) && InsertsUnplaced(Split(old(State()), unplaced), State())
      ensures |messages| == old(|messages|) + |unplaced|
      ensures Replay(signals) == Shown(View(messages, old(|messages|))) && old(signals) <= signals
    {
      var p := SortMessages(unplaced);
      if p == [] {
        return;
      }
      InsertAllKeepsSorted(messages, p);
      if messages == [] || DisplayBefore(p[|p| - 1], messages[0]) {
        PrependIsInsertAll(messages, p);
        PrependRows(p);
      } else if DisplayBefore(messages[|messages| - 1], p[0]) {
        AppendIsInsertAll(messages, p);
        AppendRows(p);
      } else {
        InsertRows(p);
      }
      RebuildIndexes();
      IndexOfIsSound(messages);
    }

    method Clear()
      requires Valid()
      modifies this
      ensures Valid() && State() == Model([], map[]) && old(signals) <= signals
    {
      if messages == [] {
        assert indexesByAlias == map[];
        return;
      }
      ghost var shown := View(messages, |messages|);
      messages, indexesByAlias := [], map[];
      Emit(ModelReset(messages), shown);
      Emit(CountChanged(|messages|), shown.(rows := []));
    }

    method ResetMessages(batch: seq<Message>)
      requires Valid()
      modifies this
      ensures Valid() && old(signals) <= signals
      ensures SortedListing(messages, Normalize(batch)) && indexesByAlias == IndexOf(messages)
    {
      var normalized := NormalizedMessages(batch);
      var next := SortMessages(normalized);
      var previousCount := |messages|;
      ghost var shown := View(messages, |messages|);
      messages := next;
      RebuildIndexes();
      IndexOfIsSound(messages);
      Emit(ModelReset(messages), shown);
      if previousCount != |messages| {
        Emit(CountChanged(|messages|), shown.(rows := messages));
      }
    }

    method UpsertMessages(batch: seq<Message>) returns (inserted: seq<Message>)
      requires Valid()
      modifies this
      ensures Valid() && IsUpsert(old(State()), batch, State())
      ensures inserted == UpsertKnown(old(State()), Normalize(batch)).unplaced
      ensures |messages| == old(|messages|) + |inserted| && old(signals) <= signals
    {
      var normalized := NormalizedMessages(batch);
      inserted := [];
      for k := 0 to |normalized|
        invariant Valid() && old(signals) <= signals && |messages| == old(|messages|)
        invariant Split(State(), inserted) == UpsertKnown(old(State()), normalized[..k])
      {
        var m := normalized[k];
        UpsertKnownNext(old(State()), normalized, k);
        var i := Find(indexesByAlias, m);
        if i >= 0 {
          UpdateMessageAt(i, m);
        } else {
          inserted := inserted + [m];
        }
      }
      assert normalized[..|normalized|] == normalized;
      if inserted != [] {
        ghost var count := |messages|;
        InsertNewMessages(inserted);
        Emit(CountChanged(|messages|), View(messages, count));
      }
    }

    /** Only the fields whose value differs are written; nothing happens when none does. */
    method PatchMessage(id: string, temp: string, patch: Message) returns (changed: bool)
      requires Valid()
      modifies this
      ensures Valid() && old(signals) <= signals
      ensures var i := Find(old(indexesByAlias), Lookup(id, temp));
              if i < 0 then !changed && State() == old(State())
              else
                var m := Patched(old(messages[i]), patch, patch.Keys);
                (changed <==> m != old(messages[i])) && State() == UpdateAt(old(State()), i, m)
    {
      var i := Find(indexesByAlias, Lookup(id, temp));
      if i < 0 {
        return false;
      }
      FindIsRow(State(), Lookup(id, temp));
      var m;
      m, changed := ApplyPatch(messages[i], patch);
      if changed {
        UpdateMessageAt(i, m);
      } else {
        assert UpdateAt(State(), i, m) == State();
      }
    }
  }

  method ApplyPatch(original: Message, patch: Message) returns (m: Message, changed: bool)
    ensures m == Patched(original, patch, patch.Keys)
    ensures changed <==> m != original
  {
    m, changed := original, false;
    var seen: set<string> := {};
    while seen != patch.Keys
      invariant seen <= patch.Keys
      invariant m == Patched(original, patch, seen)
      invariant changed <==> m != original
      decreases patch.Keys - seen
    {
      assert exists key :: key in patch.Keys && key !in seen;
      var key :| key in patch.Keys && key !in seen;
      PatchOne(original, patch, seen, key);
      if Get(m, key) != patch[key] {
        m := m[key := patch[key]];
        changed := true;
      }
      seen := seen + {key};
    }
  }

  function Lookup(id: string, temp: string): Message {
    map["id" := Value(id, 0, ""), "temp_id" := Value(temp, 0, "")]
  }

  /** The message with the given fields of the patch written, where they differ. */
  function Patched(m: Message, patch: Message, keys: set<string>): Message {
    m + map key | key in patch && key in keys && Get(m, key) != patch[key] :: patch[key]
  }

  /** Every field of the patch has its value there, and every other field is as before; none is added for nothing. */
  lemma PatchedFieldByField(m: Message, patch: Message)
    ensures var after := Patched(m, patch, patch.Keys);
            && (forall f :: f in patch ==> Get(after, f) == patch[f])
            && (forall f :: f !in patch ==> (f in after <==> f in m) && (f in m ==> after[f] == m[f]))
            && ((forall f :: f in patch ==> Get(m, f) == patch[f]) ==> after == m)
  {
  }

  lemma PatchOne(m: Message, patch: Message, keys: set<string>, key: string)
    requires key in patch && key !in keys
    ensures Get(Patched(m, patch, keys), key) == Get(m, key)
    ensures Patched(m, patch, keys + {key}) ==
            if Get(m, key) == patch[key] then Patched(m, patch, keys) else Patched(m, patch, keys)[key := patch[key]]
    ensures Get(m, key) != patch[key] ==> Patched(m, patch, keys + {key}) != m
  {
    assert Get(m, key) != patch[key] ==> Get(Patched(m, patch, keys + {key}), key) == patch[key];
  }

  /** The loop that coalesces a batch computes Normalize. */
  method NormalizedMessages(batch: seq<Message>) returns (normalized: seq<Message>)
    ensures normalized == Normalize(batch)
  {
    normalized := [];
    var index: Index := map[];
    for k := 0 to |batch|
      invariant Table(normalized, index) == NormalizeTable(batch[..k])
    {
      assert batch[..k + 1][..k] == batch[..k];
      var m := batch[k];
      if m != map[] {
        var id, temp := MessageId(m), TempId(m);
        var i: int := -1;
        if id != "" && id in index {
          i := index[id];
        }
        if i < 0 && temp != "" && temp in index {
          i := index[temp];
        }
        assert i == Find(index, m);
        if i < 0 {
          i := |normalized|;
          normalized := normalized + [m];
        } else {
          var previous := normalized[i];
          var previousId, previousTemp := MessageId(previous), TempId(previous);
          m := KeepTempId(m, previous);
          temp := TempId(m);
          ForgetBoth(index, previousId, previousTemp, i);
          index := Forget(index, previousId, i);
          index := Forget(index, previousTemp, i);
          normalized := normalized[i := m];
        }
        PutBoth(index, id, temp, i);
        index := Put(index, id, i);
        index := Put(index, temp, i);
      }
    }
    assert batch[..|batch|] == batch;
  }
}
