/**
 The map from a message's two identifiers, its server id and the temporary id it was sent under, to
 the row that holds it. Two readings of "the map is right" are kept apart: it is Sound when every
 entry points at a row carrying that identifier, and Exact when it also has an entry for every
 identifier of every row. Soundness survives anything; exactness survives a message exactly when its
 identifiers do not meet two different rows.
 */
module AliasIndex {
  import opened MessageRows

  type Index = map<string, nat>

  function Aliases(m: Message): set<string> {
    {MessageId(m), TempId(m)} - {""}
  }

  ghost predicate Sound(rows: seq<Message>, index: Index) {
    forall a :: a in index ==> index[a] < |rows| && a in Aliases(rows[index[a]])
  }

  ghost predicate Complete(rows: seq<Message>, index: Index) {
    forall i, a :: 0 <= i < |rows| && a in Aliases(rows[i]) ==> a in index && index[a] == i
  }

  /** The index is the inverse of the rows' identifiers. */
  ghost predicate Exact(rows: seq<Message>, index: Index) {
    Sound(rows, index) && Complete(rows, index)
  }

  /** No identifier is carried by two rows. */
  ghost predicate Disjoint(rows: seq<Message>) {
    forall i, j :: 0 <= i < |rows| && 0 <= j < |rows| && i != j ==> Aliases(rows[i]) !! Aliases(rows[j])
  }

  lemma ExactMeansDisjoint(rows: seq<Message>, index: Index)
    requires Complete(rows, index)
    ensures Disjoint(rows)
  {
    forall i, j, a | 0 <= i < |rows| && 0 <= j < |rows| && i != j && a in Aliases(rows[i])
      ensures a !in Aliases(rows[j])
    {
      assert index[a] == i;
    }
  }

  // ---- index operations ------------------------------------------------------------------------

  function Add(index: Index, aliases: set<string>, i: nat): Index {
    index + map a | a in aliases :: i
  }

  /** Forgets those of the identifiers that lead to row i. */
  function Drop(index: Index, aliases: set<string>, i: nat): Index {
    map a | a in index && !(a in aliases && index[a] == i) :: index[a]
  }

  /** One insertion of the map: nothing is filed under the empty text. */
  function Put(index: Index, alias: string, i: nat): Index {
    if alias == "" then index else index[alias := i]
  }

  /** One removal, guarded by the check that the entry still leads to row i. */
  function Forget(index: Index, alias: string, i: nat): Index {
    if alias != "" && alias in index && index[alias] == i then index - {alias} else index
  }

  lemma PutBoth(index: Index, id: string, temp: string, i: nat)
    ensures Put(Put(index, id, i), temp, i) == Add(index, {id, temp} - {""}, i)
  {
  }

  lemma ForgetBoth(index: Index, id: string, temp: string, i: nat)
    ensures Forget(Forget(index, id, i), temp, i) == Drop(index, {id, temp} - {""}, i)
  {
  }

  function ReplaceAliases(index: Index, i: nat, previous: Message, m: Message): Index {
    Add(Drop(index, Aliases(previous), i), Aliases(m), i)
  }

  function IndexOf(rows: seq<Message>): Index {
    if rows == [] then map[]
    else Add(IndexOf(rows[..|rows| - 1]), Aliases(rows[|rows| - 1]), |rows| - 1)
  }

  /** The row a message belongs to: by its id first, by its temporary id otherwise; -1 for none. */
  function Find(index: Index, m: Message): (i: int)
    ensures i >= 0 ==> exists a :: a in Aliases(m) && a in index && index[a] == i
    ensures MessageId(m) != "" && MessageId(m) in index ==> i == index[MessageId(m)]
    ensures i < 0 ==> forall a :: a in Aliases(m) ==> a !in index
  {
    var id, temp := MessageId(m), TempId(m);
    if id != "" && id in index then assert id in Aliases(m); index[id]
    else if temp != "" && temp in index then assert temp in Aliases(m); index[temp]
    else -1
  }

  /** Every identifier of the message that is already known leads to row i. */
  ghost predicate Fits(index: Index, i: nat, m: Message) {
    forall a :: a in Aliases(m) && a in index ==> index[a] == i
  }

  /** The message's id leads to one row and its temporary id to another. */
  predicate Bridges(index: Index, m: Message) {
    var id, temp := MessageId(m), TempId(m);
    id != "" && temp != "" && id in index && temp in index && index[id] != index[temp]
  }

  lemma BridgesMeansNoFit(index: Index, m: Message)
    requires Find(index, m) >= 0
    ensures Fits(index, Find(index, m), m) <==> !Bridges(index, m)
  {
    if Bridges(index, m) {
      assert TempId(m) in Aliases(m) && MessageId(m) in Aliases(m);
    }
  }

  lemma {:induction false} IndexOfIsSound(rows: seq<Message>)
    ensures Sound(rows, IndexOf(rows))
    ensures forall i, a :: 0 <= i < |rows| && a in Aliases(rows[i]) ==> a in IndexOf(rows)
  {
    if rows != [] {
      var front := rows[..|rows| - 1];
      IndexOfIsSound(front);
      forall i, a | 0 <= i < |rows| && a in Aliases(rows[i]) ensures a in IndexOf(rows) {
        if i < |front| {
          assert a in Aliases(front[i]);
        }
      }
    }
  }

  /** A rebuilt index is exact precisely when no identifier is shared. */
  lemma IndexOfIsExact(rows: seq<Message>)
    ensures Exact(rows, IndexOf(rows)) <==> Disjoint(rows)
  {
    IndexOfIsSound(rows);
    var index := IndexOf(rows);
    if Disjoint(rows) {
      forall i, a | 0 <= i < |rows| && a in Aliases(rows[i]) ensures a in index && index[a] == i {
        assert a in Aliases(rows[index[a]]);
      }
    }
    if Exact(rows, index) {
      ExactMeansDisjoint(rows, index);
    }
  }

  lemma ReplaceKeepsSound(rows: seq<Message>, index: Index, i: nat, m: Message)
    requires Sound(rows, index) && i < |rows|
    ensures Sound(rows[i := m], ReplaceAliases(index, i, rows[i], m))
  {
  }

  /** Overwriting row i keeps rows disjoint, and the index exact, exactly when the new message fits there. */
  lemma ReplaceIsExact(rows: seq<Message>, index: Index, i: nat, m: Message)
    requires Exact(rows, index) && i < |rows|
    ensures Fits(index, i, m) <==> Disjoint(rows[i := m])
    ensures Fits(index, i, m) <==> Exact(rows[i := m], ReplaceAliases(index, i, rows[i], m))
  {
    var after, index' := rows[i := m], ReplaceAliases(index, i, rows[i], m);
    ReplaceKeepsSound(rows, index, i, m);
    if Fits(index, i, m) {
      forall k, a | 0 <= k < |after| && a in Aliases(after[k]) ensures a in index' && index'[a] == k {
        if k != i {
          assert a in Aliases(rows[k]) && index[a] == k;
        }
      }
      ExactMeansDisjoint(after, index');
    } else {
      var a :| a in Aliases(m) && a in index && index[a] != i;
      var k := index[a];
      assert a in Aliases(after[k]) && a in Aliases(after[i]);
      assert !Disjoint(after);
      if Exact(after, index') {
        ExactMeansDisjoint(after, index');
      }
    }
  }

  // ---- disjointness does not depend on the order of the rows ----------------------------------

  ghost predicate DisjointBag(bag: multiset<Message>) {
    && (forall x, y :: x in bag && y in bag && x != y ==> Aliases(x) !! Aliases(y))
    && (forall x :: x in bag && bag[x] >= 2 ==> Aliases(x) == {})
  }

  lemma {:induction false} OccursTwice(rows: seq<Message>, x: Message) returns (i: nat, j: nat)
    requires multiset(rows)[x] >= 2
    ensures i < j < |rows| && rows[i] == x && rows[j] == x
  {
    var last := |rows| - 1;
    assert rows == rows[..last] + [rows[last]];
    if rows[last] == x {
      assert x in multiset(rows[..last]);
      i :| 0 <= i < last && rows[i] == x;
      j := last;
    } else {
      i, j := OccursTwice(rows[..last], x);
    }
  }

  lemma DisjointIsDisjointBag(rows: seq<Message>)
    ensures Disjoint(rows) <==> DisjointBag(multiset(rows))
  {
    if Disjoint(rows) {
      forall x, y | x in multiset(rows) && y in multiset(rows) && x != y ensures Aliases(x) !! Aliases(y) {
        var i :| 0 <= i < |rows| && rows[i] == x;
        var j :| 0 <= j < |rows| && rows[j] == y;
        assert Aliases(rows[i]) !! Aliases(rows[j]);
      }
      forall x | x in multiset(rows) && multiset(rows)[x] >= 2 ensures Aliases(x) == {} {
        var i, j := OccursTwice(rows, x);
        assert Aliases(rows[i]) !! Aliases(rows[j]);
      }
    }
    if DisjointBag(multiset(rows)) {
      forall i, j | 0 <= i < j < |rows| ensures Aliases(rows[i]) !! Aliases(rows[j]) {
        assert rows[i] in multiset(rows) && rows[j] in multiset(rows);
        if rows[i] == rows[j] {
          assert rows == rows[..i] + [rows[i]] + rows[i + 1..j] + [rows[j]] + rows[j + 1..];
          assert multiset(rows)[rows[i]] >= 2;
        }
      }
    }
  }

  // ---- coalescing one batch --------------------------------------------------------------------

  datatype Table = Table(rows: seq<Message>, index: Index)

  /** A message that lost its temporary id on the way takes over the one already known. */
  function KeepTempId(m: Message, previous: Message): Message {
    if TempId(m) == "" && TempId(previous) != "" then m["temp_id" := previous["temp_id"]] else m
  }

  function NormalizeStep(t: Table, m: Message): (r: Table)
    requires Sound(t.rows, t.index)
    ensures Sound(r.rows, r.index)
  {
    if m == map[] then t
    else
      var i := Find(t.index, m);
      if i < 0 then
        Table(t.rows + [m], Add(t.index, Aliases(m), |t.rows|))
      else
        var m' := KeepTempId(m, t.rows[i]);
        ReplaceKeepsSound(t.rows, t.index, i, m');
        Table(t.rows[i := m'], ReplaceAliases(t.index, i, t.rows[i], m'))
  }

  function NormalizeTable(ms: seq<Message>): (t: Table)
    ensures Sound(t.rows, t.index)
  {
    if ms == [] then Table([], map[])
    else NormalizeStep(NormalizeTable(ms[..|ms| - 1]), ms[|ms| - 1])
  }

  function Normalize(ms: seq<Message>): seq<Message> {
    NormalizeTable(ms).rows
  }

  lemma AppendIsExact(t: Table, m: Message)
    requires Exact(t.rows, t.index) && m != map[] && Find(t.index, m) < 0
    ensures Exact(NormalizeStep(t, m).rows, NormalizeStep(t, m).index)
  {
    var r := NormalizeStep(t, m);
    forall k, a | 0 <= k < |r.rows| && a in Aliases(r.rows[k]) ensures a in r.index && r.index[a] == k {
      if k < |t.rows| {
        assert a in Aliases(t.rows[k]);
      }
    }
  }

  lemma NormalizeStepIsExact(t: Table, m: Message)
    requires Exact(t.rows, t.index)
    ensures var r := NormalizeStep(t, m);
            && (Exact(r.rows, r.index) <==> !Bridges(t.index, m))
            && (Disjoint(r.rows) <==> !Bridges(t.index, m))
  {
    var r := NormalizeStep(t, m);
    var i := Find(t.index, m);
    if m == map[] {
      ExactMeansDisjoint(t.rows, t.index);
    } else if i < 0 {
      AppendIsExact(t, m);
      ExactMeansDisjoint(r.rows, r.index);
    } else {
      BridgesMeansNoFit(t.index, m);
      ReplaceIsExact(t.rows, t.index, i, KeepTempId(m, t.rows[i]));
    }
  }

  /**
   Main result for one batch: after every prefix the coalesced rows are disjoint and exactly indexed,
   if and only if no message of the batch bridges two rows when its turn comes.
   */
  lemma {:induction false} NormalizeIsExact(ms: seq<Message>)
    ensures (forall k :: 0 <= k <= |ms| ==> Exact(NormalizeTable(ms[..k]).rows, NormalizeTable(ms[..k]).index))
       <==> (forall k :: 0 <= k < |ms| ==> !Bridges(NormalizeTable(ms[..k]).index, ms[k]))
  {
    if forall k :: 0 <= k <= |ms| ==> Exact(NormalizeTable(ms[..k]).rows, NormalizeTable(ms[..k]).index) {
      forall k | 0 <= k < |ms| ensures !Bridges(NormalizeTable(ms[..k]).index, ms[k]) {
        assert ms[..k + 1][..k] == ms[..k];
        assert Exact(NormalizeTable(ms[..k + 1]).rows, NormalizeTable(ms[..k + 1]).index);
        NormalizeStepIsExact(NormalizeTable(ms[..k]), ms[k]);
      }
    }
    if forall k :: 0 <= k < |ms| ==> !Bridges(NormalizeTable(ms[..k]).index, ms[k]) {
      NormalizeCleanIsExact(ms, |ms|);
      forall k | 0 <= k <= |ms| ensures Exact(NormalizeTable(ms[..k]).rows, NormalizeTable(ms[..k]).index) {
        NormalizeCleanIsExact(ms, k);
      }
    }
  }

  lemma {:induction false} NormalizeCleanIsExact(ms: seq<Message>, n: nat)
    requires n <= |ms|
    requires forall k :: 0 <= k < n ==> !Bridges(NormalizeTable(ms[..k]).index, ms[k])
    ensures Exact(NormalizeTable(ms[..n]).rows, NormalizeTable(ms[..n]).index)
  {
    if n > 0 {
      NormalizeCleanIsExact(ms, n - 1);
      assert ms[..n][..n - 1] == ms[..n - 1];
      NormalizeStepIsExact(NormalizeTable(ms[..n - 1]), ms[n - 1]);
    }
  }
}
