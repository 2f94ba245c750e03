/**
 The list of chats on screen, newest first. Updates are applied in place with the help of an index from
 identifiers to positions; the drafts typed on this device are not touched by them.
 */
module ChatList {
  import opened Options
  import opened TextOrder

  /** A field of a chat as JavaScript holds it; of an object only its JSON text can be compared. */
  datatype Value = Undefined | Null | Bool(b: bool) | Number(n: real) | Text(s: string) | Object(json: string) {
    predicate Truthy() {
      match this
      case Undefined => false
      case Null => false
      case Bool(b) => b
      case Number(n) => n != 0.0
      case Text(s) => s != ""
      case Object(_) => true
    }

    predicate IsObject() {
      Null? || Object?
    }

    function Or(other: Value): Value {
      if Truthy() then this else other
    }
  }

  predicate WellTyped(fields: map<string, Value>) {
    && "id" in fields && fields["id"].Text?
    && ("last_message_timestamp" in fields ==>
          var t := fields["last_message_timestamp"]; t.Number? || t.Null? || t.Undefined?)
  }

  type Chat = fields: map<string, Value> | WellTyped(fields) witness map["id" := Text("")]

  function Get(c: Chat, field: string): Value {
    if field in c then c[field] else Undefined
  }

  function Id(c: Chat): string {
    c["id"].s
  }

  function Stamp(c: Chat): real {
    match Get(c, "last_message_timestamp")
    case Number(n) => n
    case _ => 0.0
  }

  predicate FieldValuesEqual(left: Value, right: Value) {
    left == right || ((left.IsObject() || right.IsObject()) && left.Or(Null) == right.Or(Null))
  }

  predicate Before(left: Chat, right: Chat) {
    Stamp(left) > Stamp(right) || (Stamp(left) == Stamp(right) && Less(Id(left), Id(right)))
  }

  ghost predicate Sorted(chats: seq<Chat>) {
    forall i, j :: 0 <= i < j < |chats| ==> Before(chats[i], chats[j])
  }

  ghost predicate Distinct(chats: seq<Chat>) {
    forall i, j :: 0 <= i < |chats| && 0 <= j < |chats| && Id(chats[i]) == Id(chats[j]) ==> i == j
  }

  ghost predicate Has(chats: seq<Chat>, id: string) {
    exists i :: 0 <= i < |chats| && Id(chats[i]) == id
  }

  /** The index knows every chat, at its position, and nothing else. */
  ghost predicate Indexed(chats: seq<Chat>, indexes: map<string, nat>) {
    && (forall i :: 0 <= i < |chats| ==> Id(chats[i]) in indexes && indexes[Id(chats[i])] == i)
    && (forall id :: id in indexes ==> indexes[id] < |chats| && Id(chats[indexes[id]]) == id)
  }

  // ---- what an update means ----------------------------------------------------------------------

  /** The chats by identifier. */
  function ById(chats: seq<Chat>): map<string, Chat> {
    if chats == [] then map[] else ById(chats[..|chats| - 1])[Id(chats[|chats| - 1]) := chats[|chats| - 1]]
  }

  function NewEntry(updated: Chat): Chat {
    updated["draft" := Text("")]["has_draft" := Bool(false)]
  }

  function Replacement(updated: Chat, existing: Chat): Chat {
    updated["draft" := Get(existing, "draft").Or(Text(""))]["has_draft" := Bool(Get(existing, "has_draft").Truthy())]
  }

  predicate SameFields(existing: Chat, replacement: Chat) {
    forall field :: field in replacement ==> FieldValuesEqual(Get(existing, field), replacement[field])
  }

  predicate Belongs(updated: Chat, showArchived: bool) {
    Get(updated, "archived").Truthy() == showArchived
  }

  /** One update, on the chats by identifier. */
  function Updated(chats: map<string, Chat>, u: Chat, showArchived: bool): map<string, Chat> {
    if Id(u) !in chats then if Belongs(u, showArchived) then chats[Id(u) := NewEntry(u)] else chats
    else if !Belongs(u, showArchived) then chats - {Id(u)}
    else if SameFields(chats[Id(u)], Replacement(u, chats[Id(u)])) then chats
    else chats[Id(u) := Replacement(u, chats[Id(u)])]
  }

  function AllUpdated(chats: map<string, Chat>, updates: seq<Chat>, showArchived: bool): map<string, Chat> {
    if updates == [] then chats
    else Updated(AllUpdated(chats, updates[..|updates| - 1], showArchived), updates[|updates| - 1], showArchived)
  }

  // ---- lists and maps ----------------------------------------------------------------------------

  lemma {:induction false} ByIdConcat(a: seq<Chat>, b: seq<Chat>)
    ensures ById(a + b) == ById(a) + ById(b)
  {
    if b == [] {
      assert a + b == a;
    } else {
      assert (a + b)[..|a + b| - 1] == a + b[..|b| - 1];
      ByIdConcat(a, b[..|b| - 1]);
    }
  }

  lemma {:induction false} ByIdKeys(chats: seq<Chat>, id: string)
    ensures id in ById(chats) <==> Has(chats, id)
  {
    if chats != [] {
      var front, last := chats[..|chats| - 1], chats[|chats| - 1];
      ByIdKeys(front, id);
      assert forall i :: 0 <= i < |front| ==> front[i] == chats[i];
      if Has(front, id) {
        var i :| 0 <= i < |front| && Id(front[i]) == id;
        assert Id(chats[i]) == id;
      }
      assert chats[|front|] == last;
    }
  }

  /** A chat put between others is found under its identifier, if that was not taken. */
  lemma ByIdAround(a: seq<Chat>, c: Chat, b: seq<Chat>)
    requires !Has(a + b, Id(c))
    ensures ById(a + [c] + b) == ById(a + b)[Id(c) := c]
  {
    ByIdConcat(a + [c], b);
    assert (a + [c])[..|a|] == a;
    ByIdConcat(a, b);
    ByIdKeys(a + b, Id(c));
    SetKey(ById(a), ById(b), Id(c), c);
  }

  lemma SetKey(a: map<string, Chat>, b: map<string, Chat>, id: string, c: Chat)
    requires id !in a + b
    ensures a[id := c] + b == (a + b)[id := c]
  {
  }

  lemma {:induction false} ByIdAt(chats: seq<Chat>, i: nat)
    requires Distinct(chats) && i < |chats|
    ensures Id(chats[i]) in ById(chats) && ById(chats)[Id(chats[i])] == chats[i]
  {
    var last := |chats| - 1;
    if i < last {
      assert chats[..last][i] == chats[i];
      ByIdAt(chats[..last], i);
    }
  }

  function Inserted(chats: seq<Chat>, at: nat, c: Chat): seq<Chat>
    requires at <= |chats|
  {
    chats[..at] + [c] + chats[at..]
  }

  function Removed(chats: seq<Chat>, at: nat): seq<Chat>
    requires at < |chats|
  {
    chats[..at] + chats[at + 1..]
  }

  lemma InsertedById(chats: seq<Chat>, at: nat, c: Chat)
    requires at <= |chats| && !Has(chats, Id(c))
    ensures ById(Inserted(chats, at, c)) == ById(chats)[Id(c) := c]
  {
    assert chats == chats[..at] + chats[at..];
    ByIdAround(chats[..at], c, chats[at..]);
  }

  /** Where a chat of the longer list comes from. */
  lemma InsertedFrom(chats: seq<Chat>, at: nat, c: Chat, i: nat)
    requires at <= |chats| && i <= |chats|
    ensures Inserted(chats, at, c)[i] == if i < at then chats[i] else if i == at then c else chats[i - 1]
  {
  }

  lemma InsertedIsDistinct(chats: seq<Chat>, at: nat, c: Chat)
    requires at <= |chats| && Distinct(chats) && !Has(chats, Id(c))
    ensures Distinct(Inserted(chats, at, c))
  {
    var all := Inserted(chats, at, c);
    forall i, j | 0 <= i < |all| && 0 <= j < |all| && Id(all[i]) == Id(all[j]) ensures i == j {
      InsertedFrom(chats, at, c, i);
      InsertedFrom(chats, at, c, j);
    }
  }

  lemma RemovedFrom(chats: seq<Chat>, at: nat, i: nat)
    requires at < |chats| && i < |chats| - 1
    ensures Removed(chats, at)[i] == chats[if i < at then i else i + 1]
  {
  }

  lemma RemovedIsDistinct(chats: seq<Chat>, at: nat)
    requires at < |chats| && Distinct(chats)
    ensures Distinct(Removed(chats, at)) && !Has(Removed(chats, at), Id(chats[at]))
  {
    var rest := Removed(chats, at);
    forall i | 0 <= i < |rest| ensures rest[i] == chats[if i < at then i else i + 1] {
      RemovedFrom(chats, at, i);
    }
  }

  lemma RemovedById(chats: seq<Chat>, at: nat)
    requires at < |chats| && Distinct(chats)
    ensures ById(Removed(chats, at)) == ById(chats) - {Id(chats[at])}
  {
    RemovedIsDistinct(chats, at);
    ByIdWithout(chats[..at], chats[at], chats[at + 1..]);
    assert chats == chats[..at] + [chats[at]] + chats[at + 1..];
  }

  lemma ByIdWithout(a: seq<Chat>, c: Chat, b: seq<Chat>)
    requires !Has(a + b, Id(c))
    ensures ById(a + b) == ById(a + [c] + b) - {Id(c)}
  {
    ByIdAround(a, c, b);
    ByIdKeys(a + b, Id(c));
    DropKey(ById(a + b), Id(c), c);
  }

  lemma DropKey(chats: map<string, Chat>, id: string, c: Chat)
    requires id !in chats
    ensures chats[id := c] - {id} == chats
  {
  }

  lemma ReplacedById(chats: seq<Chat>, at: nat, c: Chat)
    requires at < |chats| && Distinct(chats) && Id(c) == Id(chats[at])
    ensures ById(chats[at := c]) == ById(chats)[Id(c) := c]
  {
    RemovedIsDistinct(chats, at);
    ByIdAround(chats[..at], chats[at], chats[at + 1..]);
    ByIdAround(chats[..at], c, chats[at + 1..]);
    assert chats == chats[..at] + [chats[at]] + chats[at + 1..];
    assert chats[at := c] == chats[..at] + [c] + chats[at + 1..];
  }

  // ---- order -------------------------------------------------------------------------------------

  lemma BeforeLaws(a: Chat, b: Chat, c: Chat)
    ensures Before(a, b) && Before(b, c) ==> Before(a, c)
    ensures !(Before(a, b) && Before(b, a))
    ensures Id(a) != Id(b) ==> Before(a, b) || Before(b, a)
  {
    LessIsTotal(Id(a), Id(b));
    if Less(Id(a), Id(b)) && Less(Id(b), Id(c)) {
      LessIsTransitive(Id(a), Id(b), Id(c));
    }
  }

  /** Where a chat goes: before the first that it comes before. */
  ghost predicate GoesAt(chats: seq<Chat>, at: nat, c: Chat) {
    && at <= |chats|
    && (forall i :: 0 <= i < at ==> !Before(c, chats[i]))
    && (at < |chats| ==> Before(c, chats[at]))
  }

  lemma InsertedIsSorted(chats: seq<Chat>, at: nat, c: Chat)
    requires Sorted(chats) && !Has(chats, Id(c)) && GoesAt(chats, at, c)
    ensures Sorted(Inserted(chats, at, c))
  {
    var all := Inserted(chats, at, c);
    forall i, j | 0 <= i < j < |all| ensures Before(all[i], all[j]) {
      InsertedFrom(chats, at, c, i);
      InsertedFrom(chats, at, c, j);
      if j == at {
        BeforeLaws(chats[i], c, c);
      } else if i == at && j - 1 > at {
        BeforeLaws(c, chats[at], chats[j - 1]);
      }
    }
  }

  lemma RemovedIsSorted(chats: seq<Chat>, at: nat)
    requires Sorted(chats) && at < |chats|
    ensures Sorted(Removed(chats, at))
  {
    var rest := Removed(chats, at);
    forall i | 0 <= i < |rest| ensures rest[i] == chats[if i < at then i else i + 1] {
      RemovedFrom(chats, at, i);
    }
  }

  lemma SamePlaceIsSorted(chats: seq<Chat>, at: nat, c: Chat)
    requires Sorted(chats) && at < |chats| && Id(c) == Id(chats[at]) && Stamp(c) == Stamp(chats[at])
    ensures Sorted(chats[at := c])
  {
  }

  lemma {:induction false} SamePrefix(a: seq<Chat>, b: seq<Chat>, k: nat)
    requires Sorted(a) && Sorted(b) && Distinct(a) && Distinct(b) && ById(a) == ById(b)
    requires k <= |a| && k <= |b|
    ensures forall i :: 0 <= i < k ==> a[i] == b[i]
  {
    if k > 0 {
      SamePrefix(a, b, k - 1);
      var j := FoundIn(a, b, k - 1);
      var l := FoundIn(b, a, k - 1);
      BeforeLaws(a[k - 1], b[k - 1], b[k - 1]);
    }
  }

  /** A chat of one list is in the other, if they hold the same chats. */
  lemma FoundIn(a: seq<Chat>, b: seq<Chat>, i: nat) returns (j: nat)
    requires Distinct(a) && Distinct(b) && ById(a) == ById(b) && i < |a|
    ensures j < |b| && b[j] == a[i]
  {
    ByIdAt(a, i);
    ByIdKeys(b, Id(a[i]));
    j :| 0 <= j < |b| && Id(b[j]) == Id(a[i]);
    ByIdAt(b, j);
  }

  lemma NotLonger(a: seq<Chat>, b: seq<Chat>)
    requires Sorted(a) && Sorted(b) && Distinct(a) && Distinct(b) && ById(a) == ById(b)
    ensures |a| <= |b|
  {
    if |b| < |a| {
      SamePrefix(a, b, |b|);
      var j := FoundIn(a, b, |b|);
    }
  }

  /** There is one sorted list of given chats. */
  lemma SortedListingIsUnique(a: seq<Chat>, b: seq<Chat>)
    requires Sorted(a) && Sorted(b) && Distinct(a) && Distinct(b) && ById(a) == ById(b)
    ensures a == b
  {
    NotLonger(a, b);
    NotLonger(b, a);
    SamePrefix(a, b, |a|);
  }

  // ---- the operations ----------------------------------------------------------------------------

  method InsertChatSorted(chats: seq<Chat>, c: Chat) returns (inserted: seq<Chat>, at: nat)
    ensures GoesAt(chats, at, c) && inserted == Inserted(chats, at, c)
  {
    for i := 0 to |chats|
      invariant forall k :: 0 <= k < i ==> !Before(c, chats[k])
    {
      if Before(c, chats[i]) {
        return chats[..i] + [c] + chats[i..], i;
      }
    }
    at := |chats|;
    inserted := chats + [c];
  }

  /** Every position before the given one is right, and no stranger is known. */
  ghost predicate RightBefore(chats: seq<Chat>, indexes: map<string, nat>, start: nat) {
    && (forall i :: 0 <= i < start && i < |chats| ==> Id(chats[i]) in indexes && indexes[Id(chats[i])] == i)
    && (forall id :: id in indexes ==> Has(chats, id))
  }

  /** Positions from the given one on are written anew; the ones before must be right already. */
  method RefreshChatIndexes(chats: seq<Chat>, stale: map<string, nat>, start: nat) returns (indexes: map<string, nat>)
    requires Distinct(chats) && RightBefore(chats, stale, start)
    ensures Indexed(chats, indexes)
  {
    indexes := stale;
    var i := start;
    while i < |chats|
      invariant start <= i && RightBefore(chats, indexes, i)
    {
      indexes := indexes[Id(chats[i]) := i];
      i := i + 1;
    }
    forall id | id in indexes ensures indexes[id] < |chats| && Id(chats[indexes[id]]) == id {
      var k :| 0 <= k < |chats| && Id(chats[k]) == id;
    }
  }

  lemma HasInserted(chats: seq<Chat>, at: nat, c: Chat, id: string)
    requires at <= |chats| && Has(chats, id)
    ensures Has(Inserted(chats, at, c), id)
  {
    var i :| 0 <= i < |chats| && Id(chats[i]) == id;
    InsertedFrom(chats, at, c, if i < at then i else i + 1);
  }

  lemma HasRemoved(chats: seq<Chat>, at: nat, id: string)
    requires at < |chats| && Has(chats, id) && id != Id(chats[at])
    ensures Has(Removed(chats, at), id)
  {
    var i :| 0 <= i < |chats| && Id(chats[i]) == id;
    RemovedFrom(chats, at, if i < at then i else i - 1);
  }

  lemma RightBeforeInserted(chats: seq<Chat>, indexes: map<string, nat>, at: nat, c: Chat)
    requires at <= |chats| && RightBefore(chats, indexes, at)
    ensures RightBefore(Inserted(chats, at, c), indexes, at)
  {
    forall i | 0 <= i < at ensures Inserted(chats, at, c)[i] == chats[i] {
      InsertedFrom(chats, at, c, i);
    }
    forall id | id in indexes ensures Has(Inserted(chats, at, c), id) {
      HasInserted(chats, at, c, id);
    }
  }

  lemma RightBeforeRemoved(chats: seq<Chat>, indexes: map<string, nat>, at: nat)
    requires Indexed(chats, indexes) && at < |chats|
    ensures RightBefore(Removed(chats, at), indexes - {Id(chats[at])}, at)
  {
    forall i | 0 <= i < at ensures i < |chats| - 1 ==> Removed(chats, at)[i] == chats[i] {
      if i < |chats| - 1 {
        RemovedFrom(chats, at, i);
      }
    }
    forall id | id in indexes - {Id(chats[at])} ensures Has(Removed(chats, at), id) {
      HasRemoved(chats, at, id);
    }
  }

  /** Taking a chat out and putting it back elsewhere leaves the positions before both places right. */
  lemma RightBeforeMoved(chats: seq<Chat>, indexes: map<string, nat>, found: nat, at: nat, c: Chat)
    requires Indexed(chats, indexes) && found < |chats| && at < |chats| && Id(c) == Id(chats[found])
    ensures RightBefore(Inserted(Removed(chats, found), at, c), indexes, if found < at then found else at)
  {
    var rest := Removed(chats, found);
    var moved := Inserted(rest, at, c);
    forall i | 0 <= i < found && i < at ensures moved[i] == chats[i] {
      InsertedFrom(rest, at, c, i);
      RemovedFrom(chats, found, i);
    }
    forall id | id in indexes ensures Has(moved, id) {
      if id == Id(c) {
        InsertedFrom(rest, at, c, at);
      } else {
        HasRemoved(chats, found, id);
        HasInserted(rest, at, c, id);
      }
    }
  }

  /** The second list is the first one with the given chats by identifier, in order if that one was. */
  ghost predicate Becomes(chats: seq<Chat>, newChats: seq<Chat>, holding: map<string, Chat>) {
    Distinct(newChats) && ById(newChats) == holding && (Sorted(chats) ==> Sorted(newChats))
  }

  lemma InsertedBecomes(chats: seq<Chat>, at: nat, c: Chat)
    requires Distinct(chats) && !Has(chats, Id(c)) && GoesAt(chats, at, c)
    ensures Becomes(chats, Inserted(chats, at, c), ById(chats)[Id(c) := c])
  {
    InsertedIsDistinct(chats, at, c);
    InsertedById(chats, at, c);
    if Sorted(chats) {
      InsertedIsSorted(chats, at, c);
    }
  }

  lemma RemovedBecomes(chats: seq<Chat>, at: nat)
    requires Distinct(chats) && at < |chats|
    ensures Becomes(chats, Removed(chats, at), ById(chats) - {Id(chats[at])})
  {
    RemovedIsDistinct(chats, at);
    RemovedById(chats, at);
    if Sorted(chats) {
      RemovedIsSorted(chats, at);
    }
  }

  lemma MovedBecomes(chats: seq<Chat>, found: nat, at: nat, c: Chat)
    requires Distinct(chats) && found < |chats| && Id(c) == Id(chats[found]) && GoesAt(Removed(chats, found), at, c)
    ensures Becomes(chats, Inserted(Removed(chats, found), at, c), ById(chats)[Id(c) := c])
  {
    RemovedBecomes(chats, found);
    RemovedIsDistinct(chats, found);
    InsertedBecomes(Removed(chats, found), at, c);
    TakeOutPutBack(ById(chats), Id(c), c);
  }

  lemma TakeOutPutBack(chats: map<string, Chat>, id: string, c: Chat)
    ensures (chats - {id})[id := c] == chats[id := c]
  {
  }

  method AddChat(chats: seq<Chat>, indexes: map<string, nat>, c: Chat) returns (newChats: seq<Chat>, newIndexes: map<string, nat>)
    requires Indexed(chats, indexes) && Id(c) !in indexes
    ensures Indexed(newChats, newIndexes) && Becomes(chats, newChats, ById(chats)[Id(c) := c])
    ensures |newChats| == |chats| + 1
  {
    var at: nat;
    newChats, at := InsertChatSorted(chats, c);
    InsertedBecomes(chats, at, c);
    RightBeforeInserted(chats, indexes, at, c);
    newIndexes := RefreshChatIndexes(newChats, indexes, at);
  }

  method DropChat(chats: seq<Chat>, indexes: map<string, nat>, at: nat) returns (newChats: seq<Chat>, newIndexes: map<string, nat>)
    requires Indexed(chats, indexes) && at < |chats|
    ensures Indexed(newChats, newIndexes) && Becomes(chats, newChats, ById(chats) - {Id(chats[at])})
    ensures |newChats| == |chats| - 1
  {
    newChats := chats[..at] + chats[at + 1..];
    RemovedBecomes(chats, at);
    RightBeforeRemoved(chats, indexes, at);
    newIndexes := RefreshChatIndexes(newChats, indexes - {Id(chats[at])}, at);
  }

  method MoveChat(chats: seq<Chat>, indexes: map<string, nat>, found: nat, c: Chat) returns (newChats: seq<Chat>, newIndexes: map<string, nat>)
    requires Indexed(chats, indexes) && found < |chats| && Id(c) == Id(chats[found])
    ensures Indexed(newChats, newIndexes) && Becomes(chats, newChats, ById(chats)[Id(c) := c])
  {
    var at: nat;
    newChats, at := InsertChatSorted(chats[..found] + chats[found + 1..], c);
    MovedBecomes(chats, found, at, c);
    RightBeforeMoved(chats, indexes, found, at, c);
    newIndexes := RefreshChatIndexes(newChats, indexes, if found < at then found else at);
  }

  /** A chat already in the list is replaced, unless no field of its replacement differs. */
  method RefreshChat(chats: seq<Chat>, indexes: map<string, nat>, found: nat, c: Chat)
    returns (newChats: seq<Chat>, newIndexes: map<string, nat>, changed: bool)
    requires Indexed(chats, indexes) && found < |chats| && Id(c) == Id(chats[found])
    ensures Indexed(newChats, newIndexes)
    ensures Becomes(chats, newChats, if SameFields(chats[found], c) then ById(chats) else ById(chats)[Id(c) := c])
    ensures changed <==> newChats != chats
  {
    var existing := chats[found];
    if SameFields(existing, c) {
      return chats, indexes, false;
    }
    if Get(existing, "last_message_timestamp") != Get(c, "last_message_timestamp") {
      newChats, newIndexes := MoveChat(chats, indexes, found, c);
    } else {
      newChats, newIndexes := chats[found := c], indexes;
      ReplacedBecomes(chats, indexes, found, c);
    }
    changed := true;
    OneDiffers(chats, newChats, found, c);
  }

  lemma ReplacedBecomes(chats: seq<Chat>, indexes: map<string, nat>, at: nat, c: Chat)
    requires Indexed(chats, indexes) && at < |chats| && Id(c) == Id(chats[at])
    requires Get(c, "last_message_timestamp") == Get(chats[at], "last_message_timestamp")
    ensures Indexed(chats[at := c], indexes) && Becomes(chats, chats[at := c], ById(chats)[Id(c) := c])
  {
    ReplacedById(chats, at, c);
    if Sorted(chats) {
      SamePlaceIsSorted(chats, at, c);
    }
  }

  lemma OneDiffers(chats: seq<Chat>, newChats: seq<Chat>, at: nat, c: Chat)
    requires Distinct(chats) && at < |chats| && Id(c) == Id(chats[at]) && !SameFields(chats[at], c)
    requires ById(newChats) == ById(chats)[Id(c) := c]
    ensures newChats != chats
  {
    ByIdAt(chats, at);
    var field :| field in c && !FieldValuesEqual(Get(chats[at], field), c[field]);
    assert chats[at] != c;
  }

  /** One update: the chats by identifier change as it says, and the index goes along. */
  method ApplyUpdate(chats: seq<Chat>, indexes: map<string, nat>, u: Chat, showArchived: bool)
    returns (newChats: seq<Chat>, newIndexes: map<string, nat>, changed: bool)
    requires Indexed(chats, indexes)
    ensures Indexed(newChats, newIndexes) && Becomes(chats, newChats, Updated(ById(chats), u, showArchived))
    ensures changed <==> newChats != chats
  {
    ByIdKeys(chats, Id(u));
    if Id(u) !in indexes {
      if Belongs(u, showArchived) {
        newChats, newIndexes := AddChat(chats, indexes, NewEntry(u));
        changed := true;
      } else {
        newChats, newIndexes, changed := chats, indexes, false;
      }
    } else {
      var found := indexes[Id(u)];
      ByIdAt(chats, found);
      if !Belongs(u, showArchived) {
        newChats, newIndexes := DropChat(chats, indexes, found);
        changed := true;
      } else {
        newChats, newIndexes, changed := RefreshChat(chats, indexes, found, Replacement(u, chats[found]));
      }
    }
  }

  method IndexAll(chats: seq<Chat>) returns (indexes: map<string, nat>)
    requires Distinct(chats)
    ensures Indexed(chats, indexes)
  {
    indexes := map[];
    for i := 0 to |chats|
      invariant forall k :: 0 <= k < i ==> Id(chats[k]) in indexes && indexes[Id(chats[k])] == k
      invariant forall id :: id in indexes ==> indexes[id] < |chats| && Id(chats[indexes[id]]) == id
    {
      indexes := indexes[Id(chats[i]) := i];
    }
  }

  /** The list after a batch: the chats it should hold, in order, each once. */
  ghost predicate IsResult(chats: seq<Chat>, updates: seq<Chat>, showArchived: bool, result: seq<Chat>) {
    Sorted(result) && Distinct(result) && ById(result) == AllUpdated(ById(chats), updates, showArchived)
  }

  method ApplyChatListUpdates(chats: seq<Chat>, updates: seq<Chat>, showArchived: bool)
    returns (newChats: seq<Chat>, changed: bool)
    requires Sorted(chats) && Distinct(chats)
    ensures IsResult(chats, updates, showArchived, newChats)
    ensures !changed ==> newChats == chats
  {
    newChats, changed := chats, false;
    var indexes := IndexAll(chats);
    for j := 0 to |updates|
      invariant Indexed(newChats, indexes) && Sorted(newChats)
      invariant ById(newChats) == AllUpdated(ById(chats), updates[..j], showArchived)
      invariant !changed ==> newChats == chats
    {
      assert updates[..j + 1][..j] == updates[..j];
      var now: bool;
      newChats, indexes, now := ApplyUpdate(newChats, indexes, updates[j], showArchived);
      changed := changed || now;
    }
    assert updates[..|updates|] == updates;
  }

  // ---- batches -----------------------------------------------------------------------------------

  lemma {:induction false} AllUpdatedConcat(chats: map<string, Chat>, a: seq<Chat>, b: seq<Chat>, showArchived: bool)
    ensures AllUpdated(chats, a + b, showArchived) == AllUpdated(AllUpdated(chats, a, showArchived), b, showArchived)
  {
    if b == [] {
      assert a + b == a;
    } else {
      assert (a + b)[..|a + b| - 1] == a + b[..|b| - 1];
      AllUpdatedConcat(chats, a, b[..|b| - 1], showArchived);
    }
  }

  /** There is one right list after a batch. */
  lemma ResultIsUnique(chats: seq<Chat>, updates: seq<Chat>, showArchived: bool, a: seq<Chat>, b: seq<Chat>)
    requires IsResult(chats, updates, showArchived, a) && IsResult(chats, updates, showArchived, b)
    ensures a == b
  {
    SortedListingIsUnique(a, b);
  }

  /** Two batches one after the other come to the same list as both at once. */
  lemma BatchesConcat(chats: seq<Chat>, first: seq<Chat>, second: seq<Chat>, showArchived: bool,
                      between: seq<Chat>, after: seq<Chat>, atOnce: seq<Chat>)
    requires IsResult(chats, first, showArchived, between) && IsResult(between, second, showArchived, after)
    requires IsResult(chats, first + second, showArchived, atOnce)
    ensures after == atOnce
  {
    AllUpdatedConcat(ById(chats), first, second, showArchived);
    SortedListingIsUnique(after, atOnce);
  }

  function At(chats: map<string, Chat>, id: string): Option<Chat> {
    if id in chats then Some(chats[id]) else None
  }

  /** One update, on the chat it names. */
  function Touched(c: Option<Chat>, u: Chat, showArchived: bool): Option<Chat> {
    if !Belongs(u, showArchived) then None
    else if c.None? then Some(NewEntry(u))
    else if SameFields(c.value, Replacement(u, c.value)) then c
    else Some(Replacement(u, c.value))
  }

  lemma UpdatedAt(chats: map<string, Chat>, u: Chat, id: string, showArchived: bool)
    ensures At(Updated(chats, u, showArchived), id) ==
            if Id(u) == id then Touched(At(chats, id), u, showArchived) else At(chats, id)
  {
  }

  /** What becomes of a chat is told by the updates that name it alone. */
  lemma {:induction false} OwnUpdatesOnly(chats: map<string, Chat>, updates: seq<Chat>, id: string, showArchived: bool)
    ensures At(AllUpdated(chats, updates, showArchived), id) == At(AllUpdated(chats, OwnUpdates(updates, id), showArchived), id)
    ensures forall u: Chat :: u in OwnUpdates(updates, id) <==> u in updates && u["id"].s == id
  {
    if updates != [] {
      var front, u := updates[..|updates| - 1], updates[|updates| - 1];
      OwnUpdatesOnly(chats, front, id, showArchived);
      var own := OwnUpdates(front, id);
      assert updates == front + [u];
      UpdatedAt(AllUpdated(chats, front, showArchived), u, id, showArchived);
      if Id(u) == id {
        assert (own + [u])[..|own|] == own;
        UpdatedAt(AllUpdated(chats, own, showArchived), u, id, showArchived);
      }
    }
  }

  function OwnUpdates(updates: seq<Chat>, id: string): seq<Chat> {
    if updates == [] then []
    else
      var front, u := OwnUpdates(updates[..|updates| - 1], id), updates[|updates| - 1];
      if Id(u) == id then front + [u] else front
  }

  /** The draft shown for a chat: absent and empty are the same. */
  function Draft(c: Chat): (Value, bool) {
    (Get(c, "draft").Or(Text("")), Get(c, "has_draft").Truthy())
  }

  /** While no update moves a chat out of the list, its draft stays what it was; a chat that comes in has none. */
  lemma {:induction false} DraftsSurvive(chats: map<string, Chat>, updates: seq<Chat>, id: string, showArchived: bool)
    requires forall i :: 0 <= i < |updates| && Id(updates[i]) == id ==> Belongs(updates[i], showArchived)
    ensures var after := AllUpdated(chats, updates, showArchived);
            && (id in chats ==> id in after && Draft(after[id]) == Draft(chats[id]))
            && (id !in chats && id in after ==> Draft(after[id]) == (Text(""), false))
  {
    if updates != [] {
      DraftsSurvive(chats, updates[..|updates| - 1], id, showArchived);
    }
  }

  /** What the last update of a chat says is what the list shows, field by field. */
  lemma LatestUpdateIsShown(chats: map<string, Chat>, updates: seq<Chat>, u: Chat, showArchived: bool)
    ensures var after := AllUpdated(chats, updates + [u], showArchived);
            && (Id(u) in after <==> Belongs(u, showArchived))
            && (Id(u) in after ==> forall field :: field in u && field != "draft" && field != "has_draft" ==>
                  FieldValuesEqual(Get(after[Id(u)], field), u[field]))
  {
    assert (updates + [u])[..|updates|] == updates;
    var before := AllUpdated(chats, updates, showArchived);
    if Id(u) in before && Belongs(u, showArchived) {
      var replacement := Replacement(u, before[Id(u)]);
      assert forall field :: field in u && field != "draft" && field != "has_draft" ==>
          field in replacement && replacement[field] == u[field];
    }
  }
}
