/** What updates of the chat list come to, chat by chat and field by field, and in what order chats stand. */
module ChatUpdates {
  import opened ChatList
  import opened TextOrder

  /** What counts as nothing: no value, false, zero, and the empty text. */
  predicate IsNothing(v: Value) {
    v == Undefined || v == Null || v == Bool(false) || v == Number(0.0) || v == Text("")
  }

  /** Two values agree if they are the same, or one is null and the other counts as nothing. */
  predicate Agree(a: Value, b: Value) {
    a == b || (a == Null && IsNothing(b)) || (b == Null && IsNothing(a))
  }

  lemma ValuesAgreeExactly(a: Value, b: Value)
    ensures FieldValuesEqual(a, b) <==> Agree(a, b)
    ensures a.Truthy() <==> !IsNothing(a)
  {
  }

  /** The time of a chat's last message; a chat without one stands last. */
  function LastTime(c: Chat): real {
    if "last_message_timestamp" in c && c["last_message_timestamp"].Number? then c["last_message_timestamp"].n else 0.0
  }

  /** Newest first, and at one time by identifier. */
  lemma SortedIsNewestFirst(chats: seq<Chat>)
    ensures Sorted(chats) <==>
            forall i, j :: 0 <= i < j < |chats| ==>
              LastTime(chats[i]) > LastTime(chats[j])
              || (LastTime(chats[i]) == LastTime(chats[j]) && Less(chats[i]["id"].s, chats[j]["id"].s))
  {
    assert forall c: Chat :: Stamp(c) == LastTime(c) && Id(c) == c["id"].s;
  }

  /** The chat is listed where it is archived just as the list shows archived chats. */
  predicate ListedHere(u: Chat, showArchived: bool) {
    showArchived <==> "archived" in u && !IsNothing(u["archived"])
  }

  /** The fields of the update, up to agreement, and no others than those, unless the chat was left as it was. */
  ghost predicate ShowsUpdate(c: Chat, u: Chat) {
    forall field :: field in u && field != "draft" && field != "has_draft" ==>
      Agree(if field in c then c[field] else Undefined, u[field])
  }

  /**
   What the last update of a batch does: it decides whether its chat is listed and which fields it shows, leaves
   it as it was only if it shows them already, and touches no other chat.
   */
  lemma LastUpdateDecides(chats: map<string, Chat>, updates: seq<Chat>, u: Chat, showArchived: bool)
    ensures var id, before, after := u["id"].s, AllUpdated(chats, updates, showArchived), AllUpdated(chats, updates + [u], showArchived);
            && (id in after <==> ListedHere(u, showArchived))
            && (id in after ==>
                  && ShowsUpdate(after[id], u)
                  && (after[id].Keys == u.Keys + {"draft", "has_draft"} || (id in before && after[id] == before[id])))
            && (forall other :: other != id ==>
                  (other in after <==> other in before) && (other in before ==> after[other] == before[other]))
  {
    LatestUpdateIsShown(chats, updates, u, showArchived);
    assert (updates + [u])[..|updates|] == updates;
    var after := AllUpdated(chats, updates + [u], showArchived);
    ValuesAgreeExactly(Get(u, "archived"), Null);
    if Id(u) in after {
      forall field | field in u && field != "draft" && field != "has_draft"
        ensures Agree(if field in after[Id(u)] then after[Id(u)][field] else Undefined, u[field])
      {
        ValuesAgreeExactly(Get(after[Id(u)], field), u[field]);
      }
    }
  }
}
