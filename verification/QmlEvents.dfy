/**
 The Python side's batching of message updates, before they cross to the list. It works on many chats
 at once, keying its table by chat and identifier. Main result: seen from any one chat it does exactly
 what the list's own coalescing of that chat's messages does.
 */
module QmlEvents {
  import opened MessageRows
  import opened AliasIndex

  type ChatAlias = (string, string)

  type ChatIndex = map<ChatAlias, nat>

  datatype Coalesced = Coalesced(rows: seq<Message>, index: ChatIndex)

  function ChatId(m: Message): string {
    TextOf(Get(m, "chat_id"))
  }

  function ChatAliases(m: Message): set<ChatAlias> {
    set a | a in Aliases(m) :: (ChatId(m), a)
  }

  function FindInChat(index: ChatIndex, m: Message): (i: int)
  {
    var id, temp := (ChatId(m), MessageId(m)), (ChatId(m), TempId(m));
    if MessageId(m) != "" && id in index then index[id]
    else if TempId(m) != "" && temp in index then index[temp]
    else -1
  }

  function Reindex(index: ChatIndex, i: nat, previous: set<ChatAlias>, current: set<ChatAlias>): ChatIndex {
    (map a | a in index && !(a in previous && index[a] == i) :: index[a]) + map a | a in current :: i
  }

  ghost predicate SoundPerChat(t: Coalesced) {
    forall a :: a in t.index ==> t.index[a] < |t.rows| && a in ChatAliases(t.rows[t.index[a]])
  }

  lemma FoundInChat(t: Coalesced, m: Message)
    requires SoundPerChat(t) && FindInChat(t.index, m) >= 0
    ensures FindInChat(t.index, m) < |t.rows|
    ensures ChatId(t.rows[FindInChat(t.index, m)]) == ChatId(m)
    ensures t.rows[FindInChat(t.index, m)] != map[]
  {
    var i := FindInChat(t.index, m);
    var a: ChatAlias :| a in t.index && t.index[a] == i && a.0 == ChatId(m);
    assert a in ChatAliases(t.rows[i]);
  }

  function CoalesceStep(t: Coalesced, m: Message): (r: Coalesced)
    requires SoundPerChat(t)
    ensures SoundPerChat(r)
  {
    var i := FindInChat(t.index, m);
    if i < 0 then
      Coalesced(t.rows + [m], Reindex(t.index, |t.rows|, {}, ChatAliases(m)))
    else
      FoundInChat(t, m);
      var m' := KeepTempId(m, t.rows[i]);
      Coalesced(t.rows[i := m'], Reindex(t.index, i, ChatAliases(t.rows[i]), ChatAliases(m')))
  }

  function Coalesce(ms: seq<Message>): (t: Coalesced)
    ensures SoundPerChat(t)
  {
    if ms == [] then Coalesced([], map[]) else CoalesceStep(Coalesce(ms[..|ms| - 1]), ms[|ms| - 1])
  }

  // ---- seen from one chat ----------------------------------------------------------------------

  predicate Concerns(chat: string, m: Message) {
    m != map[] && TextOf(Get(m, "chat_id")) == chat
  }

  function ForChat(chat: string, ms: seq<Message>): seq<Message> {
    if ms == [] then []
    else
      var last := |ms| - 1;
      ForChat(chat, ms[..last]) + if Concerns(chat, ms[last]) then [ms[last]] else []
  }

  /** The place row i takes among the rows of its chat. */
  function Rank(chat: string, ms: seq<Message>, i: nat): nat
    requires i <= |ms|
  {
    |ForChat(chat, ms[..i])|
  }

  /** The shared table and a chat's own agree on where one identifier of the chat leads. */
  ghost predicate Agree(t: Coalesced, chat: string, own: Index, a: string)
    requires SoundPerChat(t)
  {
    if a in own then (chat, a) in t.index && own[a] == Rank(chat, t.rows, t.index[(chat, a)])
    else (chat, a) !in t.index
  }

  /** The list's table for one chat is what the shared table shows of that chat. */
  ghost predicate Shows(t: Coalesced, chat: string, own: Table) {
    && SoundPerChat(t)
    && own.rows == ForChat(chat, t.rows)
    && (forall a :: Agree(t, chat, own.index, a))
  }

  lemma {:induction false} RankIsIncreasing(chat: string, ms: seq<Message>, i: nat, j: nat)
    requires i <= j <= |ms|
    ensures Rank(chat, ms, i) <= Rank(chat, ms, j)
    ensures i < j && Concerns(chat, ms[i]) ==> Rank(chat, ms, i) < Rank(chat, ms, j)
  {
    if i < j {
      assert ms[..j][..j - 1] == ms[..j - 1];
      RankIsIncreasing(chat, ms, i, j - 1);
    }
  }

  lemma {:induction false} RankLocates(chat: string, ms: seq<Message>, i: nat)
    requires i < |ms| && Concerns(chat, ms[i])
    ensures Rank(chat, ms, i) < |ForChat(chat, ms)| && ForChat(chat, ms)[Rank(chat, ms, i)] == ms[i]
  {
    var last := |ms| - 1;
    if i < last {
      RankLocates(chat, ms[..last], i);
      assert ms[..last][..i] == ms[..i];
    }
  }

  lemma {:induction false} ForChatAfterReplace(chat: string, ms: seq<Message>, i: nat, m: Message)
    requires i < |ms| && Concerns(chat, ms[i]) == Concerns(chat, m)
    ensures Concerns(chat, m) ==> Rank(chat, ms, i) < |ForChat(chat, ms)|
    ensures ForChat(chat, ms[i := m]) ==
            if Concerns(chat, m) then ForChat(chat, ms)[Rank(chat, ms, i) := m] else ForChat(chat, ms)
  {
    if Concerns(chat, m) {
      RankLocates(chat, ms, i);
    }
    var last := |ms| - 1;
    var front, own := ms[..last], ForChat(chat, ms[..last]);
    if i == last {
      assert ms[i := m][..last] == front;
      assert Concerns(chat, m) ==> (own + [ms[last]])[|own| := m] == own + [m];
    } else {
      ForChatAfterReplace(chat, front, i, m);
      assert ms[i := m][..last] == front[i := m];
      assert front[..i] == ms[..i];
      if Concerns(chat, m) {
        assert (own + [ms[last]])[Rank(chat, ms, i) := m] == own[Rank(chat, ms, i) := m] + [ms[last]];
      }
    }
  }

  lemma RankAfterReplace(chat: string, ms: seq<Message>, i: nat, m: Message, j: nat)
    requires i < |ms| && Concerns(chat, ms[i]) == Concerns(chat, m) && j <= |ms|
    ensures Rank(chat, ms[i := m], j) == Rank(chat, ms, j)
  {
    if i < j {
      assert ms[i := m][..j] == ms[..j][i := m];
      ForChatAfterReplace(chat, ms[..j], i, m);
    } else {
      assert ms[i := m][..j] == ms[..j];
    }
  }

  lemma FindAgrees(t: Coalesced, chat: string, own: Table, m: Message)
    requires Shows(t, chat, own) && ChatId(m) == chat
    ensures var i := FindInChat(t.index, m);
            if i < 0 then Find(own.index, m) < 0
            else i < |t.rows| && Find(own.index, m) == Rank(chat, t.rows, i)
  {
    assert Agree(t, chat, own.index, MessageId(m)) && Agree(t, chat, own.index, TempId(m));
    if FindInChat(t.index, m) >= 0 {
      FoundInChat(t, m);
    }
  }

  /** What one reindexing does to a single entry. */
  lemma ReindexAt(index: ChatIndex, i: nat, previous: Message, m: Message, chat: string, a: string)
    requires ChatId(previous) == ChatId(m)
    ensures var r := Reindex(index, i, ChatAliases(previous), ChatAliases(m));
            var mine := ChatId(m) == chat;
            if mine && a in Aliases(m) then (chat, a) in r && r[(chat, a)] == i
            else if (chat, a) !in index || (mine && a in Aliases(previous) && index[(chat, a)] == i) then (chat, a) !in r
            else (chat, a) in r && r[(chat, a)] == index[(chat, a)]
  {
    assert (chat, a) in ChatAliases(m) <==> ChatId(m) == chat && a in Aliases(m);
    assert (chat, a) in ChatAliases(previous) <==> ChatId(m) == chat && a in Aliases(previous);
  }

  lemma AppendAt(index: ChatIndex, i: nat, m: Message, chat: string, a: string)
    ensures var r := Reindex(index, i, {}, ChatAliases(m));
            if ChatId(m) == chat && a in Aliases(m) then (chat, a) in r && r[(chat, a)] == i
            else if (chat, a) !in index then (chat, a) !in r
            else (chat, a) in r && r[(chat, a)] == index[(chat, a)]
  {
    assert (chat, a) in ChatAliases(m) <==> ChatId(m) == chat && a in Aliases(m);
  }

  lemma AppendShows(t: Coalesced, chat: string, own: Table, m: Message)
    requires Shows(t, chat, own) && Sound(own.rows, own.index) && FindInChat(t.index, m) < 0
    ensures Shows(CoalesceStep(t, m), chat, if Concerns(chat, m) then NormalizeStep(own, m) else own)
  {
    var own' := if Concerns(chat, m) then NormalizeStep(own, m) else own;
    assert CoalesceStep(t, m).rows[..|t.rows|] == t.rows;
    if Concerns(chat, m) {
      FindAgrees(t, chat, own, m);
    }
    forall a ensures Agree(CoalesceStep(t, m), chat, own'.index, a) {
      AppendAgrees(t, chat, own, m, a);
    }
  }

  lemma AppendAgrees(t: Coalesced, chat: string, own: Table, m: Message, a: string)
    requires Shows(t, chat, own) && Sound(own.rows, own.index) && FindInChat(t.index, m) < 0
    requires Concerns(chat, m) ==> Find(own.index, m) < 0
    ensures Agree(CoalesceStep(t, m), chat, (if Concerns(chat, m) then NormalizeStep(own, m) else own).index, a)
  {
    assert Agree(t, chat, own.index, a);
    AppendAt(t.index, |t.rows|, m, chat, a);
    var r := CoalesceStep(t, m);
    if (chat, a) in r.index {
      assert r.rows[..r.index[(chat, a)]] == t.rows[..r.index[(chat, a)]];
    }
  }

  lemma OverwriteShows(t: Coalesced, chat: string, own: Table, m: Message)
    requires Shows(t, chat, own) && Sound(own.rows, own.index) && FindInChat(t.index, m) >= 0
    ensures Shows(CoalesceStep(t, m), chat, if Concerns(chat, m) then NormalizeStep(own, m) else own)
  {
    FoundInChat(t, m);
    var r, i := CoalesceStep(t, m), FindInChat(t.index, m);
    var m' := KeepTempId(m, t.rows[i]);
    var own' := if Concerns(chat, m) then NormalizeStep(own, m) else own;
    assert ChatId(m') == ChatId(m) && m' != map[] && m != map[];
    ForChatAfterReplace(chat, t.rows, i, m');
    if Concerns(chat, m) {
      FindAgrees(t, chat, own, m);
      RankLocates(chat, t.rows, i);
    }
    forall a ensures Agree(r, chat, own'.index, a) {
      OverwriteAgrees(t, chat, own, m, i, m', a);
    }
  }

  lemma OverwriteAgrees(t: Coalesced, chat: string, own: Table, m: Message, i: nat, m': Message, a: string)
    requires Shows(t, chat, own) && Sound(own.rows, own.index)
    requires FindInChat(t.index, m) == i < |t.rows| && m' == KeepTempId(m, t.rows[i])
    requires ChatId(t.rows[i]) == ChatId(m) == ChatId(m') && m != map[] && t.rows[i] != map[]
    requires Concerns(chat, m) ==>
             var rank := Rank(chat, t.rows, i);
             rank < |own.rows| && own.rows[rank] == t.rows[i] && Find(own.index, m) == rank
    ensures Agree(CoalesceStep(t, m), chat, (if Concerns(chat, m) then NormalizeStep(own, m) else own).index, a)
  {
    assert Agree(t, chat, own.index, a);
    ReindexAt(t.index, i, t.rows[i], m', chat, a);
    var r := CoalesceStep(t, m);
    if (chat, a) in r.index {
      RankAfterReplace(chat, t.rows, i, m', r.index[(chat, a)]);
    }
    if Concerns(chat, m) && a in own.index {
      RanksDiffer(t, chat, own, i, a);
    }
  }

  lemma RanksDiffer(t: Coalesced, chat: string, own: Table, i: nat, a: string)
    requires Shows(t, chat, own) && i < |t.rows| && Concerns(chat, t.rows[i])
    requires a in own.index && (chat, a) in t.index
    ensures own.index[a] == Rank(chat, t.rows, i) <==> t.index[(chat, a)] == i
  {
    assert Agree(t, chat, own.index, a);
    var j := t.index[(chat, a)];
    assert (chat, a) in ChatAliases(t.rows[j]);
    if j < i {
      RankIsIncreasing(chat, t.rows, j, i);
    } else {
      RankIsIncreasing(chat, t.rows, i, j);
    }
  }

  lemma CoalesceStepShows(t: Coalesced, chat: string, own: Table, m: Message)
    requires Shows(t, chat, own) && Sound(own.rows, own.index)
    ensures Shows(CoalesceStep(t, m), chat, if Concerns(chat, m) then NormalizeStep(own, m) else own)
  {
    if FindInChat(t.index, m) < 0 {
      AppendShows(t, chat, own, m);
    } else {
      OverwriteShows(t, chat, own, m);
    }
  }

  lemma NormalizeOneMore(ms: seq<Message>, m: Message)
    ensures NormalizeTable(ms + [m]) == NormalizeStep(NormalizeTable(ms), m)
  {
    assert (ms + [m])[..|ms|] == ms;
  }

  lemma ForChatOneMore(chat: string, ms: seq<Message>, m: Message)
    ensures ForChat(chat, ms + [m]) == if Concerns(chat, m) then ForChat(chat, ms) + [m] else ForChat(chat, ms)
  {
    assert (ms + [m])[..|ms|] == ms;
  }

  lemma CoalesceOneMore(ms: seq<Message>, m: Message)
    ensures Coalesce(ms + [m]) == CoalesceStep(Coalesce(ms), m)
  {
    assert (ms + [m])[..|ms|] == ms;
  }

  ghost predicate ShowsNormalized(chat: string, ms: seq<Message>) {
    Shows(Coalesce(ms), chat, NormalizeTable(ForChat(chat, ms)))
  }

  lemma {:induction false} CoalesceShowsNormalize(chat: string, ms: seq<Message>)
    ensures ShowsNormalized(chat, ms)
  {
    if ms == [] {
      EmptyShows(chat);
    } else {
      var front, m := ms[..|ms| - 1], ms[|ms| - 1];
      CoalesceShowsNormalize(chat, front);
      assert ms == front + [m];
      CoalesceShowsMore(chat, front, m, NormalizeTable(ForChat(chat, front)));
    }
  }

  lemma CoalesceShowsMore(chat: string, ms: seq<Message>, m: Message, own: Table)
    requires own == NormalizeTable(ForChat(chat, ms)) && ShowsNormalized(chat, ms)
    ensures ShowsNormalized(chat, ms + [m])
  {
    CoalesceStepShows(Coalesce(ms), chat, own, m);
    NormalizeOneMore(ForChat(chat, ms), m);
    ForChatOneMore(chat, ms, m);
    CoalesceOneMore(ms, m);
  }

  lemma EmptyShows(chat: string)
    ensures Shows(Coalesce([]), chat, NormalizeTable(ForChat(chat, [])))
  {
  }

  /** Coalescing everything and looking at one chat is normalising that chat's messages alone. */
  lemma CoalescePerChat(chat: string, ms: seq<Message>)
    ensures ForChat(chat, Coalesce(ms).rows) == Normalize(ForChat(chat, ms))
  {
    CoalesceShowsNormalize(chat, ms);
  }

  lemma {:induction false} ForChatTwice(chat: string, ms: seq<Message>)
    ensures ForChat(chat, ForChat(chat, ms)) == ForChat(chat, ms)
  {
    if ms != [] {
      var front, all := ForChat(chat, ms[..|ms| - 1]), ForChat(chat, ms);
      ForChatTwice(chat, ms[..|ms| - 1]);
      if Concerns(chat, ms[|ms| - 1]) {
        assert all[..|all| - 1] == front;
      } else {
        assert all == front;
      }
    }
  }

  /** Coalescing commutes with filtering by chat: no chat's updates disturb another's. */
  lemma CoalesceCommutesWithFilter(chat: string, ms: seq<Message>)
    ensures ForChat(chat, Coalesce(ms).rows) == ForChat(chat, Coalesce(ForChat(chat, ms)).rows)
  {
    CoalescePerChat(chat, ms);
    CoalescePerChat(chat, ForChat(chat, ms));
    ForChatTwice(chat, ms);
  }

  /** The loop, with its table updated entry by entry. */
  method CoalesceMessageUpserts(ms: seq<Message>) returns (coalesced: seq<Message>)
    ensures coalesced == Coalesce(ms).rows
  {
    coalesced := [];
    var index: ChatIndex := map[];
    for k := 0 to |ms|
      invariant Coalesced(coalesced, index) == Coalesce(ms[..k])
    {
      assert ms[..k + 1][..k] == ms[..k];
      var m := ms[k];
      ghost var t := Coalesced(coalesced, index);
      assert SoundPerChat(t);
      var i := FindInChat(index, m);
      if i < 0 {
        i := |coalesced|;
        coalesced := coalesced + [m];
        index := Reindex(index, i, {}, ChatAliases(m));
      } else {
        FoundInChat(t, m);
        var previous := coalesced[i];
        m := KeepTempId(m, previous);
        coalesced := coalesced[i := m];
        index := Reindex(index, i, ChatAliases(previous), ChatAliases(m));
      }
    }
    assert ms[..|ms|] == ms;
  }
}
