/**
 When exactly a chat's unread count moves, and by how much: message by message, receipt by receipt, sync by
 sync, and over whole runs.
 */
module UnreadCounts {
  import opened Runs
  import opened TextOrder
  import opened UnreadAccounting

  function UnreadIn(s: State, chat: string): nat {
    if chat in s.chats then s.chats[chat].unread else 0
  }

  function FirstIn(s: State, chat: string): string {
    if chat in s.chats then s.chats[chat].firstUnread else ""
  }

  ghost predicate SameElsewhere(s: State, t: State, chat: string) {
    forall other :: other != chat ==>
      (other in t.chats <==> other in s.chats) && (other in s.chats ==> t.chats[other] == s.chats[other])
  }

  // ---- one message -------------------------------------------------------------------------------

  /** An incoming message that is new, and not older than what its chat has seen. */
  predicate Counts(s: State, m: Message) {
    && !m.record.outgoing && m.key !in s.messages
    && (m.key.chat in s.chats ==> s.chats[m.key.chat].lastTimestamp <= m.key.timestamp)
  }

  /**
   A message raises its chat's count and the total by one, and is the first unread one if there was none, if it
   is incoming, new and not older than the chat; otherwise none of the three moves.
   */
  lemma StoredMessageCounts(s: State, m: Message)
    ensures var t, chat := StoreMessage(s, m), m.key.chat;
            && chat in t.chats && t.messages == s.messages[m.key := m.record] && SameElsewhere(s, t, chat)
            && UnreadIn(t, chat) == UnreadIn(s, chat) + (if Counts(s, m) then 1 else 0)
            && t.total == s.total + (if Counts(s, m) then 1 else 0)
            && FirstIn(t, chat) == (if Counts(s, m) && UnreadIn(s, chat) == 0 then m.key.id else FirstIn(s, chat))
  {
  }

  /** The chat shows the latest of its messages: its time, and its receipt if it is outgoing. */
  lemma StoredMessageShows(s: State, m: Message)
    ensures var t, chat := StoreMessage(s, m), m.key.chat;
            && chat in t.chats
            && (if chat in s.chats && m.key.timestamp < s.chats[chat].lastTimestamp then t.chats[chat] == s.chats[chat]
                else && t.chats[chat].lastTimestamp == m.key.timestamp
                     && t.chats[chat].receipt == if m.record.outgoing then m.record.receipt else NoReceipt)
  {
  }

  /** An edit or deletion rewrites a stored record, and nothing else; a chat is made for it if there is none. */
  lemma EditedMessage(s: State, k: MessageKey, record: Record)
    ensures var t := EditMessage(s, k, record);
            && t.total == s.total && SameElsewhere(s, t, k.chat)
            && (k !in s.messages ==> t == s)
            && (k in s.messages ==>
                  && t.messages == s.messages[k := record] && k.chat in t.chats
                  && (if k.chat in s.chats then t.chats[k.chat] == s.chats[k.chat] else t.chats[k.chat].unread == 0 && t.chats[k.chat].firstUnread == ""))
  {
  }

  /** A contact or group that becomes known has a chat, empty if it had none. */
  lemma RememberedChat(s: State, chat: string)
    ensures var t := RememberChat(s, chat);
            && chat in t.chats && SameElsewhere(s, t, chat) && t.messages == s.messages && t.total == s.total
            && t.chats[chat] == if chat in s.chats then s.chats[chat] else Chat(0, "", 0, NoReceipt)
  {
  }

  /** An outgoing message is stored while it waits, and under its own key once it is sent; neither counts. */
  lemma OutgoingMessage(s: State, m: Message, k: MessageKey)
    requires m.record.outgoing
    ensures var t := QueueLocal(s, m);
            && t.messages == s.messages[m.key := m.record] && m.key in t.local && SameElsewhere(s, t, m.key.chat)
            && t.total == s.total && UnreadIn(t, m.key.chat) == UnreadIn(s, m.key.chat)
    ensures var t := CompleteLocal(s, k, m);
            && t.messages == (s.messages - {k})[m.key := m.record] && SameElsewhere(s, t, m.key.chat)
            && t.total == s.total && UnreadIn(t, m.key.chat) == UnreadIn(s, m.key.chat)
  {
  }

  // ---- receipts ----------------------------------------------------------------------------------

  /** Of two receipts the one further on. */
  function Later(a: Receipt, b: Receipt): Receipt {
    if ReadReceipt in [a, b] then ReadReceipt
    else if DeliveredReceipt in [a, b] then DeliveredReceipt
    else if SentReceipt in [a, b] then SentReceipt
    else NoReceipt
  }

  /** A receipt moves the messages it names forward to itself, and no other. */
  lemma ReceiptMovesMessages(s: State, chat: string, keys: set<MessageKey>, status: Receipt, fromMe: bool)
    ensures var t := ApplyReceipt(s, chat, keys, status, fromMe);
            && t.messages.Keys == s.messages.Keys
            && forall k :: k in s.messages ==>
                 t.messages[k] == if k in keys then s.messages[k].(receipt := Later(s.messages[k].receipt, status)) else s.messages[k]
  {
  }

  /** A read receipt for incoming messages: they were read on another device. */
  predicate ReadElsewhere(s: State, keys: set<MessageKey>, status: Receipt) {
    status == ReadReceipt && exists k :: k in keys && k in s.messages && !s.messages[k].outgoing
  }

  /** It clears the chat; any receipt from the other side moves the chat's own, if it shows one. */
  lemma ReceiptMovesChat(s: State, chat: string, keys: set<MessageKey>, status: Receipt, fromMe: bool)
    requires chat in s.chats
    ensures var t, c := ApplyReceipt(s, chat, keys, status, fromMe), s.chats[chat];
            && SameElsewhere(s, t, chat) && chat in t.chats
            && t.chats[chat].lastTimestamp == c.lastTimestamp
            && t.chats[chat].receipt == (if fromMe || c.receipt == NoReceipt then c.receipt else Later(c.receipt, status))
            && t.chats[chat].unread == (if ReadElsewhere(s, keys, status) then 0 else c.unread)
            && t.chats[chat].firstUnread == (if ReadElsewhere(s, keys, status) then "" else c.firstUnread)
            && (s.total >= c.unread ==> t.total == s.total - (if ReadElsewhere(s, keys, status) then c.unread else 0))
  {
  }

  /** Opening a chat makes the incoming ones of the selected messages read, and clears the chat. */
  lemma OpenedChatIsRead(s: State, chat: string, keys: set<MessageKey>)
    ensures var t := MarkRead(s, chat, keys);
            && t.messages.Keys == s.messages.Keys && SameElsewhere(s, t, chat)
            && (forall k :: k in s.messages ==>
                  t.messages[k] == if k in keys && !s.messages[k].outgoing then s.messages[k].(receipt := ReadReceipt) else s.messages[k])
            && UnreadIn(t, chat) == 0 && FirstIn(t, chat) == ""
            && (s.total >= UnreadIn(s, chat) ==> t.total == s.total - UnreadIn(s, chat))
  {
  }

  // ---- history sync ------------------------------------------------------------------------------

  /** Of two incoming messages the one that comes first: by time, then by identifier. */
  predicate Earlier(a: Incoming, b: Incoming) {
    a.0 < b.0 || (a.0 == b.0 && (a.1 == b.1 || Less(a.1, b.1)))
  }

  /** The sync writes something about the chat: it is known, or the conversation says when it was last active. */
  predicate Syncs(s: State, c: Conversation) {
    c.chat in s.chats || c.hasLatest || c.lastActive != 0
  }

  /**
   A synced chat has the count the server gives, not below zero, and names the earliest of its unread messages:
   the latest countable ones, as many as that, or all of them.
   */
  lemma SyncedChat(s: State, c: Conversation) returns (read: seq<Incoming>, slice: seq<Incoming>)
    ensures multiset(read) + multiset(slice) == multiset(c.incoming)
    ensures forall r, u :: r in read && u in slice ==> Earlier(r, u)
    ensures |slice| <= (if c.unreadCount < 0 then 0 else c.unreadCount)
    ensures read != [] ==> |slice| == if c.unreadCount < 0 then 0 else c.unreadCount
    ensures var t := SyncConversation(s, c);
            && SameElsewhere(s, t, c.chat) && t.messages == s.messages + c.records && t.total == s.total
            && (c.chat in t.chats <==> Syncs(s, c))
            && (Syncs(s, c) ==>
                  && t.chats[c.chat].unread == (if c.unreadCount < 0 then 0 else c.unreadCount)
                  && (slice == [] ==> t.chats[c.chat].firstUnread == "")
                  && (slice != [] ==> exists u :: u in slice && u.1 == t.chats[c.chat].firstUnread && forall v :: v in slice ==> Earlier(u, v)))
  {
    read := SliceIsLatest(c);
    slice := UnreadSlice(c);
    LessLaws();
    if slice != [] {
      assert slice[0] in slice;
    }
  }

  /** Its time and receipt are those of its latest message, unless it has seen a later one. */
  lemma SyncedChatShows(s: State, c: Conversation)
    requires Syncs(s, c)
    ensures var t := SyncConversation(s, c);
            var newer := c.hasLatest && (c.chat in s.chats ==> s.chats[c.chat].lastTimestamp < c.latest);
            && c.chat in t.chats
            && t.chats[c.chat].lastTimestamp ==
                 (if newer then c.latest else if c.chat in s.chats then s.chats[c.chat].lastTimestamp else c.lastActive)
            && t.chats[c.chat].receipt ==
                 (if newer && c.latestFromMe then c.latestReceipt else if c.chat in s.chats then s.chats[c.chat].receipt else NoReceipt)
  {
  }

  // ---- whole runs --------------------------------------------------------------------------------

  /** What a history sync leaves as the chat's count: that of the last conversation that writes the chat. */
  function CountAfterSync(known: bool, count: nat, convs: seq<Conversation>, chat: string): nat
    decreases |convs|
  {
    if convs == [] then count
    else
      var c := convs[0];
      if c.chat == chat && (known || c.hasLatest || c.lastActive != 0)
      then CountAfterSync(true, if c.unreadCount < 0 then 0 else c.unreadCount, convs[1..], chat)
      else CountAfterSync(known, count, convs[1..], chat)
  }

  lemma {:induction false} SyncSetsCount(s: State, convs: seq<Conversation>, chat: string)
    ensures UnreadIn(SyncAll(s, convs), chat) == CountAfterSync(chat in s.chats, UnreadIn(s, chat), convs, chat)
    decreases |convs|
  {
    if convs != [] {
      var read, slice := SyncedChat(s, convs[0]);
      SyncSetsCount(SyncConversation(s, convs[0]), convs[1..], chat);
    }
  }

  /** How many messages of the chat counted since it was last cleared or synced, on top of what the sync said. */
  ghost function CountSoFar(steps: seq<Step>, chat: string): nat {
    if steps == [] || Run(steps[..|steps| - 1]).Stuck? then 0
    else
      var s, count := Run(steps[..|steps| - 1]).state, CountSoFar(steps[..|steps| - 1], chat);
      match steps[|steps| - 1]
      case Store(m) => count + if m.key.chat == chat && Counts(s, m) then 1 else 0
      case Receive(named, keys, status, _) => if named == chat && ReadElsewhere(s, keys, status) then 0 else count
      case Read(shown, _) => if shown == chat then 0 else count
      case Sync(convs) => CountAfterSync(chat in s.chats, count, convs, chat)
      case _ => count
  }

  lemma StepCounts(s: State, step: Step, chat: string)
    requires Enabled(s, step)
    ensures UnreadIn(Apply(s, step), chat) ==
            match step
            case Store(m) => UnreadIn(s, chat) + (if m.key.chat == chat && Counts(s, m) then 1 else 0)
            case Receive(named, keys, status, _) => if named == chat && ReadElsewhere(s, keys, status) then 0 else UnreadIn(s, chat)
            case Read(shown, _) => if shown == chat then 0 else UnreadIn(s, chat)
            case Sync(convs) => CountAfterSync(chat in s.chats, UnreadIn(s, chat), convs, chat)
            case _ => UnreadIn(s, chat)
  {
    match step
    case Store(m) => StoredMessageCounts(s, m);
    case Receive(named, keys, status, fromMe) =>
      if named in s.chats {
        ReceiptMovesChat(s, named, keys, status, fromMe);
      }
    case Read(shown, keys) => OpenedChatIsRead(s, shown, keys);
    case Sync(convs) => SyncSetsCount(s, convs, chat);
    case _ =>
  }

  /** Over any run, a chat's count is the number of messages that counted since it was last cleared or synced. */
  lemma {:induction false} UnreadIsCounted(steps: seq<Step>, chat: string)
    requires Run(steps).Reached?
    ensures UnreadIn(Run(steps).state, chat) == CountSoFar(steps, chat)
  {
    if steps != [] {
      var last := |steps| - 1;
      UnreadIsCounted(steps[..last], chat);
      StepCounts(Run(steps[..last]).state, steps[last], chat);
    }
  }

  // ---- no message counts twice -------------------------------------------------------------------

  /** The step stores the message of that key, and it counts. */
  ghost predicate CountsAt(steps: seq<Step>, i: nat, k: MessageKey) {
    && i < |steps| && Run(steps[..i]).Reached?
    && steps[i].Store? && steps[i].m.key == k && Counts(Run(steps[..i]).state, steps[i].m)
  }

  lemma {:induction false} StaysStored(steps: seq<Step>, i: nat, k: MessageKey)
    requires Run(steps).Reached? && CountsAt(steps, i, k)
    ensures k in Run(steps).state.messages && k !in Run(steps).state.local
  {
    var last := |steps| - 1;
    var s := Run(steps[..last]).state;
    if i < last {
      assert steps[..last][..i] == steps[..i];
      StaysStored(steps[..last], i, k);
      StoredStays(s, steps[last], k);
    } else {
      StoredMessageCounts(s, steps[last].m);
    }
  }

  lemma StoredStays(s: State, step: Step, k: MessageKey)
    requires Enabled(s, step) && k in s.messages && k !in s.local
    ensures k in Apply(s, step).messages && k !in Apply(s, step).local
  {
    match step
    case Sync(convs) => SyncAllStores(s, convs);
    case _ =>
  }

  lemma {:induction false} SyncAllStores(s: State, convs: seq<Conversation>)
    ensures s.messages.Keys <= SyncAll(s, convs).messages.Keys && SyncAll(s, convs).local == s.local
    decreases |convs|
  {
    if convs != [] {
      SyncAllStores(SyncConversation(s, convs[0]), convs[1..]);
    }
  }

  lemma {:induction false} RunOfPrefix(steps: seq<Step>, n: nat)
    requires Run(steps).Reached? && n <= |steps|
    ensures Run(steps[..n]).Reached?
    decreases |steps| - n
  {
    assert steps[..|steps|] == steps;
    if n < |steps| {
      RunOfPrefix(steps[..|steps| - 1], n);
      assert steps[..|steps| - 1][..n] == steps[..n];
    }
  }

  /** However often it is delivered, a message counts at one step of a run at most. */
  lemma CountsOnce(steps: seq<Step>, i: nat, j: nat, k: MessageKey)
    requires Run(steps).Reached? && CountsAt(steps, i, k) && CountsAt(steps, j, k)
    ensures i == j
  {
    var first, second := if i < j then i else j, if i < j then j else i;
    if first < second {
      RunOfPrefix(steps, second);
      assert steps[..second][..first] == steps[..first];
      StaysStored(steps[..second], first, k);
    }
  }

  /** The steps of a run at which the message of that key counts. */
  ghost function CountsIn(steps: seq<Step>, k: MessageKey): nat {
    if steps == [] then 0
    else CountsIn(steps[..|steps| - 1], k) + if CountsAt(steps, |steps| - 1, k) then 1 else 0
  }

  lemma {:induction false} SyncAllCountsNothing(s: State, convs: seq<Conversation>)
    ensures SyncAll(s, convs).counted == s.counted
    decreases |convs|
  {
    if convs != [] {
      SyncAllCountsNothing(SyncConversation(s, convs[0]), convs[1..]);
    }
  }

  lemma StepIsCounted(s: State, step: Step, k: MessageKey)
    requires Enabled(s, step)
    ensures Times(Apply(s, step).counted, k)
         == Times(s.counted, k) + if step.Store? && step.m.key == k && Counts(s, step.m) then 1 else 0
  {
    match step
    case Sync(convs) => SyncAllCountsNothing(s, convs);
    case _ =>
  }

  /** What is remembered of a message is how often it counted. */
  lemma {:induction false} CountedIsCounted(steps: seq<Step>, k: MessageKey)
    requires Run(steps).Reached?
    ensures Times(Run(steps).state.counted, k) == CountsIn(steps, k)
  {
    if steps != [] {
      var last := |steps| - 1;
      CountedIsCounted(steps[..last], k);
      StepIsCounted(Run(steps[..last]).state, steps[last], k);
    }
  }

  /** Two new messages of one chat, and the first of them delivered again: two are unread, and the first is named. */
  lemma TwoAndOneAgain(chat: string, a: string, b: string, time: nat)
    requires a != b
    ensures var first := Message(MessageKey(chat, time, a), Record(false, NoReceipt));
            var second := Message(MessageKey(chat, time, b), Record(false, NoReceipt));
            var steps := [Store(first), Store(second), Store(first)];
            && Run(steps).Reached?
            && UnreadIn(Run(steps).state, chat) == 2 && Run(steps).state.total == 2 && FirstIn(Run(steps).state, chat) == a
  {
    var first := Message(MessageKey(chat, time, a), Record(false, NoReceipt));
    var second := Message(MessageKey(chat, time, b), Record(false, NoReceipt));
    var x, y := StoreMessage(INITIAL, first), StoreMessage(StoreMessage(INITIAL, first), second);
    RunOneMore([], Store(first));
    assert [] + [Store(first)] == [Store(first)];
    RunOneMore([Store(first)], Store(second));
    assert [Store(first)] + [Store(second)] == [Store(first), Store(second)];
    RunOneMore([Store(first), Store(second)], Store(first));
    assert [Store(first), Store(second)] + [Store(first)] == [Store(first), Store(second), Store(first)];
  }

  lemma RunOneMore(steps: seq<Step>, step: Step)
    requires Run(steps).Reached? && Enabled(Run(steps).state, step)
    ensures Run(steps + [step]) == Reached(Apply(Run(steps).state, step))
  {
    assert (steps + [step])[..|steps|] == steps;
  }
}
