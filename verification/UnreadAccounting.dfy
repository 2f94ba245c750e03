/**
 Unread counts: one per chat, and a total kept beside them by separate increments. Whatever order
 messages, redeliveries, edits, receipts, reads and history syncs come in, the total is the sum.
 */
module UnreadAccounting {
  import opened TextOrder
  import opened Runs

  datatype MessageKey = MessageKey(chat: string, timestamp: int, id: string)

  datatype Receipt = NoReceipt | SentReceipt | DeliveredReceipt | ReadReceipt

  datatype Record = Record(outgoing: bool, receipt: Receipt)

  datatype Chat = Chat(unread: nat, firstUnread: string, lastTimestamp: int, receipt: Receipt)

  datatype Message = Message(key: MessageKey, record: Record)

  /**
   `counted` remembers how often each message raised a count, and `local` the keys under which
   outgoing messages were stored while waiting to be sent.
   */
  datatype State = State(
    messages: map<MessageKey, Record>,
    chats: map<string, Chat>,
    total: nat,
    counted: map<MessageKey, nat>,
    local: set<MessageKey>)

  const INITIAL := State(map[], map[], 0, map[], {})

  // ---- receipts ----------------------------------------------------------------------------------

  function Rank(r: Receipt): nat {
    match r
    case NoReceipt => 0
    case SentReceipt => 1
    case DeliveredReceipt => 2
    case ReadReceipt => 3
  }

  predicate IsUpgrade(current: Receipt, next: Receipt) {
    Rank(next) > Rank(current)
  }

  // ---- the counter -------------------------------------------------------------------------------

  /** The stored total never goes below zero. */
  function Adjusted(total: nat, amount: int): nat {
    if total + amount < 0 then 0 else total + amount
  }

  function Times(counted: map<MessageKey, nat>, k: MessageKey): nat {
    if k in counted then counted[k] else 0
  }

  // ---- operations --------------------------------------------------------------------------------

  /** The chat record after one of its messages, and whether the message counts as unread. */
  function UpsertedChat(s: State, m: Message, countUnread: bool): (Chat, bool) {
    var MessageKey(chat, timestamp, id) := m.key;
    var incoming := !m.record.outgoing;
    if chat in s.chats then
      var c := s.chats[chat];
      if timestamp < c.lastTimestamp then (c, false)
      else if incoming && countUnread then
        (Chat(c.unread + 1, if c.unread == 0 then id else c.firstUnread, timestamp, NoReceipt), true)
      else
        (c.(lastTimestamp := timestamp, receipt := if incoming then NoReceipt else m.record.receipt), false)
    else
      var counts := incoming && countUnread;
      (Chat(if counts then 1 else 0, if counts then id else "", timestamp,
            if incoming then NoReceipt else m.record.receipt), counts)
  }

  function UpsertChat(s: State, m: Message, countUnread: bool): State {
    var (chat, counts) := UpsertedChat(s, m, countUnread);
    s.(chats := s.chats[m.key.chat := chat],
       total := if counts then Adjusted(s.total, 1) else s.total,
       counted := if counts then s.counted[m.key := Times(s.counted, m.key) + 1] else s.counted)
  }

  /** A message from the server, seen for the first time or again. */
  function StoreMessage(s: State, m: Message): State {
    UpsertChat(s.(messages := s.messages[m.key := m.record]), m, m.key !in s.messages)
  }

  /** An edit or deletion rewrites the record it found; without a chat record it creates one unread-free. */
  function EditMessage(s: State, k: MessageKey, record: Record): State {
    if k !in s.messages then s
    else
      var t := s.(messages := s.messages[k := record]);
      if k.chat in s.chats then t else UpsertChat(t, Message(k, record), false)
  }

  /** A contact, group or push name that has no chat record yet gets an empty one. */
  function RememberChat(s: State, chat: string): State {
    if chat in s.chats then s else s.(chats := s.chats[chat := Chat(0, "", 0, NoReceipt)])
  }

  function QueueLocal(s: State, m: Message): State {
    UpsertChat(s.(messages := s.messages[m.key := m.record], local := s.local + {m.key}), m, true)
  }

  function CompleteLocal(s: State, k: MessageKey, sent: Message): State {
    UpsertChat(s.(messages := (s.messages - {k})[sent.key := sent.record]), sent, true)
  }

  function ClearUnread(s: State, chat: string, c: Chat): State {
    s.(chats := s.chats[chat := c.(unread := 0, firstUnread := "")], total := Adjusted(s.total, 0 - c.unread as int))
  }

  predicate ShowsUnread(c: Chat) {
    c.unread > 0 || c.firstUnread != ""
  }

  function Upgraded(messages: map<MessageKey, Record>, keys: set<MessageKey>, status: Receipt): map<MessageKey, Record> {
    map k | k in messages ::
      if k in keys && IsUpgrade(messages[k].receipt, status) then messages[k].(receipt := status) else messages[k]
  }

  /** A receipt for some stored messages of a chat. */
  function ApplyReceipt(s: State, chat: string, keys: set<MessageKey>, status: Receipt, fromMe: bool): State {
    var t := s.(messages := Upgraded(s.messages, keys, status));
    if chat !in s.chats then t
    else
      var targetsIncoming := exists k :: k in keys && k in s.messages && !s.messages[k].outgoing;
      var c := s.chats[chat];
      var c' := if !fromMe && c.receipt != NoReceipt && IsUpgrade(c.receipt, status) then c.(receipt := status) else c;
      if status == ReadReceipt && targetsIncoming && ShowsUnread(c)
      then ClearUnread(t, chat, c')
      else t.(chats := t.chats[chat := c'])
  }

  /** The user opens a chat: the selected incoming messages become read and the count is cleared. */
  function MarkRead(s: State, chat: string, keys: set<MessageKey>): State {
    var incoming := set k | k in keys && k in s.messages && !s.messages[k].outgoing;
    var t := s.(messages := Upgraded(s.messages, incoming, ReadReceipt));
    if chat in s.chats && ShowsUnread(s.chats[chat]) then ClearUnread(t, chat, s.chats[chat]) else t
  }

  // ---- history sync ------------------------------------------------------------------------------

  type Incoming = (int, string)

  /**
   One conversation of a history sync: the server's unread count, its countable incoming messages, what
   its latest message says about the chat, and the message records the sync writes.
   */
  datatype Conversation = Conversation(
    chat: string,
    unreadCount: int,
    incoming: seq<Incoming>,
    hasLatest: bool,
    latest: int,
    latestFromMe: bool,
    latestReceipt: Receipt,
    lastActive: int,
    records: map<MessageKey, Record>)

  predicate Before(a: Incoming, b: Incoming) {
    a.0 < b.0 || (a.0 == b.0 && Less(a.1, b.1))
  }

  function InsertByTime(s: seq<Incoming>, x: Incoming): seq<Incoming> {
    if s == [] || Before(x, s[0]) then [x] + s else [s[0]] + InsertByTime(s[1..], x)
  }

  function SortByTime(s: seq<Incoming>): seq<Incoming> {
    if s == [] then [] else InsertByTime(SortByTime(s[..|s| - 1]), s[|s| - 1])
  }

  /** The unread messages of a conversation are its latest incoming ones, as many as the server counts. */
  function UnreadSlice(c: Conversation): seq<Incoming> {
    var sorted := SortByTime(c.incoming);
    var count := if c.unreadCount < 0 then 0 else c.unreadCount;
    if count >= |sorted| then sorted else sorted[|sorted| - count..]
  }

  function UnreadOf(c: Conversation): (nat, string) {
    (if c.unreadCount < 0 then 0 else c.unreadCount,
     if UnreadSlice(c) == [] then "" else UnreadSlice(c)[0].1)
  }

  function SyncConversation(s: State, c: Conversation): State {
    var (unread, firstUnread) := UnreadOf(c);
    var t := s.(messages := s.messages + c.records);
    if c.chat in s.chats then
      var chat := s.chats[c.chat];
      var newer := c.hasLatest && c.latest > chat.lastTimestamp;
      t.(chats := t.chats[c.chat := Chat(
        unread, firstUnread,
        if newer then c.latest else chat.lastTimestamp,
        if newer && c.latestFromMe then c.latestReceipt else chat.receipt)])
    else if !c.hasLatest && c.lastActive == 0 then t
    else
      t.(chats := t.chats[c.chat := Chat(
        unread, firstUnread,
        if c.hasLatest then c.latest else c.lastActive,
        if c.hasLatest && c.latestFromMe then c.latestReceipt else NoReceipt)])
  }

  function SyncAll(s: State, convs: seq<Conversation>): State
    decreases |convs|
  {
    if convs == [] then s else SyncAll(SyncConversation(s, convs[0]), convs[1..])
  }

  ghost function Sum(chats: map<string, Chat>): nat {
    if chats == map[] then 0
    else
      var k :| k in chats;
      chats[k].unread + Sum(chats - {k})
  }

  ghost function Reconcile(s: State): State {
    s.(total := Sum(s.chats))
  }

  // ---- runs --------------------------------------------------------------------------------------

  datatype Step =
    | Store(m: Message)
    | Edit(k: MessageKey, record: Record)
    | Remember(chat: string)
    | Queue(m: Message)
    | Complete(k: MessageKey, sent: Message)
    | Receive(chat: string, keys: set<MessageKey>, status: Receipt, fromMe: bool)
    | Read(chat: string, keys: set<MessageKey>)
    | Sync(convs: seq<Conversation>)
    | Recount

  /** Keys of waiting outgoing messages are made up locally and no event from the server carries one. */
  predicate Enabled(s: State, step: Step) {
    match step
    case Store(m) => m.key !in s.local
    case Queue(m) => m.key !in s.messages && m.record.outgoing
    case Complete(k, sent) => k in s.local && sent.key !in s.local && sent.record.outgoing
    case _ => true
  }

  ghost function Apply(s: State, step: Step): State
    requires Enabled(s, step)
  {
    match step
    case Store(m) => StoreMessage(s, m)
    case Edit(k, record) => EditMessage(s, k, record)
    case Remember(chat) => RememberChat(s, chat)
    case Queue(m) => QueueLocal(s, m)
    case Complete(k, sent) => CompleteLocal(s, k, sent)
    case Receive(chat, keys, status, fromMe) => ApplyReceipt(s, chat, keys, status, fromMe)
    case Read(chat, keys) => MarkRead(s, chat, keys)
    case Sync(convs) => Reconcile(SyncAll(s, convs))
    case Recount => Reconcile(s)
  }

  ghost function Run(steps: seq<Step>): Outcome<State> {
    if steps == [] then Reached(INITIAL)
    else
      var last := |steps| - 1;
      match Run(steps[..last])
      case Stuck => Stuck
      case Reached(s) => if Enabled(s, steps[last]) then Reached(Apply(s, steps[last])) else Stuck
  }

  // ---- sums --------------------------------------------------------------------------------------

  lemma {:induction false} SumWithout(chats: map<string, Chat>, k: string)
    requires k in chats
    ensures Sum(chats) == chats[k].unread + Sum(chats - {k})
    decreases chats
  {
    var j :| j in chats && Sum(chats) == chats[j].unread + Sum(chats - {j});
    if j != k {
      SumWithout(chats - {j}, k);
      SumWithout(chats - {k}, j);
      assert chats - {j} - {k} == chats - {k} - {j};
    }
  }

  lemma SumAfterUpdate(chats: map<string, Chat>, k: string, c: Chat)
    ensures Sum(chats[k := c]) == Sum(chats) + c.unread - (if k in chats then chats[k].unread else 0)
  {
    SumWithout(chats[k := c], k);
    if k in chats {
      SumWithout(chats, k);
      assert chats[k := c] - {k} == chats - {k};
    } else {
      assert chats[k := c] - {k} == chats;
    }
  }

  // ---- the invariant -----------------------------------------------------------------------------

  ghost predicate ChatSound(c: Chat) {
    c.firstUnread != "" ==> c.unread > 0
  }

  ghost predicate Accounted(s: State) {
    && s.total == Sum(s.chats)
    && (forall k :: k in s.chats ==> ChatSound(s.chats[k]))
    && (forall k :: Times(s.counted, k) <= 1)
    && (forall k :: Times(s.counted, k) == 1 ==> k in s.messages && k !in s.local)
  }

  /** Whatever counts as unread has not been counted before, so long as only unseen messages may count. */
  lemma UpsertKeepsAccounts(s: State, m: Message, countUnread: bool)
    requires Accounted(s) && m.key in s.messages
    requires countUnread && !m.record.outgoing ==> Times(s.counted, m.key) == 0 && m.key !in s.local
    ensures Accounted(UpsertChat(s, m, countUnread))
    ensures var t := UpsertChat(s, m, countUnread);
            t.total == s.total + if UpsertedChat(s, m, countUnread).1 then 1 else 0
  {
    SumAfterUpdate(s.chats, m.key.chat, UpsertedChat(s, m, countUnread).0);
    var t := UpsertChat(s, m, countUnread);
    forall k ensures Times(t.counted, k) <= 1 && (Times(t.counted, k) == 1 ==> k in t.messages && k !in t.local) {
      assert k != m.key ==> Times(t.counted, k) == Times(s.counted, k);
    }
  }

  lemma ClearKeepsAccounts(s: State, chat: string, c: Chat)
    requires Accounted(s) && chat in s.chats && c.unread == s.chats[chat].unread
    ensures Accounted(ClearUnread(s, chat, c))
    ensures ClearUnread(s, chat, c).total == s.total - c.unread
  {
    SumAfterUpdate(s.chats, chat, c.(unread := 0, firstUnread := ""));
    SumWithout(s.chats, chat);
  }

  lemma SyncKeepsChatsSound(s: State, c: Conversation)
    requires forall k :: k in s.chats ==> ChatSound(s.chats[k])
    ensures forall k :: k in SyncConversation(s, c).chats ==> ChatSound(SyncConversation(s, c).chats[k])
  {
    assert UnreadOf(c).1 != "" ==> UnreadOf(c).0 > 0;
  }

  lemma {:induction false} SyncAllKeepsSound(s: State, convs: seq<Conversation>)
    requires forall k :: k in s.chats ==> ChatSound(s.chats[k])
    ensures var t := SyncAll(s, convs);
            && (forall k :: k in t.chats ==> ChatSound(t.chats[k]))
            && s.messages.Keys <= t.messages.Keys && t.counted == s.counted && t.local == s.local
    decreases |convs|
  {
    if convs != [] {
      SyncKeepsChatsSound(s, convs[0]);
      SyncAllKeepsSound(SyncConversation(s, convs[0]), convs[1..]);
    }
  }

  lemma StepKeepsAccounts(s: State, step: Step)
    requires Accounted(s) && Enabled(s, step)
    ensures Accounted(Apply(s, step))
  {
    match step
    case Store(m) =>
      UpsertKeepsAccounts(s.(messages := s.messages[m.key := m.record]), m, m.key !in s.messages);
    case Edit(k, record) =>
      if k in s.messages && k.chat !in s.chats {
        UpsertKeepsAccounts(s.(messages := s.messages[k := record]), Message(k, record), false);
      }
    case Remember(chat) =>
      SumAfterUpdate(s.chats, chat, Chat(0, "", 0, NoReceipt));
    case Queue(m) =>
      UpsertKeepsAccounts(s.(messages := s.messages[m.key := m.record], local := s.local + {m.key}), m, true);
    case Complete(k, sent) =>
      UpsertKeepsAccounts(s.(messages := (s.messages - {k})[sent.key := sent.record]), sent, true);
    case Receive(chat, keys, status, fromMe) => ReceiptKeepsAccounts(s, chat, keys, status, fromMe);
    case Read(chat, keys) =>
      if chat in s.chats {
        var incoming := set k | k in keys && k in s.messages && !s.messages[k].outgoing;
        ClearKeepsAccounts(s.(messages := Upgraded(s.messages, incoming, ReadReceipt)), chat, s.chats[chat]);
      }
    case Sync(convs) =>
      SyncAllKeepsSound(s, convs);
    case Recount =>
  }

  lemma ReceiptKeepsAccounts(s: State, chat: string, keys: set<MessageKey>, status: Receipt, fromMe: bool)
    requires Accounted(s)
    ensures Accounted(ApplyReceipt(s, chat, keys, status, fromMe))
  {
    var t := s.(messages := Upgraded(s.messages, keys, status));
    if chat in s.chats {
      var c := s.chats[chat];
      var c' := if !fromMe && c.receipt != NoReceipt && IsUpgrade(c.receipt, status) then c.(receipt := status) else c;
      SumAfterUpdate(t.chats, chat, c');
      ClearKeepsAccounts(t, chat, c');
    }
  }

  // ---- main results ------------------------------------------------------------------------------

  lemma {:induction false} RunKeepsAccounts(steps: seq<Step>)
    requires Run(steps).Reached?
    ensures Accounted(Run(steps).state)
  {
    if steps != [] {
      var last := |steps| - 1;
      RunKeepsAccounts(steps[..last]);
      StepKeepsAccounts(Run(steps[..last]).state, steps[last]);
    }
  }

  /**
   Over any run, with any redeliveries: the total is the sum of the chats' counts, a chat that names
   its first unread message has unread ones, and no message has raised a count more than once.
   */
  lemma TotalIsTheSum(steps: seq<Step>, chat: string, k: MessageKey)
    requires Run(steps).Reached?
    ensures var s := Run(steps).state;
            && s.total == Sum(s.chats)
            && (chat in s.chats && s.chats[chat].firstUnread != "" ==> s.chats[chat].unread > 0)
            && Times(s.counted, k) <= 1
  {
    RunKeepsAccounts(steps);
    var s := Run(steps).state;
    assert chat in s.chats ==> ChatSound(s.chats[chat]);
  }

  /** Clearing a chat never meets the floor at zero: the total has at least what is taken away. */
  lemma FloorIsNeverMet(steps: seq<Step>, chat: string)
    requires Run(steps).Reached? && chat in Run(steps).state.chats
    ensures var s := Run(steps).state;
            s.total >= s.chats[chat].unread
            && ClearUnread(s, chat, s.chats[chat]).total == s.total - s.chats[chat].unread
  {
    RunKeepsAccounts(steps);
    ClearKeepsAccounts(Run(steps).state, chat, Run(steps).state.chats[chat]);
  }

  /** Receipts only move forward, for messages and for chats. */
  lemma ReceiptsNeverGoBack(s: State, chat: string, keys: set<MessageKey>, status: Receipt, fromMe: bool)
    ensures var t := ApplyReceipt(s, chat, keys, status, fromMe);
            && (forall k :: k in s.messages ==> k in t.messages && Rank(s.messages[k].receipt) <= Rank(t.messages[k].receipt))
            && (forall k :: k in s.messages && k !in keys ==> t.messages[k] == s.messages[k])
            && (forall c :: c in s.chats ==> c in t.chats && Rank(s.chats[c].receipt) <= Rank(t.chats[c].receipt))
  {
  }

  // ---- the unread slice of a conversation --------------------------------------------------------

  ghost predicate InOrder(s: seq<Incoming>) {
    forall i, j :: 0 <= i < j < |s| ==> !Before(s[j], s[i])
  }

  lemma {:induction false} InsertByTimeSorts(s: seq<Incoming>, x: Incoming)
    requires InOrder(s)
    ensures InOrder(InsertByTime(s, x)) && multiset(InsertByTime(s, x)) == multiset(s) + multiset{x}
  {
    LessLaws();
    if s == [] || Before(x, s[0]) {
      assert forall j :: 0 <= j < |s| ==> !Before(s[j], x);
    } else {
      InsertByTimeSorts(s[1..], x);
      assert s == [s[0]] + s[1..];
      var rest := InsertByTime(s[1..], x);
      forall j | 0 <= j < |rest| ensures !Before(rest[j], s[0]) {
        assert rest[j] in multiset(rest);
        assert rest[j] == x || rest[j] in s[1..];
      }
    }
  }

  lemma {:induction false} SortByTimeSorts(s: seq<Incoming>)
    ensures InOrder(SortByTime(s)) && multiset(SortByTime(s)) == multiset(s)
  {
    if s != [] {
      SortByTimeSorts(s[..|s| - 1]);
      InsertByTimeSorts(SortByTime(s[..|s| - 1]), s[|s| - 1]);
      assert s == s[..|s| - 1] + [s[|s| - 1]];
    }
  }

  /**
   The unread slice splits the countable messages in two: as many as the server counts, all of them if
   it counts more, and none of those left out is later than any of them.
   */
  lemma SliceIsLatest(c: Conversation) returns (read: seq<Incoming>)
    ensures multiset(read) + multiset(UnreadSlice(c)) == multiset(c.incoming)
    ensures |UnreadSlice(c)| <= UnreadOf(c).0
    ensures read != [] ==> |UnreadSlice(c)| == UnreadOf(c).0
    ensures forall r, u :: r in read && u in UnreadSlice(c) ==> !Before(u, r)
    ensures forall u :: u in UnreadSlice(c) ==> !Before(u, UnreadSlice(c)[0])
  {
    SortByTimeSorts(c.incoming);
    var sorted := SortByTime(c.incoming);
    var slice := UnreadSlice(c);
    var cut := |sorted| - |slice|;
    read := sorted[..cut];
    assert sorted == read + slice;
    forall u | u in slice ensures !Before(u, slice[0]) {
      var j :| 0 <= j < |slice| && slice[j] == u;
      if j == 0 {
        LessLaws();
      } else {
        assert sorted[cut] == slice[0] && sorted[cut + j] == u;
      }
    }
    forall r, u | r in read && u in slice ensures !Before(u, r) {
      var i :| 0 <= i < cut && sorted[i] == r;
      var j :| 0 <= j < |slice| && slice[j] == u;
      assert sorted[cut + j] == u;
    }
  }

  // ---- the code ----------------------------------------------------------------------------------

  class MessageStore {
    var messages: map<MessageKey, Record>
    var chats: map<string, Chat>
    var total: nat
    ghost var counted: map<MessageKey, nat>
    ghost var local: set<MessageKey>

    ghost function Contents(): State
      reads this
    {
      State(messages, chats, total, counted, local)
    }

    ghost predicate Valid()
      reads this
    {
      Accounted(Contents())
    }

    constructor ()
      ensures Valid() && Contents() == INITIAL
    {
      messages, chats, total, counted, local := map[], map[], 0, map[], {};
    }

    method IncrementUnreadTotal(amount: int)
      modifies this`total
      ensures total == Adjusted(old(total), amount)
    {
      var next: int := total + amount;
      if next < 0 {
        next := 0;
      }
      total := next;
    }

    /** Adds up the counts chat by chat. */
    method ReconcileUnreadTotal()
      modifies this`total
      ensures Contents() == Reconcile(old(Contents()))
    {
      var left, sum: nat := chats, 0;
      while left != map[]
        invariant chats == old(chats) && messages == old(messages) && counted == old(counted) && local == old(local)
        invariant sum + Sum(left) == Sum(chats)
        decreases |left|
      {
        assert exists k :: k in left;
        var k :| k in left;
        SumWithout(left, k);
        sum := sum + left[k].unread;
        left := left - {k};
      }
      total := sum;
    }

    method Upsert(m: Message, countUnread: bool)
      requires Valid() && m.key in messages
      requires countUnread && !m.record.outgoing ==> Times(counted, m.key) == 0 && m.key !in local
      modifies this`chats, this`total, this`counted
      ensures Valid() && Contents() == UpsertChat(old(Contents()), m, countUnread)
    {
      UpsertKeepsAccounts(Contents(), m, countUnread);
      ghost var before := Contents();
      var key := m.key;
      var c;
      if key.chat in chats {
        c := chats[key.chat];
        if key.timestamp >= c.lastTimestamp {
          c := c.(lastTimestamp := key.timestamp);
          if m.record.outgoing {
            c := c.(receipt := m.record.receipt);
          } else {
            c := c.(receipt := NoReceipt);
            if countUnread {
              if c.unread == 0 {
                c := c.(firstUnread := key.id);
              }
              c := c.(unread := c.unread + 1);
              IncrementUnreadTotal(1);
              counted := counted[key := Times(counted, key) + 1];
            }
          }
        }
      } else {
        var counts := !m.record.outgoing && countUnread;
        c := Chat(if counts then 1 else 0, if counts then key.id else "", key.timestamp,
                  if m.record.outgoing then m.record.receipt else NoReceipt);
        if counts {
          IncrementUnreadTotal(1);
          counted := counted[key := Times(counted, key) + 1];
        }
      }
      chats := chats[key.chat := c];
    }

    method StoreEvent(m: Message)
      requires Valid() && m.key !in local
      modifies this
      ensures Valid() && Contents() == StoreMessage(old(Contents()), m)
    {
      var alreadyStored := m.key in messages;
      messages := messages[m.key := m.record];
      Upsert(m, !alreadyStored);
    }

    method MarkMessagesAsRead(chat: string, keys: set<MessageKey>)
      requires Valid()
      modifies this
      ensures Valid() && Contents() == MarkRead(old(Contents()), chat, keys)
    {
      StepKeepsAccounts(Contents(), Read(chat, keys));
      var incoming := set k | k in keys && k in messages && !messages[k].outgoing;
      messages := Upgraded(messages, incoming, ReadReceipt);
      if chat in chats {
        var c := chats[chat];
        if c.unread > 0 || c.firstUnread != "" {
          chats := chats[chat := c.(unread := 0, firstUnread := "")];
          IncrementUnreadTotal(0 - c.unread as int);
        }
      }
    }
  }
}
