/**
 Importing one conversation of a history sync. Each of its messages is looked for in what the import
 has written so far, then by its index entry, then under its exact key, and only then by one scan of
 the chat, kept for the rest of the import. Writes go to a cache that lookups in the store do not see.
 */
module HistorySync {
  import opened Decimals
  import opened Joins
  import opened Options

  // ---- the store ---------------------------------------------------------------------------------

  datatype Record = Record(chat: string, id: string, timestamp: nat, receipt: string, content: string)

  datatype Stored = MessageRecord(record: Record) | IndexRecord(key: string) | OtherRecord

  type Table = map<string, Stored>

  datatype Write = Write(key: string, value: Stored)

  const MESSAGE_PREFIX := "message:"
  const INDEX_PREFIX := "message_index:"

  function ChatPrefix(chat: string): string {
    MESSAGE_PREFIX + chat + ":"
  }

  function StorageKey(chat: string, timestamp: nat, id: string): string {
    ChatPrefix(chat) + Print(timestamp) + ":" + id
  }

  function IndexKey(chat: string, id: string): string {
    INDEX_PREFIX + chat + ":" + id
  }

  function Commit(t: Table, writes: seq<Write>): Table {
    if writes == [] then t
    else
      var last := |writes| - 1;
      Commit(t, writes[..last])[writes[last].key := writes[last].value]
  }

  predicate Matches(v: Stored, chat: string, id: string) {
    v.MessageRecord? && v.record.id == id && v.record.chat == chat
  }

  /** Each kind of key holds its kind of record, as the store's contracts have it. */
  ghost predicate Typed(t: Table) {
    forall k :: k in t ==> (t[k].MessageRecord? <==> MESSAGE_PREFIX <= k) && (t[k].IndexRecord? <==> INDEX_PREFIX <= k)
  }

  /** A scan of the chat finds a record of the message. */
  ghost predicate HasRecord(t: Table, p: string -> bool, chat: string, id: string) {
    exists k :: k in t && p(k) && Matches(t[k], chat, id)
  }

  // ---- the import --------------------------------------------------------------------------------

  datatype Item = Item(id: string, timestamp: nat, receipt: string, content: string)

  datatype Entry = Entry(key: string, record: Record)

  datatype State = State(table: Table, cache: seq<Write>, existing: map<string, Entry>, legacy: Option<map<string, Entry>>)

  /** What the store will hold once the cache is committed. */
  function Pending(s: State): Table {
    Commit(s.table, s.cache)
  }

  /** The index leads to a record only if that record is the one asked for; an entry that does not is deleted. */
  function LookupIndex(t: Table, chat: string, id: string): (Table, Option<Entry>) {
    var ik := IndexKey(chat, id);
    if ik !in t || !t[ik].IndexRecord? || t[ik].key == "" then (t, None)
    else
      var k := t[ik].key;
      if ChatPrefix(chat) <= k && k in t && Matches(t[k], chat, id) then (t, Some(Entry(k, t[k].record)))
      else (t - {ik}, None)
  }

  predicate Belongs(t: Table, chat: string, k: string) {
    k in t && t[k].MessageRecord? && t[k].record.id != "" && t[k].record.chat == chat
  }

  function LegacyOf(t: Table, chat: string, scan: seq<string>): map<string, Entry> {
    if scan == [] then map[]
    else
      var k := scan[|scan| - 1];
      var front := LegacyOf(t, chat, scan[..|scan| - 1]);
      if Belongs(t, chat, k) then front[t[k].record.id := Entry(k, t[k].record)] else front
  }

  function LegacyWrites(t: Table, chat: string, scan: seq<string>): seq<Write> {
    if scan == [] then []
    else
      var k := scan[|scan| - 1];
      var front := LegacyWrites(t, chat, scan[..|scan| - 1]);
      if Belongs(t, chat, k) then front + [Write(IndexKey(chat, t[k].record.id), IndexRecord(k))] else front
  }

  function LoadLegacy(s: State, chat: string, scan: seq<string>): State {
    if s.legacy.Some? then s
    else s.(legacy := Some(LegacyOf(s.table, chat, scan)), cache := s.cache + LegacyWrites(s.table, chat, scan))
  }

  /** The chain of lookups behind the batch's own table. */
  function LookupStore(s: State, chat: string, item: Item, scan: seq<string>): (State, Option<Entry>) {
    var (table, byIndex) := LookupIndex(s.table, chat, item.id);
    if byIndex.Some? then (s, byIndex)
    else
      var t := s.(table := table);
      var exact := StorageKey(chat, item.timestamp, item.id);
      if exact in table && Matches(table[exact], chat, item.id) then
        (t.(cache := t.cache + [Write(IndexKey(chat, item.id), IndexRecord(exact))]),
         Some(Entry(exact, table[exact].record)))
      else
        var u := LoadLegacy(t, chat, scan);
        (u, if item.id in u.legacy.value then Some(u.legacy.value[item.id]) else None)
  }

  function Lookup(s: State, chat: string, item: Item, scan: seq<string>): (State, Option<Entry>) {
    if item.id in s.existing then (s, Some(s.existing[item.id]))
    else
      var (t, found) := LookupStore(s, chat, item, scan);
      (if found.Some? then t.(existing := t.existing[item.id := found.value]) else t, found)
  }

  function UpdateFound(s: State, id: string, e: Entry, receipt: string): State {
    if e.record.receipt == receipt then s
    else
      var r := e.record.(receipt := receipt);
      s.(cache := s.cache + [Write(e.key, MessageRecord(r))], existing := s.existing[id := Entry(e.key, r)])
  }

  function AddNew(s: State, chat: string, item: Item): State {
    var k := StorageKey(chat, item.timestamp, item.id);
    var r := Record(chat, item.id, item.timestamp, item.receipt, item.content);
    s.(cache := s.cache + [Write(k, MessageRecord(r)), Write(IndexKey(chat, item.id), IndexRecord(k))],
       existing := s.existing[item.id := Entry(k, r)])
  }

  function ProcessItem(s: State, chat: string, item: Item, scan: seq<string>): State {
    var (t, found) := Lookup(s, chat, item, scan);
    if found.Some? then UpdateFound(t, item.id, found.value, item.receipt) else AddNew(t, chat, item)
  }

  function ProcessItems(t: Table, chat: string, items: seq<Item>, scan: seq<string>): State {
    if items == [] then State(t, [], map[], None)
    else ProcessItem(ProcessItems(t, chat, items[..|items| - 1], scan), chat, items[|items| - 1], scan)
  }

  // ---- keys --------------------------------------------------------------------------------------

  lemma KeysOfOneChat(chat: string, t1: nat, id1: string, t2: nat, id2: string)
    ensures StorageKey(chat, t1, id1) == StorageKey(chat, t2, id2) <==> t1 == t2 && id1 == id2
    ensures ChatPrefix(chat) <= StorageKey(chat, t1, id1) && MESSAGE_PREFIX <= StorageKey(chat, t1, id1)
  {
    var a, b, n := StorageKey(chat, t1, id1), StorageKey(chat, t2, id2), |ChatPrefix(chat)|;
    var d1, d2 := Print(t1), Print(t2);
    assert a[n..] == d1 + ":" + id1 && b[n..] == d2 + ":" + id2;
    assert a[..|MESSAGE_PREFIX|] == MESSAGE_PREFIX;
    if a == b {
      var s := a[n..];
      assert s[|d1|] == ':' && s[|d2|] == ':';
      assert forall i :: 0 <= i < |d1| ==> s[i] == d1[i] && s[i] != ':';
      assert forall i :: 0 <= i < |d2| ==> s[i] == d2[i] && s[i] != ':';
      assert |d1| == |d2|;
      assert d1 == s[..|d1|] == d2;
      PrintIsInjective(t1, t2);
      assert id1 == s[|d1| + 1..] == id2;
    }
  }

  lemma IndexKeysDiffer(chat: string, id1: string, id2: string)
    ensures IndexKey(chat, id1) == IndexKey(chat, id2) <==> id1 == id2
    ensures INDEX_PREFIX <= IndexKey(chat, id1)
  {
    var a, b, n := IndexKey(chat, id1), IndexKey(chat, id2), |INDEX_PREFIX + chat + ":"|;
    assert a[n..] == id1 && b[n..] == id2;
    assert a[..|INDEX_PREFIX|] == INDEX_PREFIX;
  }

  lemma PrefixesDiffer(k: string)
    requires INDEX_PREFIX <= k
    ensures !(MESSAGE_PREFIX <= k)
  {
    assert k[7] == INDEX_PREFIX[7] == '_' && MESSAGE_PREFIX[7] == ':';
  }

  // ---- what the store will hold ------------------------------------------------------------------

  lemma CommitOne(t: Table, writes: seq<Write>, w: Write)
    ensures Commit(t, writes + [w]) == Commit(t, writes)[w.key := w.value]
  {
    assert (writes + [w])[..|writes|] == writes;
  }

  lemma {:induction false} CommitConcat(t: Table, a: seq<Write>, b: seq<Write>)
    ensures Commit(t, a + b) == Commit(Commit(t, a), b)
  {
    if b == [] {
      assert a + b == a;
    } else {
      assert (a + b)[..|a + b| - 1] == a + b[..|b| - 1];
      CommitConcat(t, a, b[..|b| - 1]);
    }
  }

  /** Deleting a key from the table below leaves every other key of the committed table as it was. */
  lemma {:induction false} CommitBelow(t: Table, writes: seq<Write>, deleted: string, k: string)
    requires k != deleted
    ensures k in Commit(t - {deleted}, writes) <==> k in Commit(t, writes)
    ensures k in Commit(t, writes) ==> Commit(t - {deleted}, writes)[k] == Commit(t, writes)[k]
  {
    if writes != [] {
      CommitBelow(t, writes[..|writes| - 1], deleted, k);
    }
  }

  // ---- invariants of the import ------------------------------------------------------------------

  predicate IsMessage(t: Table, k: string) {
    k in t && t[k].MessageRecord?
  }

  /** An existing record stays where it is, and only a message of the batch may change, in its receipt. */
  ghost predicate KeptAt(t0: Table, after: Table, chat: string, ids: set<string>, k: string)
    requires IsMessage(t0, k)
  {
    && IsMessage(after, k)
    && after[k].record == t0[k].record.(receipt := after[k].record.receipt)
    && (after[k] != t0[k] ==> t0[k].record.chat == chat && t0[k].record.id in ids)
  }

  /** A record that was not there belongs to a message of the batch that had none. */
  ghost predicate NewAt(t0: Table, s: State, p: string -> bool, chat: string, k: string)
    requires IsMessage(Pending(s), k)
  {
    var r := Pending(s)[k].record;
    && r.chat == chat
    && k == StorageKey(chat, r.timestamp, r.id)
    && r.id in s.existing && s.existing[r.id].key == k
    && !HasRecord(t0, p, chat, r.id)
  }

  ghost predicate EntryFits(t: Table, p: string -> bool, chat: string, id: string, e: Entry) {
    e.key in t && t[e.key] == MessageRecord(e.record) && Matches(t[e.key], chat, id) && p(e.key)
  }

  ghost predicate LeadsRight(t: Table, chat: string, id: string) {
    var ik := IndexKey(chat, id);
    ik in t && t[ik].IndexRecord? && t[ik].key in t && Matches(t[t[ik].key], chat, id)
  }

  ghost predicate LegacyFits(t0: Table, p: string -> bool, chat: string, legacy: map<string, Entry>) {
    && (forall id :: id in legacy ==> EntryFits(t0, p, chat, id, legacy[id]))
    && (forall k :: Belongs(t0, chat, k) && p(k) ==> t0[k].record.id in legacy)
  }

  ghost predicate Pruned(t0: Table, t: Table) {
    && (forall k :: k in t ==> k in t0 && t[k] == t0[k])
    && (forall k :: IsMessage(t0, k) ==> k in t)
  }

  ghost predicate Invariant(t0: Table, p: string -> bool, chat: string, s: State) {
    && Pruned(t0, s.table)
    && Typed(Pending(s))
    && (forall k :: IsMessage(t0, k) ==> KeptAt(t0, Pending(s), chat, s.existing.Keys, k))
    && (forall k :: IsMessage(Pending(s), k) && !IsMessage(t0, k) ==> NewAt(t0, s, p, chat, k))
    && (forall id :: id in s.existing ==> EntryFits(Pending(s), p, chat, id, s.existing[id]))
    && (s.legacy.Some? ==> LegacyFits(t0, p, chat, s.legacy.value))
    && (s.legacy.Some? ==> forall id :: id in s.legacy.value ==> Written(s.cache, IndexKey(chat, id)))
    && (forall id :: IndexHolds(s, chat, id))
  }

  ghost predicate Written(writes: seq<Write>, k: string) {
    exists i :: 0 <= i < |writes| && writes[i].key == k
  }

  /** An index entry this import wrote leads right, and every message it has placed has one that does. */
  ghost predicate IndexHolds(s: State, chat: string, id: string) {
    id in s.existing || Written(s.cache, IndexKey(chat, id)) ==> LeadsRight(Pending(s), chat, id)
  }

  /** What the cache does not write stays as it is in the table. */
  lemma {:induction false} CommitUnwritten(t: Table, writes: seq<Write>, k: string)
    requires !Written(writes, k)
    ensures k in Commit(t, writes) <==> k in t
    ensures k in t ==> Commit(t, writes)[k] == t[k]
  {
    if writes != [] {
      var last := |writes| - 1;
      assert forall i :: 0 <= i < last ==> writes[..last][i] == writes[i];
      CommitUnwritten(t, writes[..last], k);
    }
  }

  /** The scan lists what matches, and the pattern matches at least the keys with the chat's prefix. */
  ghost predicate Scans(t0: Table, p: string -> bool, chat: string, scan: seq<string>) {
    && (forall k :: k in scan <==> k in t0 && p(k))
    && (forall k :: ChatPrefix(chat) <= k ==> p(k))
  }

  // ---- changes that touch no message record ------------------------------------------------------

  /** The step adds index entries that lead right and may delete one that the batch has no use for. */
  ghost predicate OnlyIndex(s: State, t: State) {
    && t.existing == s.existing
    && Typed(Pending(t))
    && (forall k :: MESSAGE_PREFIX <= k ==>
          (k in Pending(s) <==> k in Pending(t)) && (k in Pending(s) ==> Pending(t)[k] == Pending(s)[k]))
  }

  lemma OnlyIndexKeepsRecords(t0: Table, p: string -> bool, chat: string, s: State, t: State)
    requires Invariant(t0, p, chat, s) && OnlyIndex(s, t) && Typed(t0) && Pruned(t0, t.table)
    requires t.legacy.Some? ==> LegacyFits(t0, p, chat, t.legacy.value)
    requires t.legacy.Some? ==> forall id :: id in t.legacy.value ==> Written(t.cache, IndexKey(chat, id))
    requires forall id :: IndexHolds(t, chat, id)
    ensures Invariant(t0, p, chat, t)
  {
    forall k | IsMessage(t0, k) ensures KeptAt(t0, Pending(t), chat, t.existing.Keys, k) {
      assert KeptAt(t0, Pending(s), chat, s.existing.Keys, k);
    }
    forall k | IsMessage(Pending(t), k) && !IsMessage(t0, k) ensures NewAt(t0, t, p, chat, k) {
      assert IsMessage(Pending(s), k) && NewAt(t0, s, p, chat, k);
    }
    forall id | id in t.existing ensures EntryFits(Pending(t), p, chat, id, t.existing[id]) {
      assert EntryFits(Pending(s), p, chat, id, s.existing[id]);
    }
  }

  lemma AddIndexWrite(t0: Table, p: string -> bool, chat: string, s: State, id: string, k: string)
    requires Invariant(t0, p, chat, s) && Typed(t0) && k in t0 && Matches(t0[k], chat, id)
    ensures var t := s.(cache := s.cache + [Write(IndexKey(chat, id), IndexRecord(k))]);
            Invariant(t0, p, chat, t) && LeadsRight(Pending(t), chat, id)
  {
    var w := Write(IndexKey(chat, id), IndexRecord(k));
    var t := s.(cache := s.cache + [w]);
    CommitOne(s.table, s.cache, w);
    IndexKeysDiffer(chat, id, id);
    PrefixesDiffer(IndexKey(chat, id));
    assert OnlyIndex(s, t);
    if t.legacy.Some? {
      forall other | other in t.legacy.value ensures Written(t.cache, IndexKey(chat, other)) {
        WrittenBefore(s.cache, w, IndexKey(chat, other));
      }
    }
    forall other ensures IndexHolds(t, chat, other) {
      IndexKeysDiffer(chat, id, other);
      assert IndexHolds(s, chat, other);
      if other != id && (other in t.existing || Written(t.cache, IndexKey(chat, other))) {
        WrittenBefore(s.cache, w, IndexKey(chat, other));
      }
    }
    OnlyIndexKeepsRecords(t0, p, chat, s, t);
  }

  lemma WrittenBefore(writes: seq<Write>, w: Write, k: string)
    ensures Written(writes + [w], k) <==> Written(writes, k) || w.key == k
  {
    assert (writes + [w])[|writes|] == w;
    if Written(writes, k) {
      var i :| 0 <= i < |writes| && writes[i].key == k;
      assert (writes + [w])[i].key == k;
    }
  }

  /** What the cache writes does not depend on the table below. */
  lemma {:induction false} CommitWritten(t: Table, u: Table, writes: seq<Write>, k: string)
    requires Written(writes, k)
    ensures k in Commit(t, writes) && k in Commit(u, writes) && Commit(t, writes)[k] == Commit(u, writes)[k]
  {
    var last := |writes| - 1;
    if writes[last].key != k {
      var i :| 0 <= i < |writes| && writes[i].key == k;
      assert writes[..last][i] == writes[i];
      CommitWritten(t, u, writes[..last], k);
    }
  }

  lemma DeleteIndex(t0: Table, p: string -> bool, chat: string, s: State, id: string)
    requires Invariant(t0, p, chat, s) && Typed(t0) && id !in s.existing
    ensures Invariant(t0, p, chat, s.(table := s.table - {IndexKey(chat, id)}))
  {
    var ik := IndexKey(chat, id);
    var t := s.(table := s.table - {ik});
    IndexKeysDiffer(chat, id, id);
    PrefixesDiffer(ik);
    assert OnlyIndex(s, t) by {
      DeleteIsOnlyIndex(s, t, ik);
    }
    forall other ensures IndexHolds(t, chat, other) {
      assert IndexHolds(s, chat, other);
      if other in t.existing || Written(t.cache, IndexKey(chat, other)) {
        IndexKeysDiffer(chat, id, other);
        if other == id {
          CommitWritten(s.table, t.table, s.cache, ik);
        } else {
          CommitBelow(s.table, s.cache, ik, IndexKey(chat, other));
        }
      }
    }
    OnlyIndexKeepsRecords(t0, p, chat, s, t);
  }

  lemma DeleteIsOnlyIndex(s: State, t: State, ik: string)
    requires t == s.(table := s.table - {ik}) && Typed(Pending(s)) && !(MESSAGE_PREFIX <= ik)
    ensures OnlyIndex(s, t)
  {
    forall k | k != ik ensures (k in Pending(t) <==> k in Pending(s)) && (k in Pending(s) ==> Pending(t)[k] == Pending(s)[k]) {
      CommitBelow(s.table, s.cache, ik, k);
    }
    if ik in Pending(t) {
      if Written(s.cache, ik) {
        CommitWritten(s.table, t.table, s.cache, ik);
      } else {
        CommitUnwritten(t.table, s.cache, ik);
      }
    }
  }

  // ---- loading the scan --------------------------------------------------------------------------

  lemma {:induction false} LegacyOfFits(t0: Table, t: Table, p: string -> bool, chat: string, scan: seq<string>)
    requires Pruned(t0, t) && forall k :: k in scan ==> p(k)
    ensures forall id :: id in LegacyOf(t, chat, scan) ==> EntryFits(t0, p, chat, id, LegacyOf(t, chat, scan)[id])
    ensures forall k :: k in scan && Belongs(t0, chat, k) ==> t0[k].record.id in LegacyOf(t, chat, scan)
  {
    if scan != [] {
      var last := |scan| - 1;
      assert scan == scan[..last] + [scan[last]];
      LegacyOfFits(t0, t, p, chat, scan[..last]);
    }
  }

  /** What lookups go by: the store but for index entries dropped, and the scan if it has been made. */
  ghost predicate Searchable(t0: Table, p: string -> bool, chat: string, s: State) {
    Pruned(t0, s.table) && (s.legacy.Some? ==> LegacyFits(t0, p, chat, s.legacy.value))
  }

  lemma LoadLegacySearches(t0: Table, p: string -> bool, chat: string, s: State, scan: seq<string>)
    requires Searchable(t0, p, chat, s) && Scans(t0, p, chat, scan)
    ensures Searchable(t0, p, chat, LoadLegacy(s, chat, scan))
  {
    if s.legacy.None? {
      LegacyOfFits(t0, s.table, p, chat, scan);
      forall k | Belongs(t0, chat, k) && p(k) ensures t0[k].record.id in LegacyOf(s.table, chat, scan) {
        assert k in scan;
      }
    }
  }

  lemma LegacyIsTheScan(t0: Table, p: string -> bool, chat: string, s: State, id: string)
    requires Searchable(t0, p, chat, s) && s.legacy.Some? && id != ""
    ensures id in s.legacy.value <==> HasRecord(t0, p, chat, id)
  {
    if HasRecord(t0, p, chat, id) {
      var k :| k in t0 && p(k) && Matches(t0[k], chat, id);
      assert Belongs(t0, chat, k);
    }
  }

  lemma {:induction false} LegacyWritesKeep(t0: Table, p: string -> bool, chat: string, s: State, scan: seq<string>)
    requires Invariant(t0, p, chat, s) && Typed(t0)
    ensures Invariant(t0, p, chat, s.(cache := s.cache + LegacyWrites(s.table, chat, scan)))
    ensures forall k :: k in scan && Belongs(s.table, chat, k) ==>
            Written(s.cache + LegacyWrites(s.table, chat, scan), IndexKey(chat, s.table[k].record.id))
  {
    if scan == [] {
      assert s.cache + [] == s.cache;
    } else {
      var last := |scan| - 1;
      var k := scan[last];
      LegacyWritesKeep(t0, p, chat, s, scan[..last]);
      assert scan == scan[..last] + [k];
      var front := s.cache + LegacyWrites(s.table, chat, scan[..last]);
      if Belongs(s.table, chat, k) {
        var id := s.table[k].record.id;
        AddIndexWrite(t0, p, chat, s.(cache := front), id, k);
        var w := Write(IndexKey(chat, id), IndexRecord(k));
        assert front + [w] == s.cache + LegacyWrites(s.table, chat, scan);
        forall j | j in scan && Belongs(s.table, chat, j)
          ensures Written(front + [w], IndexKey(chat, s.table[j].record.id))
        {
          WrittenBefore(front, w, IndexKey(chat, s.table[j].record.id));
        }
      }
    }
  }

  lemma {:induction false} LegacyIsScanned(t: Table, chat: string, scan: seq<string>)
    ensures forall id :: id in LegacyOf(t, chat, scan) ==>
            exists k :: k in scan && Belongs(t, chat, k) && t[k].record.id == id
  {
    if scan != [] {
      var last := |scan| - 1;
      LegacyIsScanned(t, chat, scan[..last]);
      assert scan == scan[..last] + [scan[last]];
    }
  }

  lemma LoadLegacyKeeps(t0: Table, p: string -> bool, chat: string, s: State, scan: seq<string>)
    requires Invariant(t0, p, chat, s) && Typed(t0) && Scans(t0, p, chat, scan)
    ensures var t := LoadLegacy(s, chat, scan);
            && Invariant(t0, p, chat, t) && t.legacy.Some? && t.existing == s.existing
  {
    if s.legacy.None? {
      LegacyWritesKeep(t0, p, chat, s, scan);
      LoadLegacySearches(t0, p, chat, s, scan);
      var t := s.(cache := s.cache + LegacyWrites(s.table, chat, scan));
      var u := t.(legacy := Some(LegacyOf(s.table, chat, scan)));
      LegacyIsScanned(s.table, chat, scan);
      assert Pending(u) == Pending(t);
      forall id ensures IndexHolds(u, chat, id) {
        assert IndexHolds(t, chat, id);
      }
      OnlyIndexKeepsRecords(t0, p, chat, t, u);
    }
  }

  // ---- one message -------------------------------------------------------------------------------

  lemma LookupStoreSearches(t0: Table, p: string -> bool, chat: string, s: State, item: Item, scan: seq<string>)
    requires Searchable(t0, p, chat, s) && Typed(t0) && Scans(t0, p, chat, scan) && item.id != ""
    ensures var (t, found) := LookupStore(s, chat, item, scan);
            && Searchable(t0, p, chat, t) && t.existing == s.existing
            && (found.Some? <==> HasRecord(t0, p, chat, item.id))
  {
    var exact := StorageKey(chat, item.timestamp, item.id);
    var (table, byIndex) := LookupIndex(s.table, chat, item.id);
    KeysOfOneChat(chat, item.timestamp, item.id, item.timestamp, item.id);
    if byIndex.Some? {
      assert p(byIndex.value.key);
    } else if exact in table && Matches(table[exact], chat, item.id) {
      assert p(exact);
    } else {
      var t := s.(table := table);
      LoadLegacySearches(t0, p, chat, t, scan);
      LegacyIsTheScan(t0, p, chat, LoadLegacy(t, chat, scan), item.id);
    }
  }

  /** The chain behind the batch finds a record exactly when a scan of the chat would, and finds a right one. */
  lemma LookupStoreFinds(t0: Table, p: string -> bool, chat: string, s: State, item: Item, scan: seq<string>)
    requires Invariant(t0, p, chat, s) && Typed(t0) && Scans(t0, p, chat, scan)
    requires item.id != "" && item.id !in s.existing
    ensures var (t, found) := LookupStore(s, chat, item, scan);
            && Invariant(t0, p, chat, t) && t.existing == s.existing
            && (found.Some? <==> HasRecord(t0, p, chat, item.id))
            && (found.Some? ==> EntryFits(t0, p, chat, item.id, found.value) && LeadsRight(Pending(t), chat, item.id))
  {
    var ik, exact := IndexKey(chat, item.id), StorageKey(chat, item.timestamp, item.id);
    var (table, byIndex) := LookupIndex(s.table, chat, item.id);
    KeysOfOneChat(chat, item.timestamp, item.id, item.timestamp, item.id);
    if byIndex.Some? {
      var k := byIndex.value.key;
      assert k in t0 && p(k) && Matches(t0[k], chat, item.id);
      IndexEntryLeadsRight(t0, p, chat, s, item.id, k);
    } else {
      var t := s.(table := table);
      if table != s.table {
        DeleteIndex(t0, p, chat, s, item.id);
      }
      if exact in table && Matches(table[exact], chat, item.id) {
        assert p(exact);
        AddIndexWrite(t0, p, chat, t, item.id, exact);
      } else {
        LoadLegacyKeeps(t0, p, chat, t, scan);
        LegacyDecides(t0, p, chat, LoadLegacy(t, chat, scan), item.id);
      }
    }
  }

  lemma IndexEntryLeadsRight(t0: Table, p: string -> bool, chat: string, s: State, id: string, k: string)
    requires Invariant(t0, p, chat, s) && k in t0 && Matches(t0[k], chat, id)
    requires IndexKey(chat, id) in s.table && s.table[IndexKey(chat, id)] == IndexRecord(k)
    ensures LeadsRight(Pending(s), chat, id)
  {
    assert IndexHolds(s, chat, id);
    if !Written(s.cache, IndexKey(chat, id)) {
      CommitUnwritten(s.table, s.cache, IndexKey(chat, id));
    }
  }

  lemma LegacyDecides(t0: Table, p: string -> bool, chat: string, s: State, id: string)
    requires Invariant(t0, p, chat, s) && s.legacy.Some? && id != ""
    ensures id in s.legacy.value <==> HasRecord(t0, p, chat, id)
    ensures id in s.legacy.value ==> EntryFits(t0, p, chat, id, s.legacy.value[id]) && LeadsRight(Pending(s), chat, id)
  {
    assert IndexHolds(s, chat, id);
    LegacyIsTheScan(t0, p, chat, s, id);
  }

  /** A record found in the store is unchanged by the batch until the batch has met its message. */
  lemma FoundIsUntouched(t0: Table, p: string -> bool, chat: string, s: State, id: string, e: Entry)
    requires Invariant(t0, p, chat, s) && EntryFits(t0, p, chat, id, e) && id !in s.existing
    ensures EntryFits(Pending(s), p, chat, id, e)
  {
    assert IsMessage(t0, e.key) && KeptAt(t0, Pending(s), chat, s.existing.Keys, e.key);
  }

  lemma RememberFound(t0: Table, p: string -> bool, chat: string, s: State, id: string, e: Entry)
    requires Invariant(t0, p, chat, s) && id !in s.existing
    requires EntryFits(t0, p, chat, id, e) && LeadsRight(Pending(s), chat, id)
    ensures Invariant(t0, p, chat, s.(existing := s.existing[id := e]))
  {
    var t := s.(existing := s.existing[id := e]);
    FoundIsUntouched(t0, p, chat, s, id, e);
    forall k | IsMessage(t0, k) ensures KeptAt(t0, Pending(t), chat, t.existing.Keys, k) {
      assert KeptAt(t0, Pending(s), chat, s.existing.Keys, k);
    }
    forall k | IsMessage(Pending(t), k) && !IsMessage(t0, k) ensures NewAt(t0, t, p, chat, k) {
      assert NewAt(t0, s, p, chat, k);
    }
    forall other ensures IndexHolds(t, chat, other) {
      assert IndexHolds(s, chat, other);
    }
  }

  lemma UpdateFoundKeeps(t0: Table, p: string -> bool, chat: string, s: State, id: string, receipt: string)
    requires Invariant(t0, p, chat, s) && Typed(t0) && id in s.existing
    ensures Invariant(t0, p, chat, UpdateFound(s, id, s.existing[id], receipt))
  {
    var e := s.existing[id];
    assert EntryFits(Pending(s), p, chat, id, e);
    if e.record.receipt != receipt {
      var r := e.record.(receipt := receipt);
      var t := UpdateFound(s, id, e, receipt);
      var w := Write(e.key, MessageRecord(r));
      CommitOne(s.table, s.cache, w);
      UpdateKeepsRecords(t0, p, chat, s, id, receipt);
      forall other ensures IndexHolds(t, chat, other) {
        assert IndexHolds(s, chat, other);
        IndexKeysDiffer(chat, other, other);
        PrefixesDiffer(IndexKey(chat, other));
        WrittenBefore(s.cache, w, IndexKey(chat, other));
      }
      if t.legacy.Some? {
        forall other | other in t.legacy.value ensures Written(t.cache, IndexKey(chat, other)) {
          WrittenBefore(s.cache, w, IndexKey(chat, other));
        }
      }
    }
  }

  lemma UpdateKeepsRecords(t0: Table, p: string -> bool, chat: string, s: State, id: string, receipt: string)
    requires Invariant(t0, p, chat, s) && id in s.existing
    requires s.existing[id].record.receipt != receipt
    ensures var t := UpdateFound(s, id, s.existing[id], receipt);
            && (forall k :: IsMessage(t0, k) ==> KeptAt(t0, Pending(t), chat, t.existing.Keys, k))
            && (forall k :: IsMessage(Pending(t), k) && !IsMessage(t0, k) ==> NewAt(t0, t, p, chat, k))
            && (forall other :: other in t.existing ==> EntryFits(Pending(t), p, chat, other, t.existing[other]))
            && Typed(Pending(t))
  {
    var e := s.existing[id];
    assert EntryFits(Pending(s), p, chat, id, e);
    var t := UpdateFound(s, id, e, receipt);
    CommitOne(s.table, s.cache, Write(e.key, MessageRecord(e.record.(receipt := receipt))));
    assert t.existing.Keys == s.existing.Keys;
    forall k | IsMessage(t0, k) ensures KeptAt(t0, Pending(t), chat, t.existing.Keys, k) {
      assert KeptAt(t0, Pending(s), chat, s.existing.Keys, k);
    }
    forall k | IsMessage(Pending(t), k) && !IsMessage(t0, k) ensures NewAt(t0, t, p, chat, k) {
      assert IsMessage(Pending(s), k) && NewAt(t0, s, p, chat, k);
    }
    forall other | other in t.existing ensures EntryFits(Pending(t), p, chat, other, t.existing[other]) {
      assert EntryFits(Pending(s), p, chat, other, s.existing[other]);
    }
  }

  /** The exact key of the message holds nothing, or a record of the message. */
  predicate KeyIsFree(t0: Table, chat: string, item: Item) {
    var k := StorageKey(chat, item.timestamp, item.id);
    k in t0 ==> Matches(t0[k], chat, item.id)
  }

  /** The message has a record already, or nothing stands in the way of a new one. */
  ghost predicate HasPlace(t0: Table, p: string -> bool, chat: string, item: Item) {
    HasRecord(t0, p, chat, item.id) || KeyIsFree(t0, chat, item)
  }

  /** So it is for every message of the batch when it first comes up. */
  ghost predicate HavePlaces(t0: Table, p: string -> bool, chat: string, items: seq<Item>) {
    forall i :: 0 <= i < |items| ==> items[i].id != "" && (items[i].id in Ids(items[..i]) || HasPlace(t0, p, chat, items[i]))
  }

  function Ids(items: seq<Item>): set<string> {
    set item | item in items :: item.id
  }

  lemma AddNewKeeps(t0: Table, p: string -> bool, chat: string, s: State, item: Item, scan: seq<string>)
    requires Invariant(t0, p, chat, s) && Typed(t0) && Scans(t0, p, chat, scan)
    requires item.id !in s.existing && !HasRecord(t0, p, chat, item.id) && KeyIsFree(t0, chat, item)
    ensures Invariant(t0, p, chat, AddNew(s, chat, item))
  {
    var k, ik := StorageKey(chat, item.timestamp, item.id), IndexKey(chat, item.id);
    var r := Record(chat, item.id, item.timestamp, item.receipt, item.content);
    var w, x := Write(k, MessageRecord(r)), Write(ik, IndexRecord(k));
    var t := AddNew(s, chat, item);
    KeysOfOneChat(chat, item.timestamp, item.id, item.timestamp, item.id);
    IndexKeysDiffer(chat, item.id, item.id);
    PrefixesDiffer(ik);
    assert s.cache + [w, x] == s.cache + [w] + [x];
    CommitOne(s.table, s.cache, w);
    CommitOne(s.table, s.cache + [w], x);
    assert Pending(t) == Pending(s)[k := MessageRecord(r)][ik := IndexRecord(k)];
    assert k !in t0;
    assert !(INDEX_PREFIX <= k) by {
      if INDEX_PREFIX <= k {
        PrefixesDiffer(k);
      }
    }
    AddKeepsRecords(t0, p, chat, s, item);
    forall other ensures IndexHolds(t, chat, other) {
      AddKeepsIndex(t0, p, chat, s, item, other);
    }
    if t.legacy.Some? {
      forall other | other in t.legacy.value ensures Written(t.cache, IndexKey(chat, other)) {
        WrittenBefore(s.cache, w, IndexKey(chat, other));
        WrittenBefore(s.cache + [w], x, IndexKey(chat, other));
      }
    }
  }

  /** What adding a message does to the store: its key was not taken, and nothing else is written but its index entry. */
  ghost predicate AddsPlainly(t0: Table, chat: string, s: State, item: Item) {
    var k, ik := StorageKey(chat, item.timestamp, item.id), IndexKey(chat, item.id);
    var r := Record(chat, item.id, item.timestamp, item.receipt, item.content);
    && k !in t0 && MESSAGE_PREFIX <= k && ChatPrefix(chat) <= k && !(INDEX_PREFIX <= k)
    && INDEX_PREFIX <= ik && !(MESSAGE_PREFIX <= ik)
    && Pending(AddNew(s, chat, item)) == Pending(s)[k := MessageRecord(r)][ik := IndexRecord(k)]
  }

  lemma AddKeepsRecords(t0: Table, p: string -> bool, chat: string, s: State, item: Item)
    requires Invariant(t0, p, chat, s) && Typed(t0) && AddsPlainly(t0, chat, s, item)
    requires forall key :: ChatPrefix(chat) <= key ==> p(key)
    requires item.id !in s.existing && !HasRecord(t0, p, chat, item.id)
    ensures var t := AddNew(s, chat, item);
            && (forall k :: IsMessage(t0, k) ==> KeptAt(t0, Pending(t), chat, t.existing.Keys, k))
            && (forall k :: IsMessage(Pending(t), k) && !IsMessage(t0, k) ==> NewAt(t0, t, p, chat, k))
            && (forall other :: other in t.existing ==> EntryFits(Pending(t), p, chat, other, t.existing[other]))
            && Typed(Pending(t))
  {
    var t := AddNew(s, chat, item);
    forall k | IsMessage(t0, k) ensures KeptAt(t0, Pending(t), chat, t.existing.Keys, k) {
      assert KeptAt(t0, Pending(s), chat, s.existing.Keys, k);
    }
    forall k | IsMessage(Pending(t), k) && !IsMessage(t0, k) ensures NewAt(t0, t, p, chat, k) {
      AddIsNew(t0, p, chat, s, item, k);
    }
    AddKeepsEntries(t0, p, chat, s, t, item);
  }

  lemma AddIsNew(t0: Table, p: string -> bool, chat: string, s: State, item: Item, k: string)
    requires Invariant(t0, p, chat, s) && AddsPlainly(t0, chat, s, item)
    requires item.id !in s.existing && !HasRecord(t0, p, chat, item.id)
    requires IsMessage(Pending(AddNew(s, chat, item)), k) && !IsMessage(t0, k)
    ensures NewAt(t0, AddNew(s, chat, item), p, chat, k)
  {
    if k != StorageKey(chat, item.timestamp, item.id) {
      assert IsMessage(Pending(s), k) && NewAt(t0, s, p, chat, k);
    }
  }

  lemma AddKeepsEntries(t0: Table, p: string -> bool, chat: string, s: State, t: State, item: Item)
    requires Invariant(t0, p, chat, s) && item.id !in s.existing
    requires var k := StorageKey(chat, item.timestamp, item.id); k !in t0 && p(k) && MESSAGE_PREFIX <= k
    requires !(MESSAGE_PREFIX <= IndexKey(chat, item.id))
    requires var k := StorageKey(chat, item.timestamp, item.id);
             var r := Record(chat, item.id, item.timestamp, item.receipt, item.content);
             && t.existing == s.existing[item.id := Entry(k, r)]
             && Pending(t) == Pending(s)[k := MessageRecord(r)][IndexKey(chat, item.id) := IndexRecord(k)]
    ensures forall other :: other in t.existing ==> EntryFits(Pending(t), p, chat, other, t.existing[other])
  {
    forall other | other in t.existing ensures EntryFits(Pending(t), p, chat, other, t.existing[other]) {
      if other != item.id {
        assert EntryFits(Pending(s), p, chat, other, s.existing[other]);
        KeyIsNotTaken(t0, p, chat, s, item, other);
      }
    }
  }

  /** No entry of another message of the batch sits under the new message's key. */
  lemma KeyIsNotTaken(t0: Table, p: string -> bool, chat: string, s: State, item: Item, other: string)
    requires Invariant(t0, p, chat, s) && other in s.existing && other != item.id
    requires StorageKey(chat, item.timestamp, item.id) !in t0
    ensures s.existing[other].key != StorageKey(chat, item.timestamp, item.id)
  {
    var k := s.existing[other].key;
    assert EntryFits(Pending(s), p, chat, other, s.existing[other]);
    if !IsMessage(t0, k) {
      assert NewAt(t0, s, p, chat, k);
      KeysOfOneChat(chat, s.existing[other].record.timestamp, other, item.timestamp, item.id);
    }
  }

  lemma AddKeepsIndex(t0: Table, p: string -> bool, chat: string, s: State, item: Item, other: string)
    requires Invariant(t0, p, chat, s) && item.id !in s.existing
    requires StorageKey(chat, item.timestamp, item.id) !in t0
    requires !(INDEX_PREFIX <= StorageKey(chat, item.timestamp, item.id))
    requires var k := StorageKey(chat, item.timestamp, item.id);
             var r := Record(chat, item.id, item.timestamp, item.receipt, item.content);
             Pending(AddNew(s, chat, item)) == Pending(s)[k := MessageRecord(r)][IndexKey(chat, item.id) := IndexRecord(k)]
    ensures IndexHolds(AddNew(s, chat, item), chat, other)
  {
    var k, ik := StorageKey(chat, item.timestamp, item.id), IndexKey(chat, item.id);
    var r := Record(chat, item.id, item.timestamp, item.receipt, item.content);
    KeysOfOneChat(chat, item.timestamp, item.id, item.timestamp, item.id);
    IndexKeysDiffer(chat, item.id, other);
    IndexKeysDiffer(chat, other, other);
    PrefixesDiffer(ik);
    if other != item.id && (other in s.existing || Written(AddNew(s, chat, item).cache, IndexKey(chat, other))) {
      WrittenByAdd(s, chat, item, IndexKey(chat, other));
      assert IndexHolds(s, chat, other);
      LedIsNotTaken(t0, p, chat, s, item, other);
      LeadsRightAfterAdd(Pending(s), chat, other, k, r, ik);
    } else if other == item.id {
      assert Matches(MessageRecord(r), chat, item.id);
    }
  }

  lemma WrittenByAdd(s: State, chat: string, item: Item, ik: string)
    requires ik != StorageKey(chat, item.timestamp, item.id)
    ensures Written(AddNew(s, chat, item).cache, ik) <==> Written(s.cache, ik) || ik == IndexKey(chat, item.id)
  {
    var k := StorageKey(chat, item.timestamp, item.id);
    var r := Record(chat, item.id, item.timestamp, item.receipt, item.content);
    var w, x := Write(k, MessageRecord(r)), Write(IndexKey(chat, item.id), IndexRecord(k));
    assert AddNew(s, chat, item).cache == s.cache + [w] + [x];
    WrittenBefore(s.cache, w, ik);
    WrittenBefore(s.cache + [w], x, ik);
  }

  /** No index entry of another message leads to the new message's key. */
  lemma LedIsNotTaken(t0: Table, p: string -> bool, chat: string, s: State, item: Item, other: string)
    requires Invariant(t0, p, chat, s) && item.id !in s.existing
    requires StorageKey(chat, item.timestamp, item.id) !in t0 && LeadsRight(Pending(s), chat, other)
    ensures Pending(s)[IndexKey(chat, other)].key != StorageKey(chat, item.timestamp, item.id)
  {
    var led := Pending(s)[IndexKey(chat, other)].key;
    if !IsMessage(t0, led) {
      assert NewAt(t0, s, p, chat, led);
      KeysOfOneChat(chat, Pending(s)[led].record.timestamp, other, item.timestamp, item.id);
    }
  }

  lemma LeadsRightAfterAdd(before: Table, chat: string, other: string, k: string, r: Record, ik: string)
    requires LeadsRight(before, chat, other) && Typed(before)
    requires IndexKey(chat, other) != ik && IndexKey(chat, other) != k && before[IndexKey(chat, other)].key != k
    requires INDEX_PREFIX <= ik && !(MESSAGE_PREFIX <= ik)
    ensures LeadsRight(before[k := MessageRecord(r)][ik := IndexRecord(k)], chat, other)
  {
    assert MESSAGE_PREFIX <= before[IndexKey(chat, other)].key;
  }

  lemma ProcessItemKeeps(t0: Table, p: string -> bool, chat: string, s: State, item: Item, scan: seq<string>)
    requires Invariant(t0, p, chat, s) && Typed(t0) && Scans(t0, p, chat, scan)
    requires item.id != "" && (item.id in s.existing || HasPlace(t0, p, chat, item))
    ensures Invariant(t0, p, chat, ProcessItem(s, chat, item, scan))
    ensures ProcessItem(s, chat, item, scan).existing.Keys == s.existing.Keys + {item.id}
    ensures Lookup(s, chat, item, scan).1.Some? <==> item.id in s.existing || HasRecord(t0, p, chat, item.id)
  {
    var (t, found) := Lookup(s, chat, item, scan);
    if item.id !in s.existing {
      LookupStoreFinds(t0, p, chat, s, item, scan);
      var u := LookupStore(s, chat, item, scan).0;
      if found.Some? {
        RememberFound(t0, p, chat, u, item.id, found.value);
        UpdateFoundKeeps(t0, p, chat, t, item.id, item.receipt);
      } else {
        AddNewKeeps(t0, p, chat, u, item, scan);
      }
    } else {
      UpdateFoundKeeps(t0, p, chat, t, item.id, item.receipt);
    }
  }

  // ---- main results ------------------------------------------------------------------------------

  lemma IdsOneMore(items: seq<Item>)
    requires items != []
    ensures Ids(items) == Ids(items[..|items| - 1]) + {items[|items| - 1].id}
  {
    assert items == items[..|items| - 1] + [items[|items| - 1]];
  }

  lemma EarlierHavePlaces(t0: Table, p: string -> bool, chat: string, items: seq<Item>, n: nat)
    requires HavePlaces(t0, p, chat, items) && n <= |items|
    ensures HavePlaces(t0, p, chat, items[..n])
  {
    forall i | 0 <= i < n ensures items[..n][i] == items[i] && items[..n][..i] == items[..i] {
    }
  }

  lemma {:induction false} ProcessItemsKeep(t0: Table, p: string -> bool, chat: string, items: seq<Item>, scan: seq<string>)
    requires Typed(t0) && Scans(t0, p, chat, scan)
    requires HavePlaces(t0, p, chat, items)
    ensures Invariant(t0, p, chat, ProcessItems(t0, chat, items, scan))
    ensures ProcessItems(t0, chat, items, scan).existing.Keys == Ids(items)
  {
    if items != [] {
      var last := |items| - 1;
      EarlierHavePlaces(t0, p, chat, items, last);
      ProcessItemsKeep(t0, p, chat, items[..last], scan);
      ProcessItemKeeps(t0, p, chat, ProcessItems(t0, chat, items[..last], scan), items[last], scan);
      IdsOneMore(items);
    }
  }

  lemma ProcessItemSearches(t0: Table, p: string -> bool, chat: string, s: State, item: Item, scan: seq<string>)
    requires Searchable(t0, p, chat, s) && Typed(t0) && Scans(t0, p, chat, scan) && item.id != ""
    ensures Searchable(t0, p, chat, ProcessItem(s, chat, item, scan))
    ensures ProcessItem(s, chat, item, scan).existing.Keys == s.existing.Keys + {item.id}
  {
    LookupStoreSearches(t0, p, chat, s, item, scan);
  }

  lemma {:induction false} ProcessItemsSearch(t0: Table, p: string -> bool, chat: string, items: seq<Item>, scan: seq<string>)
    requires Typed(t0) && Scans(t0, p, chat, scan) && forall j :: 0 <= j < |items| ==> items[j].id != ""
    ensures Searchable(t0, p, chat, ProcessItems(t0, chat, items, scan))
    ensures ProcessItems(t0, chat, items, scan).existing.Keys == Ids(items)
  {
    if items != [] {
      var last := |items| - 1;
      ProcessItemsSearch(t0, p, chat, items[..last], scan);
      ProcessItemSearches(t0, p, chat, ProcessItems(t0, chat, items[..last], scan), items[last], scan);
      IdsOneMore(items);
    }
  }

  /**
   The lookup chain is a full scan in disguise: a message is found exactly when some record of the chat,
   or some earlier message of the batch, is the one.
   */
  lemma LookupIsFullScan(t0: Table, p: string -> bool, chat: string, items: seq<Item>, i: nat, scan: seq<string>)
    requires Typed(t0) && Scans(t0, p, chat, scan) && i < |items|
    requires forall j :: 0 <= j < |items| ==> items[j].id != ""
    ensures Lookup(ProcessItems(t0, chat, items[..i], scan), chat, items[i], scan).1.Some?
            <==> HasRecord(t0, p, chat, items[i].id) || items[i].id in Ids(items[..i])
  {
    ProcessItemsSearch(t0, p, chat, items[..i], scan);
    LookupStoreSearches(t0, p, chat, ProcessItems(t0, chat, items[..i], scan), items[i], scan);
  }

  /**
   After the commit: every record there was is still there and differs at most in its receipt, and then
   only if the batch named it; a record that is new belongs to a message of the batch that had none, and
   it is that message's only one; and the index leads from every message of the batch to its record.
   */
  lemma ImportAddsNoDuplicates(t0: Table, p: string -> bool, chat: string, items: seq<Item>, scan: seq<string>)
    requires Typed(t0) && Scans(t0, p, chat, scan)
    requires HavePlaces(t0, p, chat, items)
    ensures var after := Pending(ProcessItems(t0, chat, items, scan));
            && (forall k :: IsMessage(t0, k) ==> KeptAt(t0, after, chat, Ids(items), k))
            && (forall k :: IsMessage(after, k) && !IsMessage(t0, k) ==>
                  && after[k].record.chat == chat && after[k].record.id in Ids(items)
                  && !HasRecord(t0, p, chat, after[k].record.id)
                  && forall j :: IsMessage(after, j) && p(j) && Matches(after[j], chat, after[k].record.id) ==> j == k)
            && (forall id :: id in Ids(items) ==> LeadsRight(after, chat, id))
  {
    ProcessItemsKeep(t0, p, chat, items, scan);
    var s := ProcessItems(t0, chat, items, scan);
    var after := Pending(s);
    forall j | IsMessage(t0, j) && p(j) && IsMessage(after, j) && after[j].record.chat == chat
      ensures HasRecord(t0, p, chat, after[j].record.id)
    {
      assert KeptAt(t0, after, chat, s.existing.Keys, j);
      assert Matches(t0[j], chat, after[j].record.id);
    }
    forall k | IsMessage(after, k) && !IsMessage(t0, k)
      ensures after[k].record.chat == chat && after[k].record.id in Ids(items)
      ensures !HasRecord(t0, p, chat, after[k].record.id)
      ensures forall j :: IsMessage(after, j) && p(j) && Matches(after[j], chat, after[k].record.id) ==> j == k
    {
      assert NewAt(t0, s, p, chat, k);
      forall j | IsMessage(after, j) && p(j) && Matches(after[j], chat, after[k].record.id) ensures j == k {
        assert !IsMessage(t0, j);
        assert NewAt(t0, s, p, chat, j);
      }
    }
    forall id | id in Ids(items) ensures LeadsRight(after, chat, id) {
      assert IndexHolds(s, chat, id);
    }
  }

  lemma StorageKeyIsJoined(chat: string, timestamp: nat, id: string)
    ensures StorageKey(chat, timestamp, id)[|MESSAGE_PREFIX|..] == Join(chat, Join(Print(timestamp), id))
    ensures StorageKey(chat, timestamp, id)[..|MESSAGE_PREFIX|] == MESSAGE_PREFIX
    ensures |MESSAGE_PREFIX| <= |StorageKey(chat, timestamp, id)|
  {
    assert StorageKey(chat, timestamp, id) == MESSAGE_PREFIX + Join(chat, Join(Print(timestamp), id));
  }

  /**
   Why the exact keys must be free: two messages share a storage key if and only if they are the same, or
   the name of one chat goes on, after the other's and a colon, with what makes up the difference.
   */
  lemma KeysCoincideExactly(c1: string, t1: nat, id1: string, c2: string, t2: nat, id2: string)
    ensures StorageKey(c1, t1, id1) == StorageKey(c2, t2, id2) <==>
            || (c1 == c2 && t1 == t2 && id1 == id2)
            || Shifted(c1, Join(Print(t1), id1), c2, Join(Print(t2), id2))
            || Shifted(c2, Join(Print(t2), id2), c1, Join(Print(t1), id1))
  {
    var a, b := StorageKey(c1, t1, id1), StorageKey(c2, t2, id2);
    StorageKeyIsJoined(c1, t1, id1);
    StorageKeyIsJoined(c2, t2, id2);
    assert a == a[..|MESSAGE_PREFIX|] + a[|MESSAGE_PREFIX|..] && b == b[..|MESSAGE_PREFIX|] + b[|MESSAGE_PREFIX|..];
    JoinsAgreeExactly(c1, Join(Print(t1), id1), c2, Join(Print(t2), id2));
    if c1 == c2 {
      KeysOfOneChat(c1, t1, id1, t2, id2);
    }
  }

  /** It takes no more than a colon in a chat's name. */
  lemma KeysOfTwoChatsMayCoincide()
    ensures StorageKey("c", 1, "2:x") == StorageKey("c:1", 2, "x")
  {
    assert Print(1) == "1" && Print(2) == "2";
    assert "c" + ":" + "1" + ":" + "2:x" == "c:1:2:x";
    assert "c:1" + ":" + "2" + ":" + "x" == "c:1:2:x";
    assert ChatPrefix("c") + "1" + ":" + "2:x" == MESSAGE_PREFIX + "c:1:2:x";
    assert ChatPrefix("c:1") + "2" + ":" + "x" == MESSAGE_PREFIX + "c:1:2:x";
  }

  /** A message nobody has takes its exact key, whatever stood there. */
  lemma TakenKeyIsOverwritten(t0: Table, p: string -> bool, chat: string, item: Item, scan: seq<string>)
    requires Typed(t0) && Scans(t0, p, chat, scan) && item.id != ""
    requires !HasRecord(t0, p, chat, item.id)
    ensures var k := StorageKey(chat, item.timestamp, item.id);
            var after := Pending(ProcessItems(t0, chat, [item], scan));
            && k in after && Matches(after[k], chat, item.id)
            && (IsMessage(t0, k) ==> !KeptAt(t0, after, chat, {item.id}, k))
  {
    var s := State(t0, [], map[], None);
    assert [item][..0] == [];
    assert Invariant(t0, p, chat, s);
    LookupStoreFinds(t0, p, chat, s, item, scan);
    var u := LookupStore(s, chat, item, scan).0;
    var k, ik := StorageKey(chat, item.timestamp, item.id), IndexKey(chat, item.id);
    var r := Record(chat, item.id, item.timestamp, item.receipt, item.content);
    assert u.cache + [Write(k, MessageRecord(r)), Write(ik, IndexRecord(k))]
        == u.cache + [Write(k, MessageRecord(r))] + [Write(ik, IndexRecord(k))];
    CommitOne(u.table, u.cache, Write(k, MessageRecord(r)));
    CommitOne(u.table, u.cache + [Write(k, MessageRecord(r))], Write(ik, IndexRecord(k)));
    KeysOfOneChat(chat, item.timestamp, item.id, item.timestamp, item.id);
    IndexKeysDiffer(chat, item.id, item.id);
    PrefixesDiffer(ik);
    assert p(k);
  }

  /** Importing one message keeps every record there was, if and only if the message has its place. */
  lemma ImportKeepsRecordsExactly(t0: Table, p: string -> bool, chat: string, item: Item, scan: seq<string>)
    requires Typed(t0) && Scans(t0, p, chat, scan) && item.id != ""
    ensures var after := Pending(ProcessItems(t0, chat, [item], scan));
            (forall k :: IsMessage(t0, k) ==> KeptAt(t0, after, chat, {item.id}, k)) <==> HasPlace(t0, p, chat, item)
  {
    if HasPlace(t0, p, chat, item) {
      assert Ids([item]) == {item.id};
      ImportAddsNoDuplicates(t0, p, chat, [item], scan);
    } else {
      var k := StorageKey(chat, item.timestamp, item.id);
      TakenKeyIsOverwritten(t0, p, chat, item, scan);
      KeysOfOneChat(chat, item.timestamp, item.id, item.timestamp, item.id);
      assert IsMessage(t0, k);
    }
  }

  // ---- the code ----------------------------------------------------------------------------------

  /** The loop, with the store's table, the cache and the two local tables updated message by message. */
  method ProcessMessages(t: Table, chat: string, items: seq<Item>, scan: seq<string>)
    returns (table: Table, cache: seq<Write>, existing: map<string, Entry>)
    ensures var s := ProcessItems(t, chat, items, scan);
            table == s.table && cache == s.cache && existing == s.existing
  {
    table, cache, existing := t, [], map[];
    var legacy: Option<map<string, Entry>> := None;
    for i := 0 to |items|
      invariant State(table, cache, existing, legacy) == ProcessItems(t, chat, items[..i], scan)
    {
      assert items[..i + 1][..i] == items[..i];
      var item := items[i];
      var found: Option<Entry> := None;
      if item.id in existing {
        found := Some(existing[item.id]);
      } else {
        table, found := LookupIndex(table, chat, item.id).0, LookupIndex(table, chat, item.id).1;
        if found.None? {
          var exact := StorageKey(chat, item.timestamp, item.id);
          if exact in table && Matches(table[exact], chat, item.id) {
            found := Some(Entry(exact, table[exact].record));
            cache := cache + [Write(IndexKey(chat, item.id), IndexRecord(exact))];
          } else {
            if legacy.None? {
              legacy := Some(LegacyOf(table, chat, scan));
              cache := cache + LegacyWrites(table, chat, scan);
            }
            if item.id in legacy.value {
              found := Some(legacy.value[item.id]);
            }
          }
        }
        if found.Some? {
          existing := existing[item.id := found.value];
        }
      }
      if found.Some? {
        var e := found.value;
        if e.record.receipt != item.receipt {
          var r := e.record.(receipt := item.receipt);
          cache := cache + [Write(e.key, MessageRecord(r))];
          existing := existing[item.id := Entry(e.key, r)];
        }
      } else {
        var k := StorageKey(chat, item.timestamp, item.id);
        var r := Record(chat, item.id, item.timestamp, item.receipt, item.content);
        cache := cache + [Write(k, MessageRecord(r)), Write(IndexKey(chat, item.id), IndexRecord(k))];
        existing := existing[item.id := Entry(k, r)];
      }
    }
    assert items[..|items|] == items;
  }
}
