/**
 When a whole batch of a history sync keeps every record: in a store whose records stand under their own keys,
 a taken key belongs to another chat, and no later message of the batch can write that record back.
 */
module HistoryBatches {
  import opened HistorySync
  import opened Options

  ghost predicate UnderOwnKeys(t: Table) {
    forall k :: IsMessage(t, k) ==> k == StorageKey(t[k].record.chat, t[k].record.timestamp, t[k].record.id)
  }

  /** The import writes message records of its chat, and index records under index keys. */
  predicate OwnWrite(chat: string, w: Write) {
    || (w.value.MessageRecord? && w.value.record.chat == chat)
    || (w.value.IndexRecord? && INDEX_PREFIX <= w.key)
  }

  ghost predicate OwnWrites(chat: string, writes: seq<Write>) {
    forall i :: 0 <= i < |writes| ==> OwnWrite(chat, writes[i])
  }

  /** What has been found or added, and what a scan found, belongs to the chat. */
  ghost predicate Own(chat: string, s: State) {
    && OwnWrites(chat, s.cache)
    && (forall id :: id in s.existing ==> s.existing[id].record.chat == chat)
    && (s.legacy.Some? ==> OwnEntries(chat, s.legacy.value))
  }

  ghost predicate OwnEntries(chat: string, entries: map<string, Entry>) {
    forall id :: id in entries ==> entries[id].record.chat == chat
  }

  lemma {:induction false} LegacyIsOwn(t: Table, chat: string, scan: seq<string>)
    ensures OwnEntries(chat, LegacyOf(t, chat, scan)) && OwnWrites(chat, LegacyWrites(t, chat, scan))
  {
    if scan != [] {
      var k := scan[|scan| - 1];
      LegacyIsOwn(t, chat, scan[..|scan| - 1]);
      if Belongs(t, chat, k) {
        IndexKeysDiffer(chat, t[k].record.id, t[k].record.id);
      }
    }
  }

  lemma LookupStoreIsOwn(s: State, chat: string, item: Item, scan: seq<string>)
    requires Own(chat, s)
    ensures var (t, found) := LookupStore(s, chat, item, scan);
            && Own(chat, t) && t.existing == s.existing && s.cache <= t.cache
            && (found.Some? ==> found.value.record.chat == chat)
  {
    var table := LookupIndex(s.table, chat, item.id).0;
    LegacyIsOwn(table, chat, scan);
    IndexKeysDiffer(chat, item.id, item.id);
  }

  lemma ProcessItemIsOwn(s: State, chat: string, item: Item, scan: seq<string>)
    requires Own(chat, s)
    ensures Own(chat, ProcessItem(s, chat, item, scan)) && s.cache <= ProcessItem(s, chat, item, scan).cache
  {
    LookupStoreIsOwn(s, chat, item, scan);
    var (t, found) := Lookup(s, chat, item, scan);
    if found.Some? {
      UpdateIsOwn(t, chat, item.id, found.value, item.receipt);
    } else {
      AddIsOwn(t, chat, item);
    }
  }

  lemma UpdateIsOwn(s: State, chat: string, id: string, e: Entry, receipt: string)
    requires Own(chat, s) && e.record.chat == chat
    ensures Own(chat, UpdateFound(s, id, e, receipt)) && s.cache <= UpdateFound(s, id, e, receipt).cache
  {
  }

  lemma AddIsOwn(s: State, chat: string, item: Item)
    requires Own(chat, s)
    ensures Own(chat, AddNew(s, chat, item)) && s.cache <= AddNew(s, chat, item).cache
  {
    IndexKeysDiffer(chat, item.id, item.id);
  }

  lemma {:induction false} ProcessItemsAreOwn(t0: Table, chat: string, items: seq<Item>, scan: seq<string>)
    ensures Own(chat, ProcessItems(t0, chat, items, scan))
  {
    if items != [] {
      ProcessItemsAreOwn(t0, chat, items[..|items| - 1], scan);
      ProcessItemIsOwn(ProcessItems(t0, chat, items[..|items| - 1], scan), chat, items[|items| - 1], scan);
    }
  }

  /** What has been written stays written. */
  lemma {:induction false} CacheGrows(t0: Table, chat: string, items: seq<Item>, n: nat, scan: seq<string>)
    requires n <= |items|
    ensures ProcessItems(t0, chat, items[..n], scan).cache <= ProcessItems(t0, chat, items, scan).cache
    decreases |items| - n
  {
    if n == |items| {
      assert items[..n] == items;
    } else {
      var last := |items| - 1;
      CacheGrows(t0, chat, items[..last], n, scan);
      assert items[..last][..n] == items[..n];
      ProcessItemsAreOwn(t0, chat, items[..last], scan);
      ProcessItemIsOwn(ProcessItems(t0, chat, items[..last], scan), chat, items[last], scan);
    }
  }

  /** Under a message key the import leaves a record of its chat, once it has written there. */
  lemma {:induction false} WrittenIsOwn(t: Table, chat: string, writes: seq<Write>, k: string)
    requires OwnWrites(chat, writes) && Written(writes, k) && MESSAGE_PREFIX <= k
    ensures IsMessage(Commit(t, writes), k) && Commit(t, writes)[k].record.chat == chat
  {
    var last := |writes| - 1;
    if writes[last].key == k {
      assert OwnWrite(chat, writes[last]);
      if INDEX_PREFIX <= k {
        PrefixesDiffer(k);
      }
    } else {
      var i :| 0 <= i < |writes| && writes[i].key == k;
      assert writes[..last][i] == writes[i];
      WrittenIsOwn(t, chat, writes[..last], k);
    }
  }

  lemma TakenByOther(t0: Table, chat: string, item: Item)
    requires Typed(t0) && UnderOwnKeys(t0) && !KeyIsFree(t0, chat, item)
    ensures var k := StorageKey(chat, item.timestamp, item.id); IsMessage(t0, k) && t0[k].record.chat != chat
  {
    var k := StorageKey(chat, item.timestamp, item.id);
    KeysOfOneChat(chat, item.timestamp, item.id, item.timestamp, item.id);
    assert IsMessage(t0, k);
    var r := t0[k].record;
    if r.chat == chat {
      KeysOfOneChat(chat, item.timestamp, item.id, r.timestamp, r.id);
    }
  }

  /** A message without a place is added over the record under its exact key. */
  lemma AddedOverTaken(t0: Table, p: string -> bool, chat: string, items: seq<Item>, i: nat, scan: seq<string>)
    requires Typed(t0) && Scans(t0, p, chat, scan) && i < |items| && forall j :: 0 <= j < |items| ==> items[j].id != ""
    requires items[i].id !in Ids(items[..i]) && !HasRecord(t0, p, chat, items[i].id)
    ensures Written(ProcessItems(t0, chat, items[..i + 1], scan).cache, StorageKey(chat, items[i].timestamp, items[i].id))
  {
    LookupIsFullScan(t0, p, chat, items, i, scan);
    var s := ProcessItems(t0, chat, items[..i], scan);
    assert items[..i + 1][..i] == items[..i];
    var t := Lookup(s, chat, items[i], scan).0;
    var after := AddNew(t, chat, items[i]);
    assert ProcessItems(t0, chat, items[..i + 1], scan) == after;
    assert after.cache[|t.cache|].key == StorageKey(chat, items[i].timestamp, items[i].id);
  }

  lemma OverwrittenForGood(t0: Table, p: string -> bool, chat: string, items: seq<Item>, i: nat, scan: seq<string>)
    requires Typed(t0) && UnderOwnKeys(t0) && Scans(t0, p, chat, scan)
    requires i < |items| && forall j :: 0 <= j < |items| ==> items[j].id != ""
    requires items[i].id !in Ids(items[..i]) && !HasPlace(t0, p, chat, items[i])
    ensures var k := StorageKey(chat, items[i].timestamp, items[i].id);
            IsMessage(t0, k) && !KeptAt(t0, Pending(ProcessItems(t0, chat, items, scan)), chat, Ids(items), k)
  {
    var k := StorageKey(chat, items[i].timestamp, items[i].id);
    var s := ProcessItems(t0, chat, items, scan);
    TakenByOther(t0, chat, items[i]);
    AddedOverTaken(t0, p, chat, items, i, scan);
    CacheGrows(t0, chat, items, i + 1, scan);
    ProcessItemsAreOwn(t0, chat, items, scan);
    var front := ProcessItems(t0, chat, items[..i + 1], scan).cache;
    var j :| 0 <= j < |front| && front[j].key == k;
    assert s.cache[j].key == k;
    KeysOfOneChat(chat, items[i].timestamp, items[i].id, items[i].timestamp, items[i].id);
    WrittenIsOwn(s.table, chat, s.cache, k);
  }

  /** Where records stand under their own keys, a batch keeps every record if and only if each message has its place. */
  lemma BatchKeepsRecordsExactly(t0: Table, p: string -> bool, chat: string, items: seq<Item>, scan: seq<string>)
    requires Typed(t0) && UnderOwnKeys(t0) && Scans(t0, p, chat, scan) && forall j :: 0 <= j < |items| ==> items[j].id != ""
    ensures var after := Pending(ProcessItems(t0, chat, items, scan));
            (forall k :: IsMessage(t0, k) ==> KeptAt(t0, after, chat, Ids(items), k)) <==> HavePlaces(t0, p, chat, items)
  {
    if HavePlaces(t0, p, chat, items) {
      ImportAddsNoDuplicates(t0, p, chat, items, scan);
    } else {
      var i :| 0 <= i < |items| && items[i].id !in Ids(items[..i]) && !HasPlace(t0, p, chat, items[i]);
      OverwrittenForGood(t0, p, chat, items, i, scan);
    }
  }
}
