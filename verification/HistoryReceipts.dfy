/**
 What an import writes: each message ends up with the receipt that the batch names last, and a new one with the
 time and content that the batch gives first. Where the store has several records of one message, the one the
 index leads to in the end need not be the one that was written.
 */
module HistoryReceipts {
  import opened Decimals
  import opened HistorySync
  import opened Options

  /** No later message of the batch has the same id. */
  ghost predicate IsLast(items: seq<Item>, i: int) {
    0 <= i < |items| && forall j :: i < j < |items| ==> items[j].id != items[i].id
  }

  ghost predicate IsFirst(items: seq<Item>, i: int) {
    0 <= i < |items| && forall j :: 0 <= j < i ==> items[j].id != items[i].id
  }

  /** The record has the receipt the batch names last for it; and, if it is new, the rest from where the batch names it first. */
  ghost predicate AsNamed(items: seq<Item>, r: Record, isNew: bool) {
    && (forall i :: IsLast(items, i) && items[i].id == r.id ==> r.receipt == items[i].receipt)
    && (isNew ==> forall i :: IsFirst(items, i) && items[i].id == r.id ==>
          r.timestamp == items[i].timestamp && r.content == items[i].content)
  }

  lemma NamedAgain(items: seq<Item>, item: Item, before: Record, after: Record, isNew: bool)
    requires AsNamed(items, before, isNew) && (exists i :: IsFirst(items, i) && items[i].id == before.id)
    requires after == before.(receipt := item.receipt) && item.id == before.id
    ensures AsNamed(items + [item], after, isNew)
  {
    var all := items + [item];
    forall i | IsLast(all, i) && all[i].id == after.id ensures i == |items| {
      assert all[|items|].id == after.id;
    }
    var f :| IsFirst(items, f) && items[f].id == before.id;
    forall i | IsFirst(all, i) && all[i].id == after.id ensures i == f {
      assert all[f] == items[f];
      assert forall j :: 0 <= j < f ==> all[j] == items[j];
    }
  }

  lemma NamedFirst(items: seq<Item>, item: Item, r: Record, isNew: bool)
    requires r.id == item.id && item.id !in Ids(items) && r.receipt == item.receipt
    requires isNew ==> r.timestamp == item.timestamp && r.content == item.content
    ensures AsNamed(items + [item], r, isNew)
  {
    var all := items + [item];
    assert forall j :: 0 <= j < |items| ==> items[j] in items && items[j].id != r.id;
    assert forall i :: 0 <= i < |all| && all[i].id == r.id ==> all[i] == item;
  }

  lemma OtherNamed(items: seq<Item>, item: Item, r: Record, isNew: bool)
    requires AsNamed(items, r, isNew) && item.id != r.id
    ensures AsNamed(items + [item], r, isNew)
  {
    var all := items + [item];
    forall i | IsLast(all, i) && all[i].id == r.id ensures r.receipt == all[i].receipt {
      assert forall j :: i < j < |items| ==> all[j] == items[j];
      assert IsLast(items, i);
    }
    forall i | isNew && IsFirst(all, i) && all[i].id == r.id ensures r.timestamp == all[i].timestamp && r.content == all[i].content {
      assert forall j :: 0 <= j < i ==> all[j] == items[j];
      assert IsFirst(items, i);
    }
  }

  lemma FirstExists(items: seq<Item>, id: string)
    requires id in Ids(items)
    ensures exists i :: IsFirst(items, i) && items[i].id == id
    decreases |items|
  {
    var front := items[..|items| - 1];
    assert items == front + [items[|items| - 1]];
    if id in Ids(front) {
      FirstExists(front, id);
      var i :| IsFirst(front, i) && front[i].id == id;
      assert forall j :: 0 <= j <= i ==> items[j] == front[j];
      assert IsFirst(items, i);
    } else {
      forall j | 0 <= j < |front| ensures items[j].id != id {
        assert items[j] == front[j] && front[j] in front;
      }
      assert IsFirst(items, |front|);
    }
  }

  /** Every entry of the batch's own table is as the batch names it. */
  ghost predicate AllAsNamed(t0: Table, p: string -> bool, chat: string, items: seq<Item>, existing: map<string, Entry>) {
    forall id :: id in existing ==>
      existing[id].record.id == id && AsNamed(items, existing[id].record, !HasRecord(t0, p, chat, id))
  }

  lemma ItemIsWritten(t0: Table, p: string -> bool, chat: string, items: seq<Item>, s: State, item: Item, scan: seq<string>)
    requires Typed(t0) && Scans(t0, p, chat, scan) && item.id != ""
    requires Invariant(t0, p, chat, s) && s.existing.Keys == Ids(items) && AllAsNamed(t0, p, chat, items, s.existing)
    ensures AllAsNamed(t0, p, chat, items + [item], ProcessItem(s, chat, item, scan).existing)
  {
    var after := ProcessItem(s, chat, item, scan).existing;
    EntryAfter(t0, p, chat, s, item, scan);
    forall id | id in after ensures after[id].record.id == id && AsNamed(items + [item], after[id].record, !HasRecord(t0, p, chat, id)) {
      if id != item.id {
        OtherNamed(items, item, after[id].record, !HasRecord(t0, p, chat, id));
      } else if id in s.existing {
        FirstExists(items, id);
        NamedAgain(items, item, s.existing[id].record, after[id].record, !HasRecord(t0, p, chat, id));
      } else {
        NamedFirst(items, item, after[id].record, !HasRecord(t0, p, chat, id));
      }
    }
  }

  /** What one message does to the batch's own table. */
  lemma EntryAfter(t0: Table, p: string -> bool, chat: string, s: State, item: Item, scan: seq<string>)
    requires Typed(t0) && Scans(t0, p, chat, scan) && item.id != "" && Invariant(t0, p, chat, s)
    ensures var after := ProcessItem(s, chat, item, scan).existing;
            && after.Keys == s.existing.Keys + {item.id}
            && (forall id :: id in s.existing && id != item.id ==> after[id] == s.existing[id])
            && (item.id in s.existing ==> after[item.id].record == s.existing[item.id].record.(receipt := item.receipt))
            && (item.id !in s.existing ==> EntryAsNamed(after[item.id].record, item, !HasRecord(t0, p, chat, item.id)))
  {
    if item.id in s.existing {
      UpdatedEntry(s, item.id, s.existing[item.id], item.receipt);
    } else {
      LookupStoreFinds(t0, p, chat, s, item, scan);
      var (t, found) := LookupStore(s, chat, item, scan);
      if found.Some? {
        UpdatedEntry(t.(existing := t.existing[item.id := found.value]), item.id, found.value, item.receipt);
      }
    }
  }

  ghost predicate EntryAsNamed(r: Record, item: Item, isNew: bool) {
    r.id == item.id && r.receipt == item.receipt && (isNew ==> r.timestamp == item.timestamp && r.content == item.content)
  }

  lemma UpdatedEntry(s: State, id: string, e: Entry, receipt: string)
    requires id in s.existing && s.existing[id] == e
    ensures var after := UpdateFound(s, id, e, receipt).existing;
            && after.Keys == s.existing.Keys
            && (forall other :: other in s.existing && other != id ==> after[other] == s.existing[other])
            && after[id].record == e.record.(receipt := receipt)
  {
  }

  lemma {:induction false} BatchIsNamed(t0: Table, p: string -> bool, chat: string, items: seq<Item>, scan: seq<string>)
    requires Typed(t0) && Scans(t0, p, chat, scan) && HavePlaces(t0, p, chat, items)
    ensures AllAsNamed(t0, p, chat, items, ProcessItems(t0, chat, items, scan).existing)
  {
    if items != [] {
      var last := |items| - 1;
      EarlierHavePlaces(t0, p, chat, items, last);
      BatchIsNamed(t0, p, chat, items[..last], scan);
      OneMoreIsNamed(t0, p, chat, items, scan);
    }
  }

  lemma {:induction false} OneMoreIsNamed(t0: Table, p: string -> bool, chat: string, items: seq<Item>, scan: seq<string>)
    requires Typed(t0) && Scans(t0, p, chat, scan) && HavePlaces(t0, p, chat, items) && items != []
    requires AllAsNamed(t0, p, chat, items[..|items| - 1], ProcessItems(t0, chat, items[..|items| - 1], scan).existing)
    ensures AllAsNamed(t0, p, chat, items, ProcessItems(t0, chat, items, scan).existing)
  {
    var front, item := items[..|items| - 1], items[|items| - 1];
    EarlierHavePlaces(t0, p, chat, items, |items| - 1);
    ProcessItemsKeep(t0, p, chat, front, scan);
    ItemIsWritten(t0, p, chat, front, ProcessItems(t0, chat, front, scan), item, scan);
    assert front + [item] == items;
  }

  /** An index entry that does not lead to a record of the message is deleted when the message is looked for; any other stays. */
  lemma StaleEntryIsDropped(t: Table, chat: string, id: string)
    ensures var (after, found) := LookupIndex(t, chat, id);
            var ik := IndexKey(chat, id);
            var led := if ik in t && t[ik].IndexRecord? then t[ik].key else "";
            var right := led in t && ChatPrefix(chat) <= led && Matches(t[led], chat, id);
            && (found.Some? <==> led != "" && right)
            && (found.Some? ==> found.value == Entry(led, t[led].record))
            && after == if led != "" && !right then t - {ik} else t
  {
  }

  // ---- main results ------------------------------------------------------------------------------

  /** The record is that of the message, with the receipt named last, and as first named if the message is new. */
  ghost predicate WrittenAsNamed(t0: Table, p: string -> bool, chat: string, items: seq<Item>, id: string, v: Stored) {
    Matches(v, chat, id) && AsNamed(items, v.record, !HasRecord(t0, p, chat, id))
  }

  /** After the commit, each message of the batch has a record that is as the batch names it. */
  lemma BatchIsWritten(t0: Table, p: string -> bool, chat: string, items: seq<Item>, scan: seq<string>, id: string)
    requires Typed(t0) && Scans(t0, p, chat, scan) && HavePlaces(t0, p, chat, items) && id in Ids(items)
    ensures var after := Pending(ProcessItems(t0, chat, items, scan));
            exists k :: k in after && p(k) && WrittenAsNamed(t0, p, chat, items, id, after[k])
  {
    var s := ProcessItems(t0, chat, items, scan);
    BatchIsNamed(t0, p, chat, items, scan);
    ProcessItemsKeep(t0, p, chat, items, scan);
    assert EntryFits(Pending(s), p, chat, id, s.existing[id]);
  }

  /** The store has no two records of the message, and none that a scan of the chat would miss. */
  ghost predicate Single(t0: Table, p: string -> bool, chat: string, id: string) {
    forall j, k :: j in t0 && k in t0 && Matches(t0[j], chat, id) && Matches(t0[k], chat, id) ==> j == k && p(j)
  }

  /** Then the record that the index leads to is the one written. */
  lemma IndexedIsWritten(t0: Table, p: string -> bool, chat: string, items: seq<Item>, scan: seq<string>, id: string)
    requires Typed(t0) && Scans(t0, p, chat, scan) && HavePlaces(t0, p, chat, items) && id in Ids(items)
    requires Single(t0, p, chat, id)
    ensures var after := Pending(ProcessItems(t0, chat, items, scan));
            LeadsRight(after, chat, id) && WrittenAsNamed(t0, p, chat, items, id, after[after[IndexKey(chat, id)].key])
  {
    var s := ProcessItems(t0, chat, items, scan);
    var after := Pending(s);
    BatchIsNamed(t0, p, chat, items, scan);
    ProcessItemsKeep(t0, p, chat, items, scan);
    assert IndexHolds(s, chat, id);
    SingleAfter(t0, p, chat, s, id, after[IndexKey(chat, id)].key);
    assert EntryFits(after, p, chat, id, s.existing[id]);
  }

  lemma SingleAfter(t0: Table, p: string -> bool, chat: string, s: State, id: string, k: string)
    requires Invariant(t0, p, chat, s) && Single(t0, p, chat, id) && id in s.existing
    requires k in Pending(s) && Matches(Pending(s)[k], chat, id)
    ensures k == s.existing[id].key
  {
    var e := s.existing[id].key;
    assert EntryFits(Pending(s), p, chat, id, s.existing[id]);
    assert IsMessage(t0, k) ==> KeptAt(t0, Pending(s), chat, s.existing.Keys, k);
    assert IsMessage(t0, e) ==> KeptAt(t0, Pending(s), chat, s.existing.Keys, e);
    assert !IsMessage(t0, k) ==> NewAt(t0, s, p, chat, k);
    assert !IsMessage(t0, e) ==> NewAt(t0, s, p, chat, e);
    assert IsMessage(t0, k) ==> Matches(t0[k], chat, id) && HasRecord(t0, p, chat, id);
  }
}
