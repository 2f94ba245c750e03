/**
 Two records of one message in the store: then a batch may leave the index leading to the one that it did not
 write. It takes a second message that makes the import scan the chat, after the first was found without.
 */
module HistoryDuplicates {
  import opened HistoryBatches
  import opened HistoryReceipts
  import opened HistorySync
  import opened Options

  // ---- two messages ------------------------------------------------------------------------------

  /** A scan that lists the key last. */
  function LastOf(scan: seq<string>, k: string): seq<string> {
    Without(scan, k) + [k]
  }

  function Without(scan: seq<string>, k: string): (rest: seq<string>)
    ensures forall x :: x in rest <==> x in scan && x != k
  {
    if scan == [] then []
    else if scan[0] == k then Without(scan[1..], k)
    else [scan[0]] + Without(scan[1..], k)
  }

  /** The message as a batch may name it, with a receipt that neither record has. */
  function Known(id: string, timestamp: nat, a: Record, b: Record): Item {
    Item(id, timestamp, a.receipt + b.receipt + "x", "")
  }

  /** What the import of the message leaves: no scan made, nothing written but its index entry and one record. */
  ghost predicate FoundWithoutScan(t0: Table, chat: string, id: string, s: State, found: string) {
    && s.legacy.None? && s.existing.Keys == {id} && Pruned(t0, s.table)
    && found in t0 && Matches(t0[found], chat, id)
    && forall i :: 0 <= i < |s.cache| ==> s.cache[i].key == IndexKey(chat, id) || s.cache[i].key == found
  }

  /** The record by which the message is found without a scan, where one stands under its exact key. */
  function FoundKey(t0: Table, chat: string, item: Item): string {
    var byIndex := LookupIndex(t0, chat, item.id).1;
    if byIndex.Some? then byIndex.value.key else StorageKey(chat, item.timestamp, item.id)
  }

  lemma KnownIsFound(t0: Table, chat: string, item: Item, scan: seq<string>)
    requires Typed(t0) && item.id != ""
    requires var exact := StorageKey(chat, item.timestamp, item.id); exact in t0 && Matches(t0[exact], chat, item.id)
    ensures FoundWithoutScan(t0, chat, item.id, ProcessItems(t0, chat, [item], scan), FoundKey(t0, chat, item))
  {
    assert [item][..0] == [];
    KeysOfOneChat(chat, item.timestamp, item.id, item.timestamp, item.id);
    IndexKeysDiffer(chat, item.id, item.id);
    PrefixesDiffer(IndexKey(chat, item.id));
  }

  lemma {:induction false} LegacyWritesIndex(t: Table, chat: string, scan: seq<string>)
    ensures forall i :: 0 <= i < |LegacyWrites(t, chat, scan)| ==> INDEX_PREFIX <= LegacyWrites(t, chat, scan)[i].key
  {
    if scan != [] {
      var k := scan[|scan| - 1];
      LegacyWritesIndex(t, chat, scan[..|scan| - 1]);
      if Belongs(t, chat, k) {
        IndexKeysDiffer(chat, t[k].record.id, t[k].record.id);
      }
    }
  }

  /** What the second message writes: the index entries of the scan, the last for the key listed last, then its own. */
  ghost predicate ScansAndAdds(s: State, t: State, chat: string, id: string, k: string, other: Item) {
    && (forall x :: x in t.table ==> x in s.table && t.table[x] == s.table[x])
    && exists writes: seq<Write> ::
         && (forall i :: 0 <= i < |writes| ==> INDEX_PREFIX <= writes[i].key)
         && t.cache == s.cache + writes + [Write(IndexKey(chat, id), IndexRecord(k))]
                       + [Write(StorageKey(chat, other.timestamp, other.id), NewRecord(chat, other))]
                       + [Write(IndexKey(chat, other.id), IndexRecord(StorageKey(chat, other.timestamp, other.id)))]
  }

  function NewRecord(chat: string, item: Item): Stored {
    MessageRecord(Record(chat, item.id, item.timestamp, item.receipt, item.content))
  }

  lemma OtherScansAndAdds(s: State, chat: string, id: string, k: string, other: Item, scan: seq<string>)
    requires s.legacy.None? && other.id !in s.existing && id != "" && k in s.table && Matches(s.table[k], chat, id)
    requires IndexKey(chat, other.id) != k
    requires Lookup(s, chat, other, LastOf(scan, k)).1.None?
    ensures ScansAndAdds(s, ProcessItem(s, chat, other, LastOf(scan, k)), chat, id, k, other)
  {
    var listed := LastOf(scan, k);
    var table := LookupIndex(s.table, chat, other.id).0;
    var writes := LegacyWrites(table, chat, Without(scan, k));
    assert listed[..|listed| - 1] == Without(scan, k);
    assert LegacyWrites(table, chat, listed) == writes + [Write(IndexKey(chat, id), IndexRecord(k))];
    LegacyWritesIndex(table, chat, Without(scan, k));
    var t := ProcessItem(s, chat, other, listed);
    var a := Write(StorageKey(chat, other.timestamp, other.id), NewRecord(chat, other));
    var b := Write(IndexKey(chat, other.id), IndexRecord(a.key));
    var c := Write(IndexKey(chat, id), IndexRecord(k));
    assert t.cache == s.cache + LegacyWrites(table, chat, listed) + [a, b];
    assert s.cache + (writes + [c]) + [a, b] == s.cache + writes + [c] + [a] + [b];
  }

  // ---- what is left ------------------------------------------------------------------------------

  lemma IndexLeadsToListedLast(s: State, t: State, chat: string, id: string, k: string, other: Item)
    requires ScansAndAdds(s, t, chat, id, k, other) && other.id != id
    ensures IndexKey(chat, id) in Pending(t) && Pending(t)[IndexKey(chat, id)] == IndexRecord(k)
  {
    var writes: seq<Write> :|
      && (forall i :: 0 <= i < |writes| ==> INDEX_PREFIX <= writes[i].key)
      && t.cache == s.cache + writes + [Write(IndexKey(chat, id), IndexRecord(k))]
                    + [Write(StorageKey(chat, other.timestamp, other.id), NewRecord(chat, other))]
                    + [Write(IndexKey(chat, other.id), IndexRecord(StorageKey(chat, other.timestamp, other.id)))];
    var c := Write(IndexKey(chat, id), IndexRecord(k));
    var a := Write(StorageKey(chat, other.timestamp, other.id), NewRecord(chat, other));
    var b := Write(IndexKey(chat, other.id), IndexRecord(a.key));
    CommitOne(t.table, s.cache + writes, c);
    CommitOne(t.table, s.cache + writes + [c], a);
    CommitOne(t.table, s.cache + writes + [c] + [a], b);
    IndexKeysDiffer(chat, id, other.id);
    IndexKeysDiffer(chat, id, id);
    KeysOfOneChat(chat, other.timestamp, other.id, other.timestamp, other.id);
    PrefixesDiffer(IndexKey(chat, id));
  }

  lemma RecordIsNotWritten(t0: Table, s: State, t: State, chat: string, id: string, found: string, k: string, other: Item)
    requires Typed(t0) && FoundWithoutScan(t0, chat, id, s, found) && ScansAndAdds(s, t, chat, id, k, other)
    requires IsMessage(t0, k) && k in t.table && k != found && StorageKey(chat, other.timestamp, other.id) !in t0
    ensures k in Pending(t) && Pending(t)[k] == t0[k]
  {
    var writes: seq<Write> :|
      && (forall i :: 0 <= i < |writes| ==> INDEX_PREFIX <= writes[i].key)
      && t.cache == s.cache + writes + [Write(IndexKey(chat, id), IndexRecord(k))]
                    + [Write(StorageKey(chat, other.timestamp, other.id), NewRecord(chat, other))]
                    + [Write(IndexKey(chat, other.id), IndexRecord(StorageKey(chat, other.timestamp, other.id)))];
    var c := Write(IndexKey(chat, id), IndexRecord(k));
    var a := Write(StorageKey(chat, other.timestamp, other.id), NewRecord(chat, other));
    var b := Write(IndexKey(chat, other.id), IndexRecord(a.key));
    IndexKeysDiffer(chat, id, id);
    IndexKeysDiffer(chat, other.id, other.id);
    if INDEX_PREFIX <= k {
      PrefixesDiffer(k);
    }
    NotWrittenInEither(s.cache, writes, k);
    WrittenBefore(s.cache + writes, c, k);
    WrittenBefore(s.cache + writes + [c], a, k);
    WrittenBefore(s.cache + writes + [c] + [a], b, k);
    CommitUnwritten(t.table, t.cache, k);
  }

  lemma NotWrittenInEither(a: seq<Write>, b: seq<Write>, k: string)
    requires forall i :: 0 <= i < |a| ==> a[i].key != k
    requires forall i :: 0 <= i < |b| ==> b[i].key != k
    ensures !Written(a + b, k)
  {
  }

  // ---- a new message -----------------------------------------------------------------------------

  lemma {:induction false} LongerThanAll(keys: set<string>) returns (n: nat)
    ensures forall k :: k in keys ==> |k| < n
    decreases |keys|
  {
    n := 0;
    if keys != {} {
      var k :| k in keys;
      var rest := LongerThanAll(keys - {k});
      n := if |k| < rest then rest else |k| + 1;
      assert forall j :: j in keys && j != k ==> j in keys - {k};
    }
  }

  /** A message the store knows nothing of, and whose exact key is free. */
  lemma UnknownMessage(t0: Table, p: string -> bool, chat: string, id: string) returns (other: Item)
    requires UnderOwnKeys(t0)
    ensures other.id != "" && other.id != id && !HasRecord(t0, p, chat, other.id)
    ensures StorageKey(chat, other.timestamp, other.id) !in t0
  {
    var n := LongerThanAll(t0.Keys);
    other := Item(seq(n + |id| + 1, _ => 'x'), 0, "", "");
    forall k | k in t0 ensures k != StorageKey(chat, 0, other.id) {
      assert k in t0.Keys;
    }
    forall k | k in t0 && IsMessage(t0, k) ensures t0[k].record.id != other.id {
      assert k in t0.Keys && |k| >= |t0[k].record.id|;
    }
  }

  // ---- main results ------------------------------------------------------------------------------

  /** Whatever the batch, and in whatever order a scan lists the chat, the index leads to the record written. */
  ghost predicate IndexServes(t0: Table, p: string -> bool, chat: string, id: string) {
    forall items, scan | Scans(t0, p, chat, scan) && HavePlaces(t0, p, chat, items) && id in Ids(items) ::
      IndexedAsNamed(t0, p, chat, items, id, Pending(ProcessItems(t0, chat, items, scan)))
  }

  ghost predicate IndexedAsNamed(t0: Table, p: string -> bool, chat: string, items: seq<Item>, id: string, after: Table) {
    LeadsRight(after, chat, id) && WrittenAsNamed(t0, p, chat, items, id, after[after[IndexKey(chat, id)].key])
  }

  /** The batch of a known message and an unknown one: the index is left leading to the record that was not written. */
  lemma MissesRecord(t0: Table, p: string -> bool, chat: string, item: Item, other: Item, missed: string, scan: seq<string>)
    requires Typed(t0) && UnderOwnKeys(t0) && Scans(t0, p, chat, scan) && item.id != ""
    requires var exact := StorageKey(chat, item.timestamp, item.id); exact in t0 && Matches(t0[exact], chat, item.id)
    requires missed in t0 && missed != FoundKey(t0, chat, item) && Matches(t0[missed], chat, item.id)
    requires item.receipt != t0[missed].record.receipt
    requires other.id != "" && other.id != item.id && !HasRecord(t0, p, chat, other.id)
    requires StorageKey(chat, other.timestamp, other.id) !in t0
    ensures HavePlaces(t0, p, chat, [item, other]) && Scans(t0, p, chat, LastOf(scan, missed))
    ensures !IndexedAsNamed(t0, p, chat, [item, other], item.id, Pending(ProcessItems(t0, chat, [item, other], LastOf(scan, missed))))
  {
    var items, listed := [item, other], LastOf(scan, missed);
    TwoHavePlaces(t0, p, chat, item, other);
    KeyMatchesPattern(t0, p, chat, item.id, missed);
    assert items[..1] == [item];
    var s := ProcessItems(t0, chat, [item], listed);
    var t := ProcessItems(t0, chat, items, listed);
    KnownIsFound(t0, chat, item, listed);
    LookupIsFullScan(t0, p, chat, items, 1, listed);
    assert IsMessage(t0, missed);
    OtherIsNoKey(t0, chat, other, missed);
    OtherScansAndAdds(s, chat, item.id, missed, other, scan);
    IndexLeadsToListedLast(s, t, chat, item.id, missed, other);
    ProcessItemsKeep(t0, p, chat, items, listed);
    RecordIsNotWritten(t0, s, t, chat, item.id, FoundKey(t0, chat, item), missed, other);
    assert IsLast(items, 0) && items[0].id == t0[missed].record.id;
  }

  lemma TwoHavePlaces(t0: Table, p: string -> bool, chat: string, item: Item, other: Item)
    requires item.id != "" && other.id != "" && KeyIsFree(t0, chat, item) && StorageKey(chat, other.timestamp, other.id) !in t0
    ensures HavePlaces(t0, p, chat, [item, other])
  {
    var items := [item, other];
    assert items[0] == item && items[1] == other;
  }

  lemma KeyMatchesPattern(t0: Table, p: string -> bool, chat: string, id: string, k: string)
    requires UnderOwnKeys(t0) && k in t0 && Matches(t0[k], chat, id)
    requires forall x :: ChatPrefix(chat) <= x ==> p(x)
    ensures p(k)
  {
    assert IsMessage(t0, k);
    KeysOfOneChat(chat, t0[k].record.timestamp, id, t0[k].record.timestamp, id);
  }

  lemma OtherIsNoKey(t0: Table, chat: string, other: Item, k: string)
    requires Typed(t0) && IsMessage(t0, k)
    ensures IndexKey(chat, other.id) != k
  {
    IndexKeysDiffer(chat, other.id, other.id);
    PrefixesDiffer(IndexKey(chat, other.id));
  }

  lemma TwoRecordsMiss(t0: Table, p: string -> bool, chat: string, id: string, j: string, k: string, scan: seq<string>)
    requires Typed(t0) && UnderOwnKeys(t0) && Scans(t0, p, chat, scan) && id != ""
    requires j in t0 && k in t0 && j != k && Matches(t0[j], chat, id) && Matches(t0[k], chat, id)
    ensures !IndexServes(t0, p, chat, id)
  {
    var item := Known(id, t0[j].record.timestamp, t0[j].record, t0[k].record);
    var other := UnknownMessage(t0, p, chat, id);
    assert IsMessage(t0, j) && j == StorageKey(chat, item.timestamp, id);
    var missed := if FoundKey(t0, chat, item) == j then k else j;
    MissesRecord(t0, p, chat, item, other, missed, scan);
    assert item in [item, other];
  }

  /**
   Where records stand under their own keys: whatever batch is imported, the index leads to the record written
   for the message, if and only if the store has no two records of it.
   */
  lemma IndexServesExactly(t0: Table, p: string -> bool, chat: string, id: string, scan: seq<string>)
    requires Typed(t0) && UnderOwnKeys(t0) && Scans(t0, p, chat, scan) && id != ""
    ensures IndexServes(t0, p, chat, id)
       <==> forall j, k :: j in t0 && k in t0 && Matches(t0[j], chat, id) && Matches(t0[k], chat, id) ==> j == k
  {
    if j, k :| j in t0 && k in t0 && j != k && Matches(t0[j], chat, id) && Matches(t0[k], chat, id) {
      TwoRecordsMiss(t0, p, chat, id, j, k, scan);
    } else {
      forall j | j in t0 && Matches(t0[j], chat, id) ensures p(j) {
        KeyMatchesPattern(t0, p, chat, id, j);
      }
      assert Single(t0, p, chat, id);
      forall items, listed | Scans(t0, p, chat, listed) && HavePlaces(t0, p, chat, items) && id in Ids(items)
        ensures IndexedAsNamed(t0, p, chat, items, id, Pending(ProcessItems(t0, chat, items, listed)))
      {
        IndexedIsWritten(t0, p, chat, items, listed, id);
      }
    }
  }
}
