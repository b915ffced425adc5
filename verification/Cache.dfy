/**
  The cache as the source keeps it: a table of entries updated in place, whose names live in
  growable slices over shared backing arrays. Every method is proved to do on the heap what
  `CacheSpec.Step` does on values.
 */
module Cache {
  import opened Basics
  import opened CacheSpec

  /** A slice header: every names slice starts at offset 0 of its backing array. */
  datatype Slice = Slice(data: array?<Name>, len: nat)

  datatype Entry = Entry(containerID: uint64, family: int, address: seq<uint8>, names: Slice, touchedNS: uint64)

  function ZeroBytes(n: nat): (r: seq<uint8>)
    ensures |r| == n
  {
    seq(n, _ => 0)
  }

  /** A header never reaches past its backing array; a nil slice is empty. */
  predicate Shaped(s: Slice) {
    if s.data == null then s.len == 0 else s.len <= s.data.Length
  }

  ghost function NamesOf(s: Slice): seq<Name>
    requires Shaped(s)
    reads s.data
  {
    if s.data == null then [] else s.data[..s.len]
  }

  function KeyOf(e: Entry): Key
    requires |e.address| == 16
  {
    Key(e.containerID, e.family, e.address[..AddrSize(e.family)])
  }

  ghost function RecordOf(e: Entry): Record
    requires Shaped(e.names) && |e.address| == 16
    reads e.names.data
  {
    Record(KeyOf(e), NamesOf(e.names), e.touchedNS)
  }

  const ZERO_ENTRY: Entry := Entry(0, 0, ZeroBytes(16), Slice(null, 0), 0)

  /** placed is rs with a slot found or made for key: nothing else has moved. */
  ghost predicate Placed(capacity: nat, rs: seq<Record>, key: Key, slot: nat, placed: seq<Record>)
    requires capacity > 0
  {
    var i, r := RecordIndex(rs, key), Record(key, [], 0);
    if i < |rs| then slot == i && placed == rs
    else if |rs| >= capacity then slot == Victim(rs) && placed == rs[slot := r]
    else slot == |rs| && placed == rs + [r]
  }

  lemma PlacedThenStored(capacity: nat, rs: seq<Record>, a: Accepted, slot: nat, placed: seq<Record>)
    requires capacity > 0 && Placed(capacity, rs, a.key, slot, placed)
    ensures slot < |placed|
    ensures placed[slot := Record(a.key, PutName(placed[slot].names, a.value, a.expires), a.now)]
            == PutRecord(capacity, rs, a)
  {
    assert PutName([], a.value, a.expires) == [Name(a.value, a.expires)];
  }

  class Cache {
    /** The whole backing array of the entries slice; slots from count on may hold stale headers. */
    const entries: array<Entry>
    const capacity: nat
    var count: nat
    ghost var Repr: set<object>

    /** The abstract value: one record per live entry, in slot order. */
    ghost var records: seq<Record>

    /**
      Slots lo to hi hold well-shaped entries representing records lo to hi of rs, over backing arrays
      that lie in Repr and are pairwise different.
     */
    ghost predicate Live(lo: nat, hi: nat, rs: seq<Record>)
      requires this in Repr && entries in Repr && lo <= hi <= entries.Length && hi <= |rs|
      reads this, Repr
    {
      && (forall j :: lo <= j < hi ==> Shaped(entries[j].names) && |entries[j].address| == 16)
      && (forall j :: lo <= j < hi && entries[j].names.data != null ==> entries[j].names.data in Repr)
      && (forall j, k :: lo <= j < k < hi && entries[j].names.data != null ==>
            entries[j].names.data != entries[k].names.data)
      && (forall j :: lo <= j < hi ==> RecordOf(entries[j]) == rs[j])
    }

    /** The live slots represent `records`, and no two of them share a backing array. */
    ghost predicate Valid()
      reads this, Repr
      ensures Valid() ==> this in Repr && entries in Repr
    {
      && this in Repr && entries in Repr
      && entries.Length == capacity && count <= capacity && |records| == count
      && Live(0, count, records)
    }

    constructor (capacity: nat)
      ensures Valid() && fresh(Repr)
      ensures this.capacity == capacity && records == []
    {
      this.capacity := capacity;
      entries := new Entry[capacity](_ => ZERO_ENTRY);
      count := 0;
      records := [];
      new;
      Repr := {this, entries};
    }

    method Count() returns (n: nat)
      requires Valid()
      ensures n == |records|
    {
      n := count;
    }

    /** The slot of the entry for this container, family and address prefix, if there is one. */
    method Find(id: uint64, family: int, address: seq<uint8>) returns (slot: Option<nat>)
      requires Valid()
      ensures slot == match KeyFor(id, family, address)
                      case None => None
                      case Some(key) =>
                        if RecordIndex(records, key) < count then Some(RecordIndex(records, key)) else None
    {
      var size := AddrSize(family);
      if size == 0 || |address| < size {
        return None;
      }
      ghost var key := KeyFor(id, family, address).value;
      for i := 0 to count
        invariant forall j :: 0 <= j < i ==> records[j].key != key
      {
        var entry := entries[i];
        assert records[i].key == KeyOf(entry);
        if entry.containerID == id && entry.family == family && entry.address[..size] == address[..size] {
          return Some(i);
        }
      }
      return None;
    }

    /** The eviction victim: the lowest slot among those touched longest ago. */
    method OldestSlot() returns (victim: nat)
      requires Valid() && count > 0
      ensures IsVictim(records, victim) && victim == Victim(records)
    {
      victim := 0;
      var oldest: uint64 := TWO_TO_THE_64 - 1;
      for i := 0 to count
        invariant victim < count
        invariant forall j :: 0 <= j < i ==> oldest <= entries[j].touchedNS
        invariant forall j :: 0 <= j < victim ==> oldest < entries[j].touchedNS
        invariant if oldest == TWO_TO_THE_64 - 1 then victim == 0 else oldest == entries[victim].touchedNS
      {
        if entries[i].touchedNS < oldest {
          oldest := entries[i].touchedNS;
          victim := i;
        }
      }
      assert oldest == entries[victim].touchedNS;
      assert forall j :: 0 <= j < count ==> records[j].touched == entries[j].touchedNS;
    }

    /** Refresh, append or rotate one name in the backing array of one live entry. */
    method StoreName(slot: nat, value: string, expires: uint64)
      requires Valid() && slot < count
      modifies Repr
      ensures Valid() && fresh(Repr - old(Repr)) && count == old(count)
      ensures var r := old(records)[slot];
              records == old(records)[slot := r.(names := PutName(r.names, value, expires))]
    {
      var names := entries[slot].names;
      ghost var before := NamesOf(names);
      for i := 0 to names.len
        invariant forall j :: 0 <= j < i ==> Fold(before[j].value) != Fold(value)
      {
        if Fold(names.data[i].value) == Fold(value) {
          assert NameIndex(before, value) == i;
          names.data[i] := names.data[i].(expires := expires);
          assert NamesOf(names) == PutName(before, value, expires);
          records := records[slot := RecordOf(entries[slot])];
          return;
        }
      }
      assert NameIndex(before, value) == |before|;
      if names.len < MAX_NAMES {
        AppendName(slot, Name(value, expires));
      } else {
        RotateName(names, Name(value, expires));
        assert NamesOf(names) == PutName(before, value, expires);
        records := records[slot := RecordOf(entries[slot])];
      }
    }

    /** copy(names, names[1:]) and a write to the last place: the oldest name gives way. */
    method RotateName(names: Slice, name: Name)
      requires Shaped(names) && names.len > 0
      modifies names.data
      ensures NamesOf(names) == old(NamesOf(names))[1..] + [name]
    {
      var data := names.data;
      ghost var before := data[..names.len];
      for i := 0 to names.len - 1
        invariant forall j :: 0 <= j < i ==> data[j] == before[j + 1]
        invariant forall j :: i <= j < names.len ==> data[j] == before[j]
      {
        data[i] := data[i + 1];
      }
      data[names.len - 1] := name;
    }

    /** append: write into spare room, or move the names to a larger backing array of their own. */
    method AppendName(slot: nat, name: Name)
      requires Valid() && slot < count
      modifies Repr
      ensures Valid() && fresh(Repr - old(Repr)) && count == old(count)
      ensures var r := old(records)[slot];
              records == old(records)[slot := r.(names := r.names + [name])]
    {
      var names := entries[slot].names;
      ghost var before := NamesOf(names);
      if names.data == null || names.len == names.data.Length {
        names := Grow(names);
        Repr := Repr + {names.data};
      }
      names.data[names.len] := name;
      entries[slot] := entries[slot].(names := Slice(names.data, names.len + 1));
      assert NamesOf(entries[slot].names) == before + [name];
      records := records[slot := RecordOf(entries[slot])];
    }

    method Grow(names: Slice) returns (grown: Slice)
      requires Shaped(names)
      ensures grown.data != null && fresh(grown.data)
      ensures grown.len == names.len < grown.data.Length && NamesOf(grown) == NamesOf(names)
    {
      var data := new Name[names.len * 2 + 1](_ => Name("", 0));
      for i := 0 to names.len
        modifies data
        invariant forall j :: 0 <= j < i ==> data[j] == names.data[j]
      {
        data[i] := names.data[i];
      }
      grown := Slice(data, names.len);
    }

    /** append(entries, Entry{}): a zero entry over whatever stale header the slot held. */
    method PushZero() returns (slot: nat)
      requires Valid() && count < capacity
      modifies this`count, this`records, entries
      ensures Valid() && slot == old(count) && count == slot + 1
      ensures records == old(records) + [RecordOf(ZERO_ENTRY)]
    {
      slot := count;
      entries[slot] := ZERO_ENTRY;
      count := count + 1;
      records := records + [RecordOf(ZERO_ENTRY)];
    }

    /** Give a slot a new key and no names: an evicted entry's backing array is dropped, not reused. */
    method ResetSlot(slot: nat, id: uint64, family: int, address: seq<uint8>, ghost key: Key)
      requires Valid() && slot < count
      requires KeyFor(id, family, address) == Some(key)
      modifies this`records, entries
      ensures Valid()
      ensures records == old(records)[slot := Record(key, [], 0)]
    {
      var size := AddrSize(family);
      entries[slot] := Entry(id, family, address[..size] + ZeroBytes(16 - size), Slice(null, 0), 0);
      records := records[slot := Record(key, [], 0)];
    }

    /** The slot a Put writes to: the key's own, else a free one, else the victim's. */
    method SlotFor(id: uint64, family: int, address: seq<uint8>, ghost key: Key) returns (slot: nat)
      requires Valid() && capacity > 0
      requires KeyFor(id, family, address) == Some(key)
      modifies this`count, this`records, entries
      ensures Valid() && slot < count
      ensures Placed(capacity, old(records), key, slot, records)
    {
      var found := Find(id, family, address);
      if found.Some? {
        return found.value;
      }
      if count >= capacity {
        slot := OldestSlot();
        ResetSlot(slot, id, family, address, key);
      } else {
        slot := PushZero();
        ResetSlot(slot, id, family, address, key);
        assert records == old(records) + [Record(key, [], 0)];
      }
    }

    method Touch(slot: nat, now: uint64)
      requires Valid() && slot < count
      modifies this`records, entries
      ensures Valid()
      ensures records == old(records)[slot := old(records)[slot].(touched := now)]
    {
      entries[slot] := entries[slot].(touchedNS := now);
      records := records[slot := records[slot].(touched := now)];
    }

    method Put(id: uint64, family: int, address: seq<uint8>, name: string, ttl: uint32, now: uint64)
      requires Valid()
      modifies Repr
      ensures Valid() && fresh(Repr - old(Repr))
      ensures records == Step(capacity, old(records), Op.Put(id, family, address, name, ttl, now))
    {
      var size := AddrSize(family);
      var value := CleanName(name);
      if value == "" || |value| > MAX_HOSTNAME || size == 0 || |address| < size || capacity <= 0 {
        return;
      }
      var expires: uint64 := (now + ttl * NS_PER_SECOND) % TWO_TO_THE_64;
      if ttl == 0 {
        expires := (now + ZERO_TTL_GRACE_NS) % TWO_TO_THE_64;
      }
      ghost var a := Accepted(KeyFor(id, family, address).value, value, expires, now);
      assert Admit(Op.Put(id, family, address, name, ttl, now)) == Some(a);
      PutAccepted(id, family, address, value, expires, now, a);
    }

    method PutAccepted(id: uint64, family: int, address: seq<uint8>, value: string, expires: uint64, now: uint64, ghost a: Accepted)
      requires Valid() && capacity > 0
      requires KeyFor(id, family, address) == Some(a.key) && a == Accepted(a.key, value, expires, now)
      modifies Repr
      ensures Valid() && fresh(Repr - old(Repr))
      ensures records == PutRecord(capacity, old(records), a)
    {
      var slot := SlotFor(id, family, address, a.key);
      ghost var placed := records;
      Touch(slot, now);
      StoreName(slot, value, expires);
      PlacedThenStored(capacity, old(records), a, slot, placed);
    }

    /** Filter one names slice over its own backing array: the write index never passes the read index. */
    method CompactNames(names: Slice, now: uint64) returns (kept: Slice)
      requires Shaped(names)
      modifies names.data
      ensures kept.data == names.data && kept.len <= names.len
      ensures NamesOf(kept) == PruneNames(old(NamesOf(names)), now)
    {
      kept := Slice(names.data, 0);
      if names.data == null {
        return;
      }
      var data := names.data;
      ghost var before, done := data[..names.len], [];
      for i := 0 to names.len
        invariant kept.data == data && kept.len == |done| <= i
        invariant done == PruneNames(before[..i], now)
        invariant forall j :: 0 <= j < kept.len ==> data[j] == done[j]
        invariant forall j :: i <= j < names.len ==> data[j] == before[j]
      {
        PruneNamesSnoc(before, i, now);
        var name := data[i];
        if name.expires > now {
          data[kept.len] := name;
          kept := Slice(data, kept.len + 1);
          done := done + [name];
        }
      }
      assert before[..names.len] == before;
      assert data[..kept.len] == done;
    }

    /** No entry below kept shares a backing array with an entry from slot i on. */
    ghost predicate Apart(kept: nat, i: nat, n: nat)
      requires kept <= i <= n <= entries.Length
      reads this, entries
    {
      forall j, k :: 0 <= j < kept && i <= k < n && entries[j].names.data != null ==>
        entries[j].names.data != entries[k].names.data
    }

    /** Filter the names of slot i where they lie; every other slot keeps its record. */
    method CompactEntry(i: nat, kept: nat, now: uint64, ghost done: seq<Record>, ghost before: seq<Record>)
      returns (entry: Entry)
      requires this in Repr && entries in Repr && kept <= i < count <= entries.Length
      requires |done| == kept && |before| == count
      requires Live(0, kept, done) && Live(i, count, before) && Apart(kept, i, count)
      modifies entries[i].names.data
      ensures Live(0, kept, done) && Live(i + 1, count, before)
      ensures entry.names.data == entries[i].names.data && Shaped(entry.names) && |entry.address| == 16
      ensures RecordOf(entry) == before[i].(names := PruneNames(before[i].names, now))
    {
      entry := entries[i];
      assert RecordOf(entry) == before[i];
      var names := CompactNames(entry.names, now);
      entry := entry.(names := names);
    }

    /** Move a compacted entry down to slot kept <= i. */
    method KeepEntry(entry: Entry, kept: nat, i: nat, ghost done: seq<Record>, ghost before: seq<Record>)
      requires this in Repr && entries in Repr && kept <= i < count <= entries.Length
      requires |done| == kept && |before| == count
      requires Live(0, kept, done) && Live(i + 1, count, before) && Apart(kept, i, count)
      requires entry.names.data == entries[i].names.data && Shaped(entry.names) && |entry.address| == 16
      requires entry.names.data != null ==> entry.names.data in Repr
      requires forall j :: i < j < count && entry.names.data != null ==> entries[j].names.data != entry.names.data
      modifies entries
      ensures Live(0, kept + 1, done + [RecordOf(entry)]) && Live(i + 1, count, before)
      ensures Apart(kept + 1, i + 1, count)
    {
      entries[kept] := entry;
      assert forall j :: 0 <= j < count && j != kept ==> entries[j] == old(entries[j]);
    }

    /** One turn of Prune's loop: compact the names of slot i, then move the entry down if any are left. */
    method PruneSlot(i: nat, kept: nat, now: uint64, ghost done: seq<Record>, ghost before: seq<Record>)
      returns (kept': nat, ghost done': seq<Record>)
      requires this in Repr && entries in Repr && kept <= i < count <= entries.Length
      requires |done| == kept && |before| == count
      requires Live(0, kept, done) && Live(i, count, before) && Apart(kept, i, count)
      modifies Repr - {this}
      ensures kept' <= i + 1 && kept' == |done'|
      ensures Live(0, kept', done') && Live(i + 1, count, before) && Apart(kept', i + 1, count)
      ensures var names := PruneNames(before[i].names, now);
              done' == done + if names == [] then [] else [before[i].(names := names)]
    {
      var entry := CompactEntry(i, kept, now, done, before);
      kept', done' := kept, done;
      if entry.names.len > 0 {
        KeepEntry(entry, kept, i, done, before);
        kept', done' := kept + 1, done + [RecordOf(entry)];
      }
    }

    method Prune(now: uint64)
      requires Valid()
      modifies Repr
      ensures Valid() && Repr == old(Repr)
      ensures records == Step(capacity, old(records), Op.Prune(now))
    {
      ghost var before, done: seq<Record> := records, [];
      var n := count;
      var kept := 0;
      for i := 0 to n
        invariant Repr == old(Repr) && count == n && 0 <= kept <= i && |done| == kept
        invariant done == PruneRecords(before[..i], now)
        invariant Live(0, kept, done) && Live(i, n, before) && Apart(kept, i, n)
      {
        PruneRecordsSnoc(before, i, now);
        kept, done := PruneSlot(i, kept, now, done, before);
      }
      assert before[..n] == before;
      count, records := kept, done;
    }
  }
}
