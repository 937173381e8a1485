/** The reference database, working in place on a byte buffer (`RefDB` in farms/farm-sdk/src/refdb.rs). */
module RefDB {
  import opened Basics
  import opened Bytes
  import opened Pack
  import opened Records
  import opened Layout
  import opened StorageSpec

  // ----- scans -----

  function GetOffset(d: seq<byte>, index: nat): (r: Result<nat>)
    ensures r.Ok? ==> HEADER_LEN <= r.value <= |d|
  {
    var size :- GetRecordSize(d);
    var offset := HEADER_LEN + index * size;
    var _ :- CheckDataLen(|d|, offset);
    Ok(offset)
  }

  /** The offset of a slot, or of the end of the slots; an index beyond that is refused. */
  lemma GetOffsetIs(d: seq<byte>, index: nat)
    requires LaidOut(d)
    ensures index <= Total(d) ==> GetOffset(d, index) == Ok(Offset(Kind(d), index))
    ensures index > Total(d) ==> GetOffset(d, index) == Err(AccountDataTooSmall)
  {
    SlotOffsetIsLinear(Kind(d).SlotSize(), index);
    SlotsFit(d);
    if index > Total(d) {
      OffsetMonotone(Kind(d), Total(d), index);
    }
  }

  function GetRecordCounter(d: seq<byte>, offset: nat): (r: Result<u16>)
    requires offset <= |d|
  {
    UnpackCounter(d[offset..])
  }

  function GetRecordCounterAndName(d: seq<byte>, offset: nat): (r: Result<(u16, ArrayString64)>)
    requires offset <= |d|
  {
    UnpackCounterAndName(d[offset..])
  }

  /** At `offset` a scan reads the counter and name of `slot`; the counter is 0 just when it is free. */
  ghost predicate HeadAt(d: seq<byte>, offset: nat, slot: Option<Entry>)
  {
    && offset <= |d|
    && GetRecordCounterAndName(d, offset) == Ok(Head(slot))
    && GetRecordCounter(d, offset) == Ok(Head(slot).0)
    && (Head(slot).0 > 0 <==> slot.Some?)
  }

  /** What a scan over slots of `size` bytes reads is the list `s`. */
  ghost predicate Scannable(d: seq<byte>, size: nat, s: seq<Option<Entry>>)
  {
    forall i {:trigger HeadAt(d, SlotOffset(size, i), s[i])} :: 0 <= i < |s| ==> HeadAt(d, SlotOffset(size, i), s[i])
  }

  lemma WellFormedScannable(d: seq<byte>)
    requires WellFormed(d)
    ensures Scannable(d, Kind(d).SlotSize(), Slots(d))
  {
    forall i | 0 <= i < Total(d) ensures HeadAt(d, SlotOffset(Kind(d).SlotSize(), i), Slots(d)[i]) {
      SlotFields(d, i);
    }
  }

  /** What the accessors answer on a well-formed storage. */
  lemma HeaderValues(d: seq<byte>)
    requires WellFormed(d)
    ensures GetReferenceType(d) == Ok(Kind(d))
    ensures GetStorageCounter(d) == Ok(Decode(d).counter)
    ensures GetActiveRecords(d) == Ok(Live(Slots(d)))
    ensures GetTotalRecords(d) == Ok(Total(d))
    ensures GetRecordSize(d) == Ok(Kind(d).SlotSize())
  {
  }

  method ScanForName(data: array<byte>, name: ArrayString64, active: nat, n: nat, size: nat, ghost s: seq<Option<Entry>>)
    returns (r: Option<nat>)
    requires Scannable(data[..], size, s) && n == |s| && 0 < active == Live(s)
    ensures r == FindName(s, name)
  {
    var offset, checked := HEADER_LEN, 0;
    for index := 0 to n
      invariant offset == SlotOffset(size, index)
      invariant checked == LiveIn(s, index) < active
      invariant forall j :: 0 <= j < index ==> !Holds(s[j], name)
    {
      assert HeadAt(data[..], SlotOffset(size, index), s[index]);
      var (counter, recName) := GetRecordCounterAndName(data[..], offset).value;
      if counter > 0 {
        if recName == name {
          FindNameIs(s, name, index);
          return Some(index);
        }
        checked := checked + 1;
        if checked == active {
          LivePrefix(s, index + 1, n);
          FindNameSpec(s, name);
          return None;
        }
      }
      offset := offset + size;
    }
    FindNameSpec(s, name);
    return None;
  }

  method FindIndex(data: array<byte>, name: ArrayString64) returns (r: Result<Option<nat>>)
    requires WellFormed(data[..])
    ensures r == Ok(FindName(Slots(data[..]), name))
  {
    HeaderValues(data[..]);
    var active := GetActiveRecords(data[..]).value;
    if active == 0 {
      LivePrefix(Slots(data[..]), 0, Total(data[..]));
      FindNameSpec(Slots(data[..]), name);
      return Ok(None);
    }
    WellFormedScannable(data[..]);
    var index := ScanForName(data, name, active, GetTotalRecords(data[..]).value, GetRecordSize(data[..]).value, Slots(data[..]));
    return Ok(index);
  }

  method ScanForLast(data: array<byte>, active: nat, n: nat, size: nat, ghost s: seq<Option<Entry>>) returns (r: Result<u32>)
    requires Scannable(data[..], size, s) && n == |s| <= U32_MAX && 0 < active == Live(s)
    ensures r == Ok(EndOfLive(s))
  {
    var offset, checked := HEADER_LEN, 0;
    for index := 0 to n
      invariant offset == SlotOffset(size, index)
      invariant checked == LiveIn(s, index) < active
    {
      assert HeadAt(data[..], SlotOffset(size, index), s[index]);
      var counter := GetRecordCounter(data[..], offset).value;
      if counter > 0 {
        checked := checked + 1;
        if checked == active {
          LivePrefix(s, index + 1, n);
          EndOfLiveIs(s, index + 1, n);
          return Ok(index + 1);
        }
      }
      offset := offset + size;
    }
    return Err(InvalidAccountData);
  }

  method FindLastIndex(data: array<byte>) returns (r: Result<u32>)
    requires WellFormed(data[..])
    ensures r == Ok(EndOfLive(Slots(data[..])))
  {
    HeaderValues(data[..]);
    var active := GetActiveRecords(data[..]).value;
    if active == 0 {
      LivePrefix(Slots(data[..]), 0, Total(data[..]));
      EndOfLiveIs(Slots(data[..]), 0, Total(data[..]));
      return Ok(0);
    }
    WellFormedScannable(data[..]);
    r := ScanForLast(data, active, GetTotalRecords(data[..]).value, GetRecordSize(data[..]).value, Slots(data[..]));
  }

  method ScanForFree(data: array<byte>, active: nat, n: nat, size: nat, ghost s: seq<Option<Entry>>) returns (r: Result<u32>)
    requires Scannable(data[..], size, s) && n == |s| <= U32_MAX && 0 < active == Live(s)
    ensures r == Ok(FirstFree(s))
  {
    var offset, checked := HEADER_LEN, 0;
    for index := 0 to n
      invariant offset == SlotOffset(size, index)
      invariant checked == LiveIn(s, index) < active
      invariant forall j :: 0 <= j < index ==> s[j].Some?
    {
      assert HeadAt(data[..], SlotOffset(size, index), s[index]);
      var counter := GetRecordCounter(data[..], offset).value;
      if counter == 0 {
        FirstFreeIs(s, index);
        return Ok(index);
      }
      checked := checked + 1;
      if checked == active {
        LivePrefix(s, index + 1, n);
        FirstFreeIs(s, index + 1);
        return Ok(index + 1);
      }
      offset := offset + size;
    }
    return Err(InvalidAccountData);
  }

  method FindNextIndex(data: array<byte>) returns (r: Result<u32>)
    requires WellFormed(data[..])
    ensures r == Ok(FirstFree(Slots(data[..])))
  {
    HeaderValues(data[..]);
    var active := GetActiveRecords(data[..]).value;
    if active == 0 {
      LivePrefix(Slots(data[..]), 0, Total(data[..]));
      FirstFreeIs(Slots(data[..]), 0);
      return Ok(0);
    }
    WellFormedScannable(data[..]);
    r := ScanForFree(data, active, GetTotalRecords(data[..]).value, GetRecordSize(data[..]).value, Slots(data[..]));
  }

  method ScanForWrite(data: array<byte>, name: ArrayString64, active: nat, n: nat, size: nat, ghost s: seq<Option<Entry>>)
    returns (r: nat)
    requires Scannable(data[..], size, s) && n == |s| && 0 < active == Live(s)
    ensures r == SlotOffset(size, Target(s, None, name))
  {
    ghost var free := FirstFree(s);
    FreeFromSpec(s, 0);
    var offset, checked, freeSlot := HEADER_LEN, 0, 0;
    for i := 0 to n
      invariant offset == SlotOffset(size, i)
      invariant checked == LiveIn(s, i) < active
      invariant forall j :: 0 <= j < i ==> !Holds(s[j], name)
      invariant freeSlot == if free < i then SlotOffset(size, free) else 0
    {
      assert HeadAt(data[..], SlotOffset(size, i), s[i]);
      var (counter, recName) := GetRecordCounterAndName(data[..], offset).value;
      if counter > 0 {
        if recName == name {
          FindNameIs(s, name, i);
          return offset;
        }
        checked := checked + 1;
        if checked == active {
          LivePrefix(s, i + 1, n);
          FindNameSpec(s, name);
          if freeSlot == 0 { FirstFreeIs(s, i + 1); }
          offset := offset + size;
          break;
        }
      } else if freeSlot == 0 {
        FirstFreeIs(s, i);
        freeSlot := offset;
      }
      offset := offset + size;
    }
    if freeSlot > 0 {
      return freeSlot;
    } else {
      return offset;
    }
  }

  /** The offset of the name's slot, else of the first free slot, else of the end of the slots. */
  /** The header is cut off or counts no record, so that no slot is looked at. */
  predicate NothingToScan(d: seq<byte>)
  {
    HEADER_LEN <= |d| ==> LeNat(d[4..8]) == 0
  }

  /** Where a record addressed by name goes. */
  ghost function WritePlace(d: seq<byte>, name: seq<byte>): (r: Result<nat>)
    requires WellFormed(d) || NothingToScan(d)
  {
    if |d| < HEADER_LEN then Err(AccountDataTooSmall)
    else if LeNat(d[4..8]) == 0 then Ok(HEADER_LEN)
    else Ok(Offset(Kind(d), Target(Slots(d), None, name)))
  }

  /** An empty storage, too, puts a name in the slot the full scan finds. */
  lemma WritePlaceIs(d: seq<byte>, name: seq<byte>)
    requires WellFormed(d)
    ensures WritePlace(d, name) == Ok(Offset(Kind(d), Target(Slots(d), None, name)))
  {
    if LeNat(d[4..8]) == 0 {
      LivePrefix(Slots(d), 0, Total(d));
      FindNameSpec(Slots(d), name);
      FirstFreeIs(Slots(d), 0);
    }
  }

  method FindWriteOffset(data: array<byte>, name: ArrayString64) returns (r: Result<nat>)
    requires WellFormed(data[..]) || NothingToScan(data[..])
    ensures r == WritePlace(data[..], name)
  {
    var active :- GetActiveRecords(data[..]);
    if active == 0 {
      return Ok(HEADER_LEN);
    }
    HeaderValues(data[..]);
    WellFormedScannable(data[..]);
    var offset := ScanForWrite(data, name, active, GetTotalRecords(data[..]).value, GetRecordSize(data[..]).value, Slots(data[..]));
    return Ok(offset);
  }

  // ----- reads -----

  /** `record` is what a reader gets for the live slot `i`. */
  ghost predicate ReadsAs(s: seq<Option<Entry>>, i: nat, record: Record)
  {
    i < |s| && i <= U32_MAX && s[i].Some? && Representable(s[i].value) && record == ToRecord(Some(i), s[i].value)
  }

  function ReadAt(d: seq<byte>, index: u32): (r: Result<Option<Record>>)
  {
    var offset :- GetOffset(d, index);
    var refType :- GetReferenceType(d);
    var record :- UnpackRecord(d[offset..], refType, Some(index));
    Ok(if record.counter > 0 then Some(record) else None)
  }

  /** Reading a slot gives its record, or nothing if it is free; there is no reading past the slots. */
  lemma ReadAtSpec(d: seq<byte>, index: u32)
    requires WellFormed(d)
    ensures index >= Total(d) ==> ReadAt(d, index) == Err(AccountDataTooSmall)
    ensures index < Total(d) ==> ReadAt(d, index).Ok? && (ReadAt(d, index).value.Some? <==> Slots(d)[index].Some?)
    ensures index < Total(d) && Slots(d)[index].Some? ==> ReadsAs(Slots(d), index, ReadAt(d, index).value.value)
  {
    GetOffsetIs(d, index);
    HeaderValues(d);
    if index < Total(d) { SlotRecord(d, index, Some(index)); } else if index == Total(d) { PastTheEnd(d, Some(index)); }
  }

  method Read(data: array<byte>, name: ArrayString64) returns (r: Result<Option<Record>>)
    requires WellFormed(data[..])
    ensures r.Ok?
    ensures r.value.None? <==> FindName(Slots(data[..]), name).None?
    ensures r.value.Some? ==> r.value.value.index.Some?
                              && ReadsAs(Slots(data[..]), FindName(Slots(data[..]), name).value, r.value.value)
  {
    FindNameSpec(Slots(data[..]), name);
    var index := FindIndex(data, name);
    if index.value.Some? {
      ReadAtSpec(data[..], index.value.value);
      r := ReadAt(data[..], index.value.value);
    } else {
      r := Ok(None);
    }
  }

  /** Exactly the records of the given slots, in that order. */
  ghost predicate ReadsEach(s: seq<Option<Entry>>, indices: seq<nat>, records: seq<Record>)
  {
    |records| == |indices| && forall k :: 0 <= k < |records| ==> ReadsAs(s, indices[k], records[k])
  }

  lemma ReadsOneMore(s: seq<Option<Entry>>, indices: seq<nat>, records: seq<Record>, i: nat, record: Record)
    requires ReadsEach(s, indices, records) && ReadsAs(s, i, record)
    ensures ReadsEach(s, indices + [i], records + [record])
  {
  }

  method ReadAll(data: array<byte>) returns (r: Result<seq<Record>>)
    requires WellFormed(data[..])
    ensures r.Ok? && ReadsEach(Slots(data[..]), LiveIndices(Slots(data[..]), Total(data[..])), r.value)
  {
    var d := data[..];
    ghost var s := Slots(d);
    HeaderValues(d);
    var n := GetTotalRecords(d).value;
    var active := GetActiveRecords(d).value;
    var records := [];
    if active == 0 {
      LiveIndicesSpec(s, n);
      return Ok(records);
    }
    for i := 0 to n
      invariant ReadsEach(s, LiveIndices(s, i), records)
      invariant |records| == LiveIn(s, i) < active
    {
      ReadAtSpec(d, i);
      var found := ReadAt(d, i).value;
      if found.Some? {
        ReadsOneMore(s, LiveIndices(s, i), records, i, found.value);
        records := records + [found.value];
        if |records| == active {
          AllIndexed(s, i + 1);
          return Ok(records);
        }
      }
    }
    return Err(InvalidAccountData);
  }

  /** Once as many live slots are listed as there are, all of them are. */
  lemma AllIndexed(s: seq<Option<Entry>>, i: nat)
    requires i <= |s| && LiveIn(s, i) == Live(s)
    ensures LiveIndices(s, |s|) == LiveIndices(s, i)
  {
    LivePrefix(s, i, |s|);
    LiveIndicesPrefix(s, i, |s|);
  }

  /** Free slots, as the header and the buffer length give them. */
  function GetFreeRecords(d: seq<byte>): (free: nat)
    requires WellFormed(d)
    ensures free + Live(Slots(d)) == Total(d)
  {
    FreeRecordsArithmetic(d);
    (|d| - LeNat(d[4..8]) * Kind(d).SlotSize() - HEADER_LEN) / Kind(d).SlotSize()
  }

  lemma FreeRecordsArithmetic(d: seq<byte>)
    requires WellFormed(d)
    ensures var size := Kind(d).SlotSize();
            LeNat(d[4..8]) * size + HEADER_LEN <= |d|
            && (|d| - LeNat(d[4..8]) * size - HEADER_LEN) / size == Total(d) - LeNat(d[4..8])
  {
    RecordsInIsQuotient(|d| - HEADER_LEN, Kind(d).SlotSize());
    QuotientLess(|d| - HEADER_LEN, Kind(d).SlotSize(), Total(d), LeNat(d[4..8]));
  }

  /** Taking whole records away from a buffer lowers the number of records that fit by as many. */
  lemma QuotientLess(body: nat, size: nat, total: nat, active: nat)
    requires size > 0 && active <= total && 0 <= body - total * size < size
    ensures active * size <= body
    ensures (body - active * size) / size == total - active
  {
    assert active * size + (total - active) * size == total * size;
    QuotientIs(body - active * size, size, total - active);
  }

  // ----- writes -----

  method SetStorageCounter(data: array<byte>, counter: nat) returns (r: Result<nat>)
    modifies data
    ensures r.Ok? <==> counter > 0 && HEADER_LEN <= data.Length
    ensures r.Ok? ==> data[..] == Splice(old(data[..]), 0, LeBytes(counter, 4))
    ensures r.Err? ==> data[..] == old(data[..])
  {
    if counter == 0 {
      return Err(InvalidArgument);
    }
    var _ :- CheckDataLen(data.Length, HEADER_LEN);
    CopyInto(data, 0, LeBytes(counter, 4));
    return Ok(counter);
  }

  method SetActiveRecords(data: array<byte>, records: nat) returns (r: Result<nat>)
    modifies data
    ensures r.Ok? <==> HEADER_LEN <= data.Length
    ensures r.Ok? ==> data[..] == Splice(old(data[..]), 4, LeBytes(records, 4))
    ensures r.Err? ==> data[..] == old(data[..])
  {
    var _ :- CheckDataLen(data.Length, HEADER_LEN);
    CopyInto(data, 4, LeBytes(records, 4));
    return Ok(records);
  }

  method SetRecordCounter(data: array<byte>, offset: nat, counter: nat)
    requires offset + 2 <= data.Length
    modifies data
    ensures data[..] == if counter == 0 then old(data[..]) else Splice(old(data[..]), offset, LeBytes(counter, 2))
  {
    if counter == 0 {
      return;
    }
    CopyInto(data, offset, LeBytes(counter, 2));
  }

  lemma StorageCounterIs(d: seq<byte>)
    requires HEADER_LEN <= |d| && LeNat(d[0..4]) >= 1
    ensures GetStorageCounter(d) == Ok(LeNat(d[0..4])) && LeNat(d[0..4]) <= U32_MAX
  {
    LeBytesOfNat(d[0..4]); Pow256Values();
  }

  /** Moves the storage counter on, past `u32::MAX` to 1. */
  method BumpStorageCounter(data: array<byte>)
    requires HEADER_LEN <= data.Length && LeNat(data[..][0..4]) >= 1
    modifies data
    ensures data[..] == Splice(old(data[..]), 0, LeBytes(NextCounter(LeNat(old(data[..])[0..4]), U32_MAX), 4))
  {
    StorageCounterIs(data[..]);
    var counter := GetStorageCounter(data[..]).value;
    if counter < U32_MAX {
      var _ := SetStorageCounter(data, counter + 1);
    } else {
      var _ := SetStorageCounter(data, 1);
    }
  }

  /** The offset of the slot an operation addresses. */
  ghost function Place(d: seq<byte>, index: Option<u32>, name: seq<byte>): (r: Result<nat>)
    requires WellFormed(d) || index.Some? || NothingToScan(d)
  {
    if index.Some? then GetOffset(d, index.value) else WritePlace(d, name)
  }

  method Locate(data: array<byte>, index: Option<u32>, name: ArrayString64) returns (r: Result<nat>)
    requires WellFormed(data[..]) || index.Some? || NothingToScan(data[..])
    ensures r == Place(data[..], index, name)
    ensures r.Ok? ==> HEADER_LEN <= r.value <= data.Length
  {
    if index.Some? {
      r := GetOffset(data[..], index.value);
    } else {
      if WellFormed(data[..]) { PlaceIs(data[..], index, name); }
      r := FindWriteOffset(data, name);
    }
  }

  lemma PlaceIs(d: seq<byte>, index: Option<u32>, name: seq<byte>)
    requires WellFormed(d)
    ensures var i := Target(Slots(d), index, name);
            && Place(d, index, name) == (if i <= Total(d) then Ok(Offset(Kind(d), i)) else Err(AccountDataTooSmall))
            && (i <= Total(d) ==> HEADER_LEN <= Offset(Kind(d), i) <= |d|)
  {
    SlotsFit(d);
    if index.Some? {
      GetOffsetIs(d, index.value);
    } else {
      WritePlaceIs(d, name);
      TargetSpec(Slots(d), name);
      FreeFromSpec(Slots(d), 0);
    }
  }

  /** At the offset of a slot a call reads its counter and name; past the slots it reads nothing. */
  lemma ReadHead(d: seq<byte>, i: nat)
    requires WellFormed(d) && i <= Total(d)
    ensures Offset(Kind(d), i) <= |d|
    ensures i < Total(d) ==> HeadAt(d, Offset(Kind(d), i), Slots(d)[i])
    ensures i == Total(d) ==> GetRecordCounterAndName(d, Offset(Kind(d), i)) == Err(AccountDataTooSmall)
  {
    if i < Total(d) { SlotFields(d, i); } else { PastTheEnd(d, None); }
  }

  /** New counters in the header, as bytes. */
  ghost function Counted(d: seq<byte>, counter: nat, active: nat): (d': seq<byte>)
    requires HEADER_LEN <= |d|
    ensures |d'| == |d|
  {
    Splice(d, 0, LeBytes(counter, 4) + LeBytes(active, 4))
  }

  lemma CountedElsewhere(d: seq<byte>, counter: nat, active: nat, lo: nat, hi: nat)
    requires HEADER_LEN <= lo <= hi <= |d|
    ensures Counted(d, counter, active)[lo..hi] == d[lo..hi]
  {
    SpliceElsewhere(d, 0, LeBytes(counter, 4) + LeBytes(active, 4), lo, hi);
  }

  lemma CountedHeader(d: seq<byte>, counter: u32, active: u32)
    requires HEADER_LEN <= |d|
    ensures LeNat(Counted(d, counter, active)[0..4]) == counter
    ensures LeNat(Counted(d, counter, active)[4..8]) == active
  {
    var d' := Counted(d, counter, active);
    assert d'[0..4] == LeBytes(counter, 4);
    assert d'[4..8] == LeBytes(active, 4);
    Pow256Values();
    LeNatOfBytes(counter, 4);
    LeNatOfBytes(active, 4);
  }

  /** Storing a new update counter keeps the active count. */
  lemma CounterOnly(d: seq<byte>, counter: nat)
    requires HEADER_LEN <= |d|
    ensures Splice(d, 0, LeBytes(counter, 4)) == Counted(d, counter, LeNat(d[4..8]))
    ensures Splice(d, 0, LeBytes(counter, 4))[4..8] == d[4..8]
  {
    LeBytesOfNat(d[4..8]);
    SpliceElsewhere(d, 0, LeBytes(counter, 4), 4, 8);
    SpliceSame(Splice(d, 0, LeBytes(counter, 4)), 4, 8);
    SpliceAdjacent(d, 0, LeBytes(counter, 4), d[4..8]);
  }

  /** New counters in the header and new bytes in one slot, as bytes. */
  ghost function Stored(d: seq<byte>, counter: nat, active: nat, offset: nat, b: seq<byte>): (d': seq<byte>)
    requires HEADER_LEN <= offset && offset + |b| <= |d|
  {
    Splice(Counted(d, counter, active), offset, b)
  }

  /** What a buffer means after new bytes are stored in one slot, and exactly when it is still well formed. */
  lemma StoredDecodes(d: seq<byte>, counter: u32, active: u32, i: nat, b: seq<byte>)
    requires WellFormed(d) && i < Total(d) && counter >= 1 && |b| == Kind(d).SlotSize()
    ensures Offset(Kind(d), i) + |b| <= |d|
    ensures var d', slots := Stored(d, counter, active, Offset(Kind(d), i), b), Slots(d)[i := DecodeSlot(Kind(d), b)];
            && LaidOut(d') && Decode(d') == Decode(d).(counter := counter, slots := slots)
            && LeNat(d'[4..8]) == active && (WellFormed(d') <==> CleanSlot(b) && active == Live(slots))
  {
    SlotsFit(d);
    var o := Offset(Kind(d), i);
    assert Offset(Kind(d), i + 1) == o + |b| <= |d|;
    var h := Counted(d, counter, active);
    var d' := Stored(d, counter, active, o, b);
    CountedHeader(d, counter, active);
    SpliceElsewhere(h, o, b, 0, 4);
    SpliceElsewhere(h, o, b, 4, 8);
    SpliceHere(h, o, b);
    SlotReplaced(d, d', i);
    assert RawSlot(d', i) == b;
  }

  /** The active count after a write: one more when the slot was free. */
  function ActiveAfterWrite(active: nat, curCounter: nat): (n: nat)
  {
    if curCounter == 0 && active < U32_MAX then active + 1 else active
  }

  /** Moves both header counters for a write to a slot with the given counter. */
  method CountWrite(data: array<byte>, curCounter: u16)
    requires HEADER_LEN <= data.Length && LeNat(data[..][0..4]) >= 1
    modifies data
    ensures var d := old(data[..]);
            data[..] == Counted(d, NextCounter(LeNat(d[0..4]), U32_MAX), ActiveAfterWrite(LeNat(d[4..8]), curCounter))
  {
    ghost var d := data[..];
    ghost var counter := NextCounter(LeNat(d[0..4]), U32_MAX);
    BumpStorageCounter(data);
    CounterOnly(d, counter);
    if curCounter == 0 {
      var activeRecords := GetActiveRecords(data[..]).value;
      if activeRecords < U32_MAX {
        var _ := SetActiveRecords(data, activeRecords + 1);
        SpliceAdjacent(d, 0, LeBytes(counter, 4), LeBytes(activeRecords + 1, 4));
      }
    }
  }

  /** Packs the record, then stores the counter that follows the slot's old one, even if the record did not fit. */
  method PackNext(data: array<byte>, offset: nat, record: Record, curCounter: u16) returns (r: Result<nat>)
    requires HEADER_LEN <= offset && offset + NO_REF_LEN <= data.Length && record.reference.Valid()
    modifies data
    ensures offset + record.Size() <= data.Length ==>
              r == Ok(record.Size()) && data[..] == Splice(old(data[..]), offset, WrittenSlot(old(data[..]), offset, curCounter, record))
    ensures offset + record.Size() > data.Length ==>
              r == Err(AccountDataTooSmall) && data[..] == Splice(old(data[..]), offset, LeBytes(NextCounter(curCounter, U16_MAX), 2))
  {
    if offset + record.Size() <= data.Length { NextPacked(data[..], offset, curCounter, record); }
    r := PackRecord(record, data, offset);
    if curCounter < U16_MAX {
      SetRecordCounter(data, offset, curCounter + 1);
    } else {
      SetRecordCounter(data, offset, 1);
    }
  }

  /** Packing a record and then storing the next counter packs the record with the next counter. */
  lemma NextPacked(d: seq<byte>, offset: nat, cur: u16, record: Record)
    requires HEADER_LEN <= offset && offset + record.Size() <= |d| && record.reference.Valid()
    ensures var b := SlotBytes(record.counter, record.tag, record.name, d[offset + 4..offset + NO_REF_LEN], record.reference);
            Splice(Splice(d, offset, b), offset, LeBytes(NextCounter(cur, U16_MAX), 2)) == Splice(d, offset, WrittenSlot(d, offset, cur, record))
  {
    var field, next := d[offset + 4..offset + NO_REF_LEN], NextCounter(cur, U16_MAX);
    SpliceOver(d, offset, SlotBytes(record.counter, record.tag, record.name, field, record.reference), LeBytes(next, 2));
    Recounted(record.counter, next, record.tag, record.name, field, record.reference);
  }

  /** Replacing the counter of a packed record gives the record packed with the new counter. */
  lemma Recounted(counter: u16, next: u16, tag: u16, name: seq<byte>, field: seq<byte>, reference: Reference)
    requires |name| <= NAME_LEN == |field| && reference.Valid()
    ensures LeBytes(next, 2) + SlotBytes(counter, tag, name, field, reference)[2..] == SlotBytes(next, tag, name, field, reference)
  {
  }

  /** The bytes of a record packed over a slot with counter `cur`. */
  ghost function WrittenSlot(d: seq<byte>, offset: nat, cur: nat, record: Record): (b: seq<byte>)
    requires HEADER_LEN <= offset && offset + record.Size() <= |d| && record.reference.Valid() && cur <= U16_MAX
    ensures |b| == record.Size()
  {
    SlotBytes(NextCounter(cur, U16_MAX), record.tag, record.name, d[offset + 4..offset + NO_REF_LEN], record.reference)
  }

  /** The whole buffer after a record is stored over a slot with counter `cur`; of one that does not fit, only the counter. */
  ghost function WrittenAt(d: seq<byte>, offset: nat, cur: nat, record: Record): (d': seq<byte>)
    requires HEADER_LEN <= offset && offset + NO_REF_LEN <= |d| && record.reference.Valid() && cur <= U16_MAX
  {
    Stored(d, NextCounter(LeNat(d[0..4]), U32_MAX), ActiveAfterWrite(LeNat(d[4..8]), cur), offset,
           if offset + record.Size() <= |d| then WrittenSlot(d, offset, cur, record) else LeBytes(NextCounter(cur, U16_MAX), 2))
  }

  ghost function WithRecord(d: seq<byte>, i: nat, record: Record): (d': seq<byte>)
    requires WellFormed(d) && i < Total(d) && record.reference.Valid()
    requires Offset(Kind(d), i) + record.Size() <= |d| && Head(Slots(d)[i]).0 <= U16_MAX
  {
    WrittenAt(d, Offset(Kind(d), i), Head(Slots(d)[i]).0, record)
  }

  /** The slot bytes that storing a record leaves, and that they lie over an empty name field or the same name. */
  lemma StoredSlot(d: seq<byte>, i: nat, record: Record)
    requires WellFormed(d) && i < Total(d) && record.reference.Valid()
    requires Slots(d)[i].Some? ==> Slots(d)[i].value.name == record.name
    requires Kind(d) == record.reference.Type()
    ensures Offset(Kind(d), i) + record.Size() == Offset(Kind(d), i + 1) <= |d|
    ensures Head(Slots(d)[i]).0 <= U16_MAX && (Slots(d)[i].Some? <==> Head(Slots(d)[i]).0 > 0)
    ensures var b := WrittenSlot(d, Offset(Kind(d), i), Head(Slots(d)[i]).0, record);
            && |b| == Kind(d).SlotSize() && (CleanSlot(b) <==> NulsAtEnd(record.name))
            && DecodeSlot(Kind(d), b) == Some(Entry(NextCounter(Head(Slots(d)[i]).0, U16_MAX), record.tag, BeforeNul(record.name), record.reference))
  {
    var o := Offset(Kind(d), i);
    NameField(d, i);
    SlotFields(d, i);
    SlotsFit(d);
    assert Offset(Kind(d), i + 1) == o + record.Size() <= |d|;
    PackedSlot(Kind(d), NextCounter(Head(Slots(d)[i]).0, U16_MAX), record.tag, record.name, d[o + 4..o + NO_REF_LEN], record.reference);
  }

  /**
   * What storing a record means, for any name: the storage counter moves on and the slot holds the record under its next
   * counter, with its name up to the first NUL. The storage is still well formed exactly when nothing follows that NUL.
   */
  lemma StoredRecordDecodes(d: seq<byte>, i: nat, record: Record)
    requires WellFormed(d) && i < Total(d) && record.reference.Valid()
    requires Slots(d)[i].Some? ==> Slots(d)[i].value.name == record.name
    requires Kind(d) == record.reference.Type()
    ensures Offset(Kind(d), i) + record.Size() <= |d|
    ensures Head(Slots(d)[i]).0 <= U16_MAX
    ensures LaidOut(WithRecord(d, i, record)) && (WellFormed(WithRecord(d, i, record)) <==> NulsAtEnd(record.name))
    ensures Decode(WithRecord(d, i, record)) == Decode(d).(
                              counter := NextCounter(LeNat(d[0..4]), U32_MAX),
                              slots := Slots(d)[i := Some(Entry(NextCounter(Head(Slots(d)[i]).0, U16_MAX), record.tag,
                                                                BeforeNul(record.name), record.reference))])
  {
    StoredSlot(d, i, record);
    var s, o, cur := Slots(d), Offset(Kind(d), i), Head(Slots(d)[i]).0;
    var b := WrittenSlot(d, o, cur, record);
    CountersFit(d);
    LiveUpdate(s, i, DecodeSlot(Kind(d), b));
    StoredDecodes(d, NextCounter(LeNat(d[0..4]), U32_MAX), ActiveAfterWrite(LeNat(d[4..8]), cur), i, b);
  }

  /** The part of `write` after its checks. */
  method StoreRecord(data: array<byte>, offset: nat, record: Record, curCounter: u16) returns (r: Result<nat>)
    requires HEADER_LEN <= offset && offset + NO_REF_LEN <= data.Length && record.reference.Valid()
    requires LeNat(data[..][0..4]) >= 1
    modifies data
    ensures r == if offset + record.Size() <= data.Length then Ok(record.Size()) else Err(AccountDataTooSmall)
    ensures data[..] == WrittenAt(old(data[..]), offset, curCounter, record)
  {
    if offset + record.Size() <= data.Length {
      WrittenOverCounted(data[..], NextCounter(LeNat(data[..][0..4]), U32_MAX), ActiveAfterWrite(LeNat(data[..][4..8]), curCounter),
                         offset, curCounter, record);
    }
    CountWrite(data, curCounter);
    r := PackNext(data, offset, record, curCounter);
  }

  /** From byte `o` on: a counter, a tag, a name and a reference, each number with its lowest byte first. */
  ghost predicate RecordAtByte(d: seq<byte>, o: nat, counter: nat, tag: nat, name: seq<byte>, reference: Reference)
    requires reference.Valid()
  {
    && o + 68 + reference.Type().Size() <= |d| && |name| <= 64
    && d[o] == counter % 0x100 && d[o + 1] == counter / 0x100
    && d[o + 2] == tag % 0x100 && d[o + 3] == tag / 0x100
    && (forall k :: 0 <= k < |name| ==> d[o + 4 + k] == name[k])
    && (forall k :: 0 <= k < reference.Type().Size() ==> d[o + 68 + k] == reference.Packed()[k])
  }

  /** The header counters in the first eight bytes. */
  ghost predicate CountersAtStart(d: seq<byte>, counter: nat, active: nat)
  {
    8 <= |d| && forall k :: 0 <= k < 4 ==> d[k] == counter / Pow256(k) % 0x100 && d[4 + k] == active / Pow256(k) % 0x100
  }

  /** The header counters moved on, the record from byte `o` on under the next counter, and every other byte as it was. */
  ghost predicate RecordWritten(d: seq<byte>, o: nat, cur: nat, record: Record, d': seq<byte>)
    requires HEADER_LEN <= |d| && record.reference.Valid()
  {
    && |d'| == |d|
    && CountersAtStart(d', NextCounter(LeNat(d[0..4]), U32_MAX), ActiveAfterWrite(LeNat(d[4..8]), cur))
    && RecordAtByte(d', o, NextCounter(cur, U16_MAX), record.tag, record.name, record.reference)
    && (forall k :: 8 <= k < |d| && !(o <= k < o + record.Size()) ==> d'[k] == d[k])
  }

  /**
   * The bytes a write leaves, at their places in the buffer: the two header counters, the record from the offset of its slot
   * on, which OffsetInFigures gives, under the slot's next counter, and every other byte as it was.
   */
  lemma RecordOnBytes(d: seq<byte>, i: nat, record: Record)
    requires WellFormed(d) && i < Total(d) && record.reference.Valid()
    requires Slots(d)[i].Some? ==> Slots(d)[i].value.name == record.name
    requires Kind(d) == record.reference.Type()
    ensures Offset(Kind(d), i) + record.Size() <= |d| && Head(Slots(d)[i]).0 <= U16_MAX
    ensures RecordWritten(d, Offset(Kind(d), i), Head(Slots(d)[i]).0, record, WithRecord(d, i, record))
  {
    StoredSlot(d, i, record);
    WrittenOnBytes(d, Offset(Kind(d), i), Head(Slots(d)[i]).0, record);
  }

  /** Slot `i` starts at byte 73 + i * (68 + size). */
  lemma OffsetInFigures(t: ReferenceType, i: nat)
    ensures Offset(t, i) == 73 + i * (68 + t.Size())
  {
    SlotOffsetIsLinear(t.SlotSize(), i);
  }

  lemma WrittenOnBytes(d: seq<byte>, o: nat, cur: nat, record: Record)
    requires HEADER_LEN <= o && o + record.Size() <= |d| && record.reference.Valid() && cur <= U16_MAX
    ensures RecordWritten(d, o, cur, record, WrittenAt(d, o, cur, record))
  {
    var b := WrittenSlot(d, o, cur, record);
    BytesOfStored(d, NextCounter(LeNat(d[0..4]), U32_MAX), ActiveAfterWrite(LeNat(d[4..8]), cur), o, b);
    RecordLayout(NextCounter(cur, U16_MAX), record.tag, record.name, d[o + 4..o + NO_REF_LEN], record.reference);
    LayoutShifted(WrittenAt(d, o, cur, record), o, b, NextCounter(cur, U16_MAX), record.tag, record.name, record.reference);
  }

  lemma LayoutShifted(d: seq<byte>, o: nat, b: seq<byte>, counter: nat, tag: nat, name: seq<byte>, reference: Reference)
    requires reference.Valid() && |b| == 68 + reference.Type().Size() && o + |b| <= |d| && |name| <= 64
    requires forall k :: 0 <= k < |b| ==> d[o + k] == b[k]
    requires b[0] == counter % 0x100 && b[1] == counter / 0x100 && b[2] == tag % 0x100 && b[3] == tag / 0x100
    requires forall k :: 0 <= k < |name| ==> b[4 + k] == name[k]
    requires forall k :: 0 <= k < reference.Type().Size() ==> b[68 + k] == reference.Packed()[k]
    ensures RecordAtByte(d, o, counter, tag, name, reference)
  {
    assert d[o] == d[o + 0];
    forall k | 0 <= k < |name| ensures d[o + 4 + k] == name[k] { assert d[o + (4 + k)] == b[4 + k]; }
    forall k | 0 <= k < reference.Type().Size() ensures d[o + 68 + k] == reference.Packed()[k] { assert d[o + (68 + k)] == b[68 + k]; }
  }

  lemma BytesOfStored(d: seq<byte>, counter: nat, active: nat, o: nat, b: seq<byte>)
    requires HEADER_LEN <= o && o + |b| <= |d|
    ensures var d' := Stored(d, counter, active, o, b);
            && |d'| == |d|
            && (forall k :: 0 <= k < 4 ==> d'[k] == counter / Pow256(k) % 0x100 && d'[4 + k] == active / Pow256(k) % 0x100)
            && (forall k :: 0 <= k < |b| ==> d'[o + k] == b[k])
            && (forall k :: 8 <= k < |d| && !(o <= k < o + |b|) ==> d'[k] == d[k])
  {
    forall k | 0 <= k < 4 ensures LeBytes(counter, 4)[k] == counter / Pow256(k) % 0x100 && LeBytes(active, 4)[k] == active / Pow256(k) % 0x100 {
      LeByteAt(counter, 4, k);
      LeByteAt(active, 4, k);
    }
  }

  /** New header counters do not change what is packed over a slot. */
  lemma WrittenOverCounted(d: seq<byte>, counter: nat, active: nat, offset: nat, cur: nat, record: Record)
    requires HEADER_LEN <= offset && offset + record.Size() <= |d| && record.reference.Valid() && cur <= U16_MAX
    ensures WrittenSlot(Counted(d, counter, active), offset, cur, record) == WrittenSlot(d, offset, cur, record)
  {
    CountedElsewhere(d, counter, active, offset + 4, offset + NO_REF_LEN);
  }

  /** What `write` finds before it changes anything: an error, or the offset and the counter of the slot. */
  ghost function WriteChecks(d: seq<byte>, place: Result<nat>, record: Record): (r: Result<(nat, u16)>)
    requires place.Ok? ==> place.value <= |d|
    ensures r.Ok? ==> place == Ok(r.value.0) && r.value.0 + NO_REF_LEN <= |d| && HEADER_LEN <= |d| && LeNat(d[0..4]) >= 1
  {
    var offset :- place;
    var (cur, name) :- GetRecordCounterAndName(d, offset);
    if cur > 0 && record.counter > 0 && cur != record.counter then Err(Custom(409))
    else if cur > 0 && record.index.Some? && record.name != name then Err(Custom(409))
    else
      var t :- GetReferenceType(d);
      if t != record.reference.Type() then Err(Custom(409))
      else
        var _ :- GetStorageCounter(d);
        Ok((offset, cur))
  }

  /** What `write` returns and leaves, on any bytes. */
  ghost function Written(d: seq<byte>, place: Result<nat>, record: Record): (w: (Result<nat>, seq<byte>))
    requires record.reference.Valid() && (place.Ok? ==> HEADER_LEN <= place.value <= |d|)
  {
    match WriteChecks(d, place, record)
    case Err(error) => (Err(error), d)
    case Ok((offset, cur)) =>
      (if offset + record.Size() <= |d| then Ok(record.Size()) else Err(AccountDataTooSmall), WrittenAt(d, offset, cur, record))
  }

  ghost predicate WriteOutcome(d: seq<byte>, place: Result<nat>, record: Record, r: Result<nat>, d': seq<byte>)
    requires record.reference.Valid() && (place.Ok? ==> HEADER_LEN <= place.value <= |d|)
  {
    (r, d') == Written(d, place, record)
  }

  method Write(data: array<byte>, record: Record) returns (r: Result<nat>)
    requires record.reference.Valid() && (WellFormed(data[..]) || record.index.Some? || NothingToScan(data[..]))
    modifies data
    ensures PlaceInside(old(data[..]), record)
    ensures WriteOutcome(old(data[..]), Place(old(data[..]), record.index, record.name), record, r, data[..])
    ensures WellFormed(old(data[..])) ==> WriteMeaning(old(data[..]), record, r, data[..])
  {
    ghost var d := data[..];
    r := WriteBytes(data, record);
    if WellFormed(d) { WriteMeans(d, record, r, data[..]); }
  }

  /** On a well-formed storage a write does to the slots what the write rule says, and breaks it only by a name with bytes after a NUL. */
  ghost predicate WriteMeaning(d: seq<byte>, record: Record, r: Result<nat>, d': seq<byte>)
    requires WellFormed(d)
  {
    && LaidOut(d') && (r, Decode(d')) == ApplyWrite(Decode(d), record)
    && (r.Err? ==> d' == d)
    && (WellFormed(d') <==> r.Err? || NulsAtEnd(record.name))
  }

  /** The place of a record lies inside the buffer, behind the header. */
  ghost predicate PlaceInside(d: seq<byte>, record: Record)
    requires WellFormed(d) || record.index.Some? || NothingToScan(d)
  {
    var place := Place(d, record.index, record.name);
    place.Ok? ==> HEADER_LEN <= place.value <= |d|
  }

  /** The body of `write`. */
  method WriteBytes(data: array<byte>, record: Record) returns (r: Result<nat>)
    requires record.reference.Valid() && (WellFormed(data[..]) || record.index.Some? || NothingToScan(data[..]))
    modifies data
    ensures PlaceInside(old(data[..]), record)
    ensures WriteOutcome(old(data[..]), Place(old(data[..]), record.index, record.name), record, r, data[..])
  {
    var offset :- Locate(data, record.index, record.name);
    var head :- GetRecordCounterAndName(data[..], offset);
    var (curCounter, curName) := head;
    if curCounter > 0 {
      if record.counter > 0 && curCounter != record.counter {
        return Err(Custom(409));
      }
      if record.index.Some? && record.name != curName {
        return Err(Custom(409));
      }
    }
    var referenceType :- GetReferenceType(data[..]);
    if referenceType != record.reference.Type() {
      return Err(Custom(409));
    }
    var _ :- GetStorageCounter(data[..]);
    r := StoreRecord(data, offset, record, curCounter);
  }

  lemma WriteMeans(d: seq<byte>, record: Record, r: Result<nat>, d': seq<byte>)
    requires WellFormed(d) && record.reference.Valid() && PlaceInside(d, record)
    requires WriteOutcome(d, Place(d, record.index, record.name), record, r, d')
    ensures WriteMeaning(d, record, r, d')
  {
    var i := Target(Slots(d), record.index, record.name);
    PlaceIs(d, record.index, record.name);
    if i <= Total(d) { ReadHead(d, i); }
    HeaderValues(d);
    TargetSpec(Slots(d), record.name);
    FreeFromSpec(Slots(d), 0);
    if ApplyWrite(Decode(d), record).0.Ok? {
      StoredRecordDecodes(d, i, record);
      assert d' == WithRecord(d, i, record);
    }
  }

  // ----- updates -----

  /** Moving the storage counter alone changes nothing else. */
  lemma CounterStored(d: seq<byte>, counter: u32)
    requires WellFormed(d) && counter >= 1
    ensures WellFormed(Splice(d, 0, LeBytes(counter, 4)))
    ensures Decode(Splice(d, 0, LeBytes(counter, 4))) == Decode(d).(counter := counter)
  {
    CounterOnly(d, counter);
    CountersFit(d);
    SlotAt(d, 0);
    assert Slots(d)[0 := DecodeSlot(Kind(d), RawSlot(d, 0))] == Slots(d);
    SlotsFit(d);
    assert Offset(Kind(d), 1) == Offset(Kind(d), 0) + Kind(d).SlotSize() <= |d|;
    StoredBack(d, counter, LeNat(d[4..8]), Offset(Kind(d), 0), Offset(Kind(d), 1));
    StoredDecodes(d, counter, LeNat(d[4..8]), 0, RawSlot(d, 0));
  }

  /** Storing back the bytes of a slot changes the header counters only. */
  lemma StoredBack(d: seq<byte>, counter: nat, active: nat, lo: nat, hi: nat)
    requires HEADER_LEN <= lo <= hi <= |d|
    ensures Stored(d, counter, active, lo, d[lo..hi]) == Counted(d, counter, active)
  {
    CountedElsewhere(d, counter, active, lo, hi);
    SpliceSame(Counted(d, counter, active), lo, hi);
  }

  /** The buffer with only the storage counter moved on. */
  ghost function Bumped(d: seq<byte>): (d': seq<byte>)
    requires HEADER_LEN <= |d|
    ensures |d'| == |d|
  {
    Splice(d, 0, LeBytes(NextCounter(LeNat(d[0..4]), U32_MAX), 4))
  }

  lemma BumpedDecodes(d: seq<byte>)
    requires WellFormed(d)
    ensures WellFormed(Bumped(d)) && Kind(Bumped(d)) == Kind(d) && Slots(Bumped(d)) == Slots(d)
    ensures Decode(Bumped(d)) == Decode(d).(counter := NextCounter(LeNat(d[0..4]), U32_MAX))
  {
    LeBytesOfNat(d[0..4]); Pow256Values();
    CounterStored(d, NextCounter(LeNat(d[0..4]), U32_MAX));
  }

  /** What `update_at` reads at a slot with a reference type of any size. */
  lemma RecordAt(d: seq<byte>, i: nat, t: ReferenceType)
    requires WellFormed(d) && i <= Total(d)
    ensures Offset(Kind(d), i) <= |d|
    ensures var o, u := Offset(Kind(d), i), UnpackRecord(d[Offset(Kind(d), i)..], t, None);
            if i == Total(d) || |d| < o + t.SlotSize() then u == Err(AccountDataTooSmall)
            else
              && u.Ok? && (Slots(d)[i].None? ==> u.value.counter == 0)
              && (Slots(d)[i].Some? ==>
                    var e := Slots(d)[i].value;
                    Representable(e) && u.value == Record(None, e.counter, e.tag, e.name, u.value.reference)
                    && Bumped(d)[o + 4..o + NO_REF_LEN] == Padded(e.name))
  {
    SlotsFit(d);
    if i < Total(d) {
      var o := Offset(Kind(d), i);
      NameField(d, i);
      SlotRecord(d, i, None);
      SliceInside(d, o, 4, NO_REF_LEN);
      SpliceElsewhere(d, 0, LeBytes(NextCounter(LeNat(d[0..4]), U32_MAX), 4), o + 4, o + NO_REF_LEN);
    }
  }

  /** The entry's fields fit their bytes. */
  predicate InRange(e: Entry)
  {
    e.counter <= U16_MAX && e.tag <= U16_MAX && |e.name| <= NAME_LEN
  }

  /** The fixed part of a record's bytes. */
  ghost function FixedPart(counter: nat, tag: nat, name: seq<byte>): (b: seq<byte>)
    requires counter <= U16_MAX && tag <= U16_MAX && |name| <= NAME_LEN
    ensures |b| == NO_REF_LEN
  {
    LeBytes(counter, 2) + LeBytes(tag, 2) + Padded(name)
  }

  /** The bytes of a record packed again with its next counter and another reference. */
  ghost function UpdatedSlot(counter: nat, tag: nat, name: seq<byte>, reference: Reference): (b: seq<byte>)
    requires counter <= U16_MAX && tag <= U16_MAX && |name| <= NAME_LEN && reference.Valid()
    ensures |b| == reference.Type().SlotSize()
  {
    FixedPart(NextCounter(counter, U16_MAX), tag, name) + reference.Packed()
  }

  /** Live slot `i` was packed again with another reference, of whatever size. */
  ghost predicate UpdateStep(d: seq<byte>, i: nat, reference: Reference, d': seq<byte>)
    requires WellFormed(d) && reference.Valid()
  {
    && i < Total(d) && Slots(d)[i].Some? && InRange(Slots(d)[i].value)
    && Offset(Kind(d), i) + reference.Type().SlotSize() <= |d|
    && var e := Slots(d)[i].value;
       d' == Splice(Bumped(d), Offset(Kind(d), i), UpdatedSlot(e.counter, e.tag, e.name, reference))
  }

  /** What `update_at` returns and leaves, for a reference of any type. */
  ghost predicate UpdateOutcome(d: seq<byte>, index: nat, reference: Reference, r: Result<nat>, d': seq<byte>)
    requires WellFormed(d) && reference.Valid()
  {
    if index >= Total(d) || |d| < Offset(Kind(d), index) + reference.Type().SlotSize() then r == Err(AccountDataTooSmall) && d' == d
    else if Slots(d)[index].None? then r == Err(UninitializedAccount) && d' == Bumped(d)
    else r == Ok(reference.Type().SlotSize()) && UpdateStep(d, index, reference, d')
  }

  method UpdateAt(data: array<byte>, index: nat, reference: Reference) returns (r: Result<nat>)
    requires WellFormed(data[..]) && reference.Valid()
    modifies data
    ensures UpdateOutcome(old(data[..]), index, reference, r, data[..])
    ensures reference.Type() == Kind(old(data[..])) ==>
              WellFormed(data[..]) && (r, Decode(data[..])) == ApplyUpdateAt(Decode(old(data[..])), index, reference)
  {
    ghost var d := data[..];
    CurrentRecordIs(d, index, reference.Type());
    r := UpdateBytes(data, index, reference);
    UpdateOutcomeIs(d, index, reference, r, data[..]);
    if reference.Type() == Kind(d) { UpdateOutcomeDecodes(d, index, reference, r, data[..]); }
  }

  /** The body of `update_at`, on any bytes in which the record found has its name padded with zeros. */
  method UpdateBytes(data: array<byte>, index: nat, reference: Reference) returns (r: Result<nat>)
    requires HEADER_LEN <= data.Length && LeNat(data[..][0..4]) >= 1 && reference.Valid()
    requires NamePadded(data[..], index, reference.Type())
    modifies data
    ensures BytesUpdated(old(data[..]), index, reference, r, data[..])
  {
    var found :- CurrentRecord(data[..], index, reference.Type());
    var (offset, cur) := found;
    BumpStorageCounter(data);
    if cur.counter == 0 {
      return Err(UninitializedAccount);
    }
    r := StoreUpdate(data, offset, cur, reference);
  }

  ghost predicate NamePadded(d: seq<byte>, index: nat, t: ReferenceType)
    requires HEADER_LEN <= |d|
  {
    var u := CurrentRecord(d, index, t);
    u.Ok? && u.value.1.counter > 0 ==> Bumped(d)[u.value.0 + 4..u.value.0 + NO_REF_LEN] == Padded(u.value.1.name)
  }

  ghost predicate BytesUpdated(d: seq<byte>, index: nat, reference: Reference, r: Result<nat>, d': seq<byte>)
    requires HEADER_LEN <= |d| && reference.Valid()
  {
    match CurrentRecord(d, index, reference.Type())
    case Err(error) => r == Err(error) && d' == d
    case Ok((offset, cur)) =>
      if cur.counter == 0 then r == Err(UninitializedAccount) && d' == Bumped(d)
      else r == Ok(reference.Type().SlotSize())
           && d' == Splice(Bumped(d), offset, UpdatedSlot(cur.counter, cur.tag, cur.name, reference))
  }

  lemma UpdateOutcomeIs(d: seq<byte>, index: nat, reference: Reference, r: Result<nat>, d': seq<byte>)
    requires WellFormed(d) && reference.Valid() && BytesUpdated(d, index, reference, r, d')
    ensures UpdateOutcome(d, index, reference, r, d')
  {
    CurrentRecordIs(d, index, reference.Type());
    var u := CurrentRecord(d, index, reference.Type());
    if u.Ok? && u.value.1.counter > 0 { UpdateStepIs(d, index, reference, u.value.1, d'); }
  }

  /** The offset of a slot and the record read there. */
  function CurrentRecord(d: seq<byte>, index: nat, t: ReferenceType): (r: Result<(nat, Record)>)
    ensures r.Ok? ==> r.value.0 + t.SlotSize() <= |d|
  {
    var offset :- GetOffset(d, index);
    var cur :- UnpackRecord(d[offset..], t, None);
    Ok((offset, cur))
  }

  /** The record is that of the live slot. */
  ghost predicate Reads(d: seq<byte>, i: nat, cur: Record)
    requires WellFormed(d)
  {
    i < Total(d) && Slots(d)[i].Some? && Representable(Slots(d)[i].value)
    && cur.counter == Slots(d)[i].value.counter && cur.tag == Slots(d)[i].value.tag && cur.name == Slots(d)[i].value.name
  }

  lemma CurrentRecordIs(d: seq<byte>, index: nat, t: ReferenceType)
    requires WellFormed(d)
    ensures var u := CurrentRecord(d, index, t);
            if index >= Total(d) || |d| < Offset(Kind(d), index) + t.SlotSize() then u == Err(AccountDataTooSmall)
            else
              && u.Ok? && u.value.0 == Offset(Kind(d), index)
              && (Slots(d)[index].None? ==> u.value.1.counter == 0)
              && (Slots(d)[index].Some? ==> Reads(d, index, u.value.1) && u.value.1.counter > 0
                                            && Bumped(d)[u.value.0 + 4..u.value.0 + NO_REF_LEN] == Padded(u.value.1.name))
  {
    GetOffsetIs(d, index);
    if index <= Total(d) { RecordAt(d, index, t); }
  }

  lemma UpdateStepIs(d: seq<byte>, i: nat, reference: Reference, cur: Record, d': seq<byte>)
    requires WellFormed(d) && reference.Valid() && Reads(d, i, cur)
    requires Offset(Kind(d), i) + reference.Type().SlotSize() <= |d|
    requires d' == Splice(Bumped(d), Offset(Kind(d), i), UpdatedSlot(cur.counter, cur.tag, cur.name, reference))
    ensures UpdateStep(d, i, reference, d')
  {
  }

  lemma UpdateOutcomeDecodes(d: seq<byte>, index: nat, reference: Reference, r: Result<nat>, d': seq<byte>)
    requires WellFormed(d) && reference.Valid() && reference.Type() == Kind(d) && UpdateOutcome(d, index, reference, r, d')
    ensures WellFormed(d') && (r, Decode(d')) == ApplyUpdateAt(Decode(d), index, reference)
  {
    if index < Total(d) {
      SlotsFit(d);
      assert Offset(Kind(d), index + 1) == Offset(Kind(d), index) + Kind(d).SlotSize() <= |d|;
      BumpedDecodes(d);
      if Slots(d)[index].Some? { UpdatedDecodes(d, index, reference, d'); }
    }
  }

  /** Packs a record over its own slot, with the next counter and the new reference. */
  method StoreUpdate(data: array<byte>, offset: nat, cur: Record, reference: Reference) returns (r: Result<nat>)
    requires offset + reference.Type().SlotSize() <= data.Length && reference.Valid()
    requires data[..][offset + 4..offset + NO_REF_LEN] == Padded(cur.name)
    modifies data
    ensures r == Ok(reference.Type().SlotSize())
    ensures data[..] == Splice(old(data[..]), offset, UpdatedSlot(cur.counter, cur.tag, cur.name, reference))
  {
    var counter := if cur.counter < U16_MAX then cur.counter + 1 else 1;
    OverlayCases(cur.name);
    assert data[offset + 4..offset + NO_REF_LEN] == data[..][offset + 4..offset + NO_REF_LEN];
    r := PackRecord(cur.(counter := counter, reference := reference), data, offset);
  }

  /** Live bytes written over a live slot change that slot only. */
  lemma LiveSlotReplaced(d: seq<byte>, i: nat, b: seq<byte>)
    requires WellFormed(d) && i < Total(d) && Slots(d)[i].Some?
    requires |b| == Kind(d).SlotSize() && CleanSlot(b) && DecodeSlot(Kind(d), b).Some?
    requires Offset(Kind(d), i) + |b| <= |d|
    ensures WellFormed(Splice(d, Offset(Kind(d), i), b))
    ensures Decode(Splice(d, Offset(Kind(d), i), b)) == Decode(d).(slots := Slots(d)[i := DecodeSlot(Kind(d), b)])
  {
    var o := Offset(Kind(d), i);
    assert Offset(Kind(d), i + 1) == o + |b|;
    LiveUpdate(Slots(d), i, DecodeSlot(Kind(d), b));
    SpliceHere(d, o, b);
    SpliceElsewhere(d, o, b, 0, 4);
    SpliceElsewhere(d, o, b, 4, 8);
    SlotRewritten(d, Splice(d, o, b), i, b);
  }

  /** Bytes `p` written over bytes `old`, as far as those reach. */
  ghost function WrittenOver(p: seq<byte>, before: seq<byte>): (b: seq<byte>)
    ensures |b| == |before|
  {
    if |p| <= |before| then p + before[|p|..] else p[..|before|]
  }

  /** The bytes of the reference in slot `i`. */
  ghost function ReferenceBytes(d: seq<byte>, i: nat): (b: seq<byte>)
    requires LaidOut(d) && i < Total(d)
    ensures |b| == Kind(d).Size()
  {
    RawSlot(d, i)[NO_REF_LEN..]
  }

  lemma ReferenceBytesHere(d: seq<byte>, i: nat)
    requires LaidOut(d) && i < Total(d)
    ensures Offset(Kind(d), i) + Kind(d).SlotSize() == Offset(Kind(d), i + 1) <= |d|
    ensures ReferenceBytes(d, i) == d[Offset(Kind(d), i) + NO_REF_LEN..Offset(Kind(d), i) + Kind(d).SlotSize()]
  {
    SlotsFit(d);
    assert Offset(Kind(d), i + 1) == Offset(Kind(d), i) + Kind(d).SlotSize() <= |d|;
    SliceTail(d, Offset(Kind(d), i), NO_REF_LEN, Kind(d).SlotSize());
  }

  /** The entry of slot `i` after an update: same tag and name, next counter, and the reference the new bytes now spell. */
  ghost function UpdatedEntry(d: seq<byte>, i: nat, reference: Reference): (e: Entry)
    requires WellFormed(d) && i < Total(d) && Slots(d)[i].Some? && reference.Valid()
  {
    var e := Slots(d)[i].value;
    e.(counter := NextCounter(e.counter, U16_MAX),
       reference := UnpackReference(Kind(d), WrittenOver(reference.Packed(), ReferenceBytes(d, i))))
  }

  /** The bytes of slot `i` after an update, when the reference fits or is cut off at the slot's end. */
  ghost function SlotAfter(t: ReferenceType, e: Entry, reference: Reference, before: seq<byte>): (b: seq<byte>)
    requires InRange(e) && reference.Valid() && |before| == t.Size()
    ensures |b| == t.SlotSize()
  {
    FixedPart(NextCounter(e.counter, U16_MAX), e.tag, e.name) + WrittenOver(reference.Packed(), before)
  }

  lemma SlotAfterDecodes(t: ReferenceType, e: Entry, reference: Reference, before: seq<byte>)
    requires Representable(e) && reference.Valid() && |before| == t.Size()
    ensures var b := SlotAfter(t, e, reference, before);
            && CleanSlot(b)
            && DecodeSlot(t, b) == Some(e.(counter := NextCounter(e.counter, U16_MAX),
                                           reference := UnpackReference(t, WrittenOver(reference.Packed(), before))))
  {
    var b, written := SlotAfter(t, e, reference, before), WrittenOver(reference.Packed(), before);
    assert b[0..2] == LeBytes(NextCounter(e.counter, U16_MAX), 2);
    assert b[2..4] == LeBytes(e.tag, 2);
    assert b[4..NO_REF_LEN] == Padded(e.name);
    assert b[NO_REF_LEN..] == written;
    Pow256Values();
    LeNatOfBytes(NextCounter(e.counter, U16_MAX), 2);
    LeNatOfBytes(e.tag, 2);
    UnpackPadded(e.name);
  }

  /** Writing the updated bytes is writing the whole slot, and then whatever does not fit behind it. */
  lemma UpdatedSplice(d: seq<byte>, o: nat, t: ReferenceType, e: Entry, reference: Reference, before: seq<byte>)
    requires InRange(e) && reference.Valid() && HEADER_LEN <= o
    requires o + t.SlotSize() <= |d| && o + reference.Type().SlotSize() <= |d|
    requires before == d[o + NO_REF_LEN..o + t.SlotSize()]
    ensures reference.Type().Size() <= t.Size() ==>
              Splice(Bumped(d), o, UpdatedSlot(e.counter, e.tag, e.name, reference))
              == Splice(Bumped(d), o, SlotAfter(t, e, reference, before))
    ensures reference.Type().Size() > t.Size() ==>
              Splice(Bumped(d), o, UpdatedSlot(e.counter, e.tag, e.name, reference))
              == Splice(Splice(Bumped(d), o, SlotAfter(t, e, reference, before)), o + t.SlotSize(), reference.Packed()[t.Size()..])
  {
    var fixed, p := FixedPart(NextCounter(e.counter, U16_MAX), e.tag, e.name), reference.Packed();
    SpliceElsewhere(d, 0, LeBytes(NextCounter(LeNat(d[0..4]), U32_MAX), 4), o + NO_REF_LEN, o + t.SlotSize());
    if reference.Type().Size() <= t.Size() {
      SpliceFitting(Bumped(d), o, fixed, p, before);
    } else {
      SpliceCut(Bumped(d), o, fixed, p, t.Size());
    }
  }

  /** Writing less than is there keeps the rest. */
  lemma SpliceFitting(d: seq<byte>, o: nat, fixed: seq<byte>, p: seq<byte>, before: seq<byte>)
    requires |p| <= |before| && o + |fixed| + |before| <= |d| && before == d[o + |fixed|..o + |fixed| + |before|]
    ensures Splice(d, o, fixed + p) == Splice(d, o, fixed + WrittenOver(p, before))
  {
    var hi := o + |fixed| + |before|;
    assert before[|p|..] == d[o + |fixed + p|..hi];
    assert fixed + WrittenOver(p, before) == (fixed + p) + d[o + |fixed + p|..hi];
    SplicePadded(d, o, fixed + p, hi);
  }

  /** Writing more than fits writes the rest behind. */
  lemma SpliceCut(d: seq<byte>, o: nat, fixed: seq<byte>, p: seq<byte>, n: nat)
    requires n < |p| && o + |fixed| + |p| <= |d|
    ensures Splice(d, o, fixed + p) == Splice(Splice(d, o, fixed + p[..n]), o + |fixed| + n, p[n..])
  {
    assert fixed + p == (fixed + p[..n]) + p[n..];
    SpliceAdjacent(d, o, fixed + p[..n], p[n..]);
  }

  ghost function BytesAfter(d: seq<byte>, i: nat, reference: Reference): (b: seq<byte>)
    requires WellFormed(d) && i < Total(d) && Slots(d)[i].Some? && InRange(Slots(d)[i].value) && reference.Valid()
    ensures |b| == Kind(d).SlotSize()
  {
    SlotAfter(Kind(d), Slots(d)[i].value, reference, ReferenceBytes(d, i))
  }

  /** The buffer with slot `i` updated and nothing written past it. */
  ghost function UpdatedWhole(d: seq<byte>, i: nat, reference: Reference): (d': seq<byte>)
    requires WellFormed(d) && i < Total(d) && Slots(d)[i].Some? && InRange(Slots(d)[i].value) && reference.Valid()
    requires Offset(Kind(d), i) + Kind(d).SlotSize() <= |d|
  {
    Splice(Bumped(d), Offset(Kind(d), i), BytesAfter(d, i, reference))
  }

  lemma UpdatedWholeDecodes(d: seq<byte>, i: nat, reference: Reference)
    requires WellFormed(d) && i < Total(d) && Slots(d)[i].Some? && reference.Valid()
    ensures Representable(Slots(d)[i].value) && Offset(Kind(d), i) + Kind(d).SlotSize() <= |d|
    ensures WellFormed(UpdatedWhole(d, i, reference))
    ensures Decode(UpdatedWhole(d, i, reference)) == Decode(d).(counter := NextCounter(LeNat(d[0..4]), U32_MAX),
                                                                slots := Slots(d)[i := Some(UpdatedEntry(d, i, reference))])
  {
    SlotFields(d, i);
    ReferenceBytesHere(d, i);
    SlotAfterDecodes(Kind(d), Slots(d)[i].value, reference, ReferenceBytes(d, i));
    BumpedDecodes(d);
    LiveSlotReplaced(Bumped(d), i, BytesAfter(d, i, reference));
  }

  lemma UpdateStepCases(d: seq<byte>, i: nat, reference: Reference, d': seq<byte>)
    requires WellFormed(d) && reference.Valid() && UpdateStep(d, i, reference, d')
    ensures Offset(Kind(d), i + 1) == Offset(Kind(d), i) + Kind(d).SlotSize() <= |d|
    ensures reference.Type().Size() <= Kind(d).Size() ==> d' == UpdatedWhole(d, i, reference)
    ensures reference.Type().Size() > Kind(d).Size() ==>
              d' == Splice(UpdatedWhole(d, i, reference), Offset(Kind(d), i + 1), reference.Packed()[Kind(d).Size()..])
  {
    ReferenceBytesHere(d, i);
    UpdatedSplice(d, Offset(Kind(d), i), Kind(d), Slots(d)[i].value, reference, ReferenceBytes(d, i));
  }

  /** An update with the storage's own reference type stores that reference. */
  lemma UpdatedDecodes(d: seq<byte>, i: nat, reference: Reference, d': seq<byte>)
    requires WellFormed(d) && reference.Valid() && reference.Type() == Kind(d) && UpdateStep(d, i, reference, d')
    ensures WellFormed(d') && Decode(d') == ApplyUpdateAt(Decode(d), i, reference).1
  {
    UpdateStepCases(d, i, reference, d');
    UpdatedWholeDecodes(d, i, reference);
    assert WrittenOver(reference.Packed(), ReferenceBytes(d, i)) == reference.Packed();
    ReferenceRoundTrip(reference);
  }

  method Update(data: array<byte>, name: ArrayString64, reference: Reference) returns (r: Result<nat>)
    requires WellFormed(data[..]) && reference.Valid()
    modifies data
    ensures r.Err? ==> data[..] == old(data[..])
    ensures var d := old(data[..]);
            var found := FindName(Slots(d), name);
            if found.None? then r == Err(Custom(404)) else UpdateOutcome(d, found.value, reference, r, data[..])
    ensures reference.Type() == Kind(old(data[..])) ==>
              WellFormed(data[..]) && (r, Decode(data[..])) == ApplyUpdate(Decode(old(data[..])), name, reference)
  {
    FindNameSpec(Slots(data[..]), name);
    var index := FindIndex(data, name);
    if index.value.Some? {
      r := UpdateAt(data, index.value.value, reference);
    } else {
      r := Err(Custom(404));
    }
  }

  // ----- bytes written past a slot -----

  /** Header counters and slot `i` can be rewritten without touching a later slot. */
  lemma RawAfter(d: seq<byte>, header: seq<byte>, i: nat, b: seq<byte>, j: nat)
    requires LaidOut(d) && |header| <= 8 && i < j < Total(d) && |b| <= Kind(d).SlotSize() && Offset(Kind(d), i) + |b| <= |d|
    ensures var d' := Splice(Splice(d, 0, header), Offset(Kind(d), i), b);
            LaidOut(d') && Kind(d') == Kind(d) && Total(d') == Total(d) && RawSlot(d', j) == RawSlot(d, j)
  {
    SlotsFit(d);
    OffsetMonotone(Kind(d), i + 1, j);
    assert Offset(Kind(d), i + 1) == Offset(Kind(d), i) + Kind(d).SlotSize();
    var h, o := Splice(d, 0, header), Offset(Kind(d), i);
    SpliceElsewhere(d, 0, header, Offset(Kind(d), j), Offset(Kind(d), j + 1));
    SpliceElsewhere(h, o, b, Offset(Kind(d), j), Offset(Kind(d), j + 1));
  }

  /** Bytes written over the start of this slot would not show: on a free slot only tag bytes may differ from zero. */
  predicate Unnoticed(raw: seq<byte>, extra: seq<byte>)
    requires NO_REF_LEN <= |raw| && |extra| <= NO_REF_LEN
  {
    if LeNat(raw[0..2]) == 0 then forall k :: 0 <= k < |extra| && k != 2 && k != 3 ==> extra[k] == 0
    else extra <= raw
  }

  lemma HeadOverwritten(t: ReferenceType, raw: seq<byte>, extra: seq<byte>)
    requires |raw| == t.SlotSize() && CleanSlot(raw) && |extra| <= NO_REF_LEN
    ensures var raw' := extra + raw[|extra|..];
            CleanSlot(raw') && DecodeSlot(t, raw') == DecodeSlot(t, raw) <==> Unnoticed(raw, extra)
  {
    if LeNat(raw[0..2]) == 0 { FreeHeadOverwritten(t, raw, extra); } else { LiveHeadOverwritten(t, raw, extra); }
  }

  lemma FreeHeadOverwritten(t: ReferenceType, raw: seq<byte>, extra: seq<byte>)
    requires |raw| == t.SlotSize() && CleanSlot(raw) && |extra| <= NO_REF_LEN && LeNat(raw[0..2]) == 0
    ensures var raw' := extra + raw[|extra|..];
            CleanSlot(raw') && DecodeSlot(t, raw') == DecodeSlot(t, raw) <==> Unnoticed(raw, extra)
  {
    var raw' := extra + raw[|extra|..];
    LeNatOfTwo(raw[0..2]);
    LeNatOfTwo(raw'[0..2]);
    UnpackPadded([]);
    var field, field' := raw[4..NO_REF_LEN], raw'[4..NO_REF_LEN];
    assert field == Padded([]);
    if Unnoticed(raw, extra) {
      forall k | 0 <= k < NAME_LEN ensures field'[k] == Padded([])[k] {
        assert field[k] == raw[k + 4] == 0;
      }
      assert field' == Padded([]);
    } else if LeNat(raw'[0..2]) == 0 {
      var k :| 0 <= k < |extra| && k != 2 && k != 3 && extra[k] != 0;
      assert k >= 4;
      assert field'[k - 4] != Padded([])[k - 4];
    }
  }

  lemma LiveHeadOverwritten(t: ReferenceType, raw: seq<byte>, extra: seq<byte>)
    requires |raw| == t.SlotSize() && CleanSlot(raw) && |extra| <= NO_REF_LEN && LeNat(raw[0..2]) > 0
    ensures var raw' := extra + raw[|extra|..];
            CleanSlot(raw') && DecodeSlot(t, raw') == DecodeSlot(t, raw) <==> extra <= raw
  {
    var raw' := extra + raw[|extra|..];
    if extra <= raw {
      assert raw' == raw;
    }
    if CleanSlot(raw') && DecodeSlot(t, raw') == DecodeSlot(t, raw) {
      LiveHeadsEqual(t, raw, raw');
      assert extra == raw'[..|extra|] == raw[..|extra|];
    }
  }

  /** Clean live slots that decode alike agree on every byte of their fixed part. */
  lemma LiveHeadsEqual(t: ReferenceType, raw: seq<byte>, raw': seq<byte>)
    requires |raw| == |raw'| == t.SlotSize() && CleanSlot(raw) && CleanSlot(raw') && LeNat(raw[0..2]) > 0
    requires DecodeSlot(t, raw') == DecodeSlot(t, raw)
    ensures forall k :: 0 <= k < NO_REF_LEN ==> raw'[k] == raw[k]
  {
    LeBytesOfNat(raw[0..2]); LeBytesOfNat(raw'[0..2]);
    LeBytesOfNat(raw[2..4]); LeBytesOfNat(raw'[2..4]);
    assert raw'[0..2] == raw[0..2] && raw'[2..4] == raw[2..4] && raw'[4..NO_REF_LEN] == raw[4..NO_REF_LEN];
    forall k | 0 <= k < NO_REF_LEN ensures raw'[k] == raw[k] {
      if k < 2 { assert raw'[0..2][k] == raw[0..2][k]; }
      else if k < 4 { assert raw'[2..4][k - 2] == raw[2..4][k - 2]; }
      else { assert raw'[4..NO_REF_LEN][k - 4] == raw[4..NO_REF_LEN][k - 4]; }
    }
  }

  /** Bytes written over the start of slot `i` show in the slots, or break them, unless they are unnoticed. */
  lemma NextOverwritten(d: seq<byte>, d': seq<byte>, i: nat, extra: seq<byte>)
    requires WellFormed(d) && i < Total(d) && |extra| <= NO_REF_LEN && Offset(Kind(d), i) + |extra| <= |d|
    requires d' == Splice(d, Offset(Kind(d), i), extra)
    ensures WellFormed(d') && Slots(d') == Slots(d) <==> Unnoticed(RawSlot(d, i), extra)
  {
    SlotsFit(d);
    assert Offset(Kind(d), i + 1) == Offset(Kind(d), i) + Kind(d).SlotSize() <= |d|;
    assert d'[0..4] == d[0..4] && d'[4..8] == d[4..8];
    SlotReplaced(d, d', i);
    var raw, raw' := RawSlot(d, i), RawSlot(d', i);
    SlotAt(d, i);
    SpliceThrough(d, Offset(Kind(d), i), extra, Offset(Kind(d), i + 1));
    HeadOverwritten(Kind(d), raw, extra);
    assert Slots(d') == Slots(d) <==> DecodeSlot(Kind(d), raw') == DecodeSlot(Kind(d), raw);
  }

  /** Bytes behind the last slot do not matter. */
  lemma TailOverwritten(d: seq<byte>, d': seq<byte>)
    requires WellFormed(d) && |d'| == |d|
    requires forall k :: 0 <= k < Offset(Kind(d), Total(d)) && k < |d| ==> d'[k] == d[k]
    ensures WellFormed(d') && Slots(d') == Slots(d)
  {
    SlotsFit(d);
    assert d'[0..4] == d[0..4] && d'[4..8] == d[4..8];
    forall j | 0 <= j < Total(d) ensures RawSlot(d', j) == RawSlot(d, j) {
      OffsetMonotone(Kind(d), j, Total(d));
    }
    forall j | 0 <= j < Total(d) ensures Slots(d')[j] == Slots(d)[j] {
      SlotAt(d, j);
      SlotAt(d', j);
    }
    assert Slots(d') == Slots(d);
  }

  /** Bytes written past slot `i` change nothing exactly when there is no next slot or they go unnoticed there. */
  lemma PastOverwritten(d: seq<byte>, d': seq<byte>, i: nat, extra: seq<byte>)
    requires WellFormed(d) && i < Total(d) && |extra| <= NO_REF_LEN && Offset(Kind(d), i + 1) + |extra| <= |d|
    requires d' == Splice(d, Offset(Kind(d), i + 1), extra)
    ensures WellFormed(d') && Slots(d') == Slots(d) <==> i + 1 == Total(d) || Unnoticed(RawSlot(d, i + 1), extra)
  {
    if i + 1 == Total(d) { TailOverwritten(d, d'); } else { NextOverwritten(d, d', i + 1, extra); }
  }

  /** The update left a well-formed storage in which slot `i` holds the updated entry and every other slot is as before. */
  ghost predicate UpdatesOnly(d: seq<byte>, i: nat, reference: Reference, d': seq<byte>)
    requires WellFormed(d) && i < Total(d) && Slots(d)[i].Some? && reference.Valid()
  {
    WellFormed(d') && Slots(d') == Slots(d)[i := Some(UpdatedEntry(d, i, reference))]
  }

  lemma UpdatedKeepsNext(d: seq<byte>, i: nat, reference: Reference)
    requires WellFormed(d) && i + 1 < Total(d) && Slots(d)[i].Some? && InRange(Slots(d)[i].value) && reference.Valid()
    requires Offset(Kind(d), i) + Kind(d).SlotSize() <= |d|
    ensures var d' := UpdatedWhole(d, i, reference);
            LaidOut(d') && Kind(d') == Kind(d) && Total(d') == Total(d) && RawSlot(d', i + 1) == RawSlot(d, i + 1)
  {
    BumpedKeepsNext(d, i, BytesAfter(d, i, reference));
  }

  lemma BumpedKeepsNext(d: seq<byte>, i: nat, b: seq<byte>)
    requires LaidOut(d) && i + 1 < Total(d) && |b| <= Kind(d).SlotSize() && Offset(Kind(d), i) + |b| <= |d|
    ensures var d' := Splice(Bumped(d), Offset(Kind(d), i), b);
            LaidOut(d') && Kind(d') == Kind(d) && Total(d') == Total(d) && RawSlot(d', i + 1) == RawSlot(d, i + 1)
  {
    RawAfter(d, LeBytes(NextCounter(LeNat(d[0..4]), U32_MAX), 4), i, b, i + 1);
  }

  /** Exactly when updating is local, for a reference of any type: what does not fit must not show in the next slot. */
  lemma UpdateIsLocal(d: seq<byte>, i: nat, reference: Reference, d': seq<byte>)
    requires WellFormed(d) && reference.Valid() && UpdateStep(d, i, reference, d')
    ensures UpdatesOnly(d, i, reference, d')
            <==> || reference.Type().Size() <= Kind(d).Size()
                 || i + 1 == Total(d)
                 || Unnoticed(RawSlot(d, i + 1), reference.Packed()[Kind(d).Size()..])
  {
    UpdateStepCases(d, i, reference, d');
    UpdatedWholeDecodes(d, i, reference);
    if reference.Type().Size() > Kind(d).Size() {
      if i + 1 < Total(d) { UpdatedKeepsNext(d, i, reference); }
      PastOverwritten(UpdatedWhole(d, i, reference), d', i, reference.Packed()[Kind(d).Size()..]);
    }
  }

  // ----- deletes -----

  /** The buffer after `size` bytes from slot `i` on are erased and the counters moved. */
  ghost function Erased(d: seq<byte>, i: nat, size: nat): (d': seq<byte>)
    requires WellFormed(d) && i < Total(d) && Offset(Kind(d), i) + size <= |d| && LeNat(d[4..8]) > 0
  {
    Stored(d, NextCounter(LeNat(d[0..4]), U32_MAX), LeNat(d[4..8]) - 1, Offset(Kind(d), i), Zeros(size))
  }

  /** The active count after a delete. */
  function ActiveAfterDelete(active: nat): (n: nat)
  {
    if active > 0 then active - 1 else active
  }

  /** What `delete` finds before it changes anything: an error, or the offset and whether the slot is live. */
  ghost function DeleteChecks(d: seq<byte>, place: Result<nat>, record: Record): (r: Result<(nat, bool)>)
    requires place.Ok? ==> place.value <= |d|
    ensures r.Ok? ==> place == Ok(r.value.0) && r.value.0 + record.Size() <= |d|
    ensures r.Ok? && r.value.1 ==> HEADER_LEN <= |d| && LeNat(d[0..4]) >= 1
  {
    var offset :- place;
    var _ :- CheckDataLen(|d|, offset + record.Size());
    var (stored, name) :- GetRecordCounterAndName(d, offset);
    if stored == 0 then Ok((offset, false))
    else if record.counter > 0 && stored != record.counter then Err(Custom(409))
    else if record.name != name then Err(Custom(409))
    else
      var _ :- GetStorageCounter(d);
      Ok((offset, true))
  }

  /** What `delete` returns and leaves, on any bytes. */
  ghost predicate DeleteOutcome(d: seq<byte>, place: Result<nat>, record: Record, r: Result<nat>, d': seq<byte>)
    requires place.Ok? ==> HEADER_LEN <= place.value <= |d|
  {
    match DeleteChecks(d, place, record)
    case Err(error) => r == Err(error) && d' == d
    case Ok((offset, live)) =>
      if !live then r == Ok(0) && d' == d
      else r == Ok(record.Size())
           && d' == Stored(d, NextCounter(LeNat(d[0..4]), U32_MAX), ActiveAfterDelete(LeNat(d[4..8])), offset, Zeros(record.Size()))
  }

  /** What `delete` returns on a well-formed storage, for a record of any size. */
  ghost function DeleteResult(d: seq<byte>, record: Record): (r: Result<nat>)
    requires WellFormed(d)
  {
    var i := Target(Slots(d), record.index, record.name);
    if i >= Total(d) || |d| < Offset(Kind(d), i) + record.Size() then Err(AccountDataTooSmall)
    else if Slots(d)[i].None? then Ok(0)
    else if record.counter > 0 && Slots(d)[i].value.counter != record.counter then Err(Custom(409))
    else if record.name != Slots(d)[i].value.name then Err(Custom(409))
    else Ok(record.Size())
  }

  method Delete(data: array<byte>, record: Record) returns (r: Result<nat>)
    requires WellFormed(data[..]) || record.index.Some? || NothingToScan(data[..])
    modifies data
    ensures PlaceInside(old(data[..]), record)
    ensures DeleteOutcome(old(data[..]), Place(old(data[..]), record.index, record.name), record, r, data[..])
    ensures WellFormed(old(data[..])) ==> DeleteMeaning(old(data[..]), record, r, data[..])
  {
    ghost var d := data[..];
    r := DeleteBytes(data, record);
    if WellFormed(d) { DeleteMeans(d, record, r, data[..]); }
  }

  /** On a well-formed storage: the result for a record of any size, the bytes left, and the delete rule when the record fits its slot. */
  ghost predicate DeleteMeaning(d: seq<byte>, record: Record, r: Result<nat>, d': seq<byte>)
    requires WellFormed(d)
  {
    && r == DeleteResult(d, record)
    && (r.Err? || r.value == 0 ==> d' == d)
    && (r.Ok? && r.value > 0 ==> EraseStep(d, Target(Slots(d), record.index, record.name), record.Size(), d'))
    && (record.Size() <= Kind(d).SlotSize() ==> WellFormed(d') && (r, Decode(d')) == ApplyDelete(Decode(d), record))
  }

  /** The body of `delete`. */
  method DeleteBytes(data: array<byte>, record: Record) returns (r: Result<nat>)
    requires WellFormed(data[..]) || record.index.Some? || NothingToScan(data[..])
    modifies data
    ensures PlaceInside(old(data[..]), record)
    ensures DeleteOutcome(old(data[..]), Place(old(data[..]), record.index, record.name), record, r, data[..])
  {
    var offset :- Locate(data, record.index, record.name);
    var dataEnd := offset + record.Size();
    var _ :- CheckDataLen(data.Length, dataEnd);
    var head :- GetRecordCounterAndName(data[..], offset);
    var (storedCounter, storedName) := head;
    if storedCounter == 0 {
      return Ok(0);
    }
    if record.counter > 0 && storedCounter != record.counter {
      return Err(Custom(409));
    }
    if record.name != storedName {
      return Err(Custom(409));
    }
    var _ :- GetStorageCounter(data[..]);
    CountDelete(data);
    EraseBytes(data, offset, record.Size());
    return Ok(record.Size());
  }

  lemma DeleteMeans(d: seq<byte>, record: Record, r: Result<nat>, d': seq<byte>)
    requires WellFormed(d) && PlaceInside(d, record)
    requires DeleteOutcome(d, Place(d, record.index, record.name), record, r, d')
    ensures DeleteMeaning(d, record, r, d')
  {
    var i := Target(Slots(d), record.index, record.name);
    PlaceIs(d, record.index, record.name);
    SlotsFit(d);
    HeaderValues(d);
    if i <= Total(d) { ReadHead(d, i); }
    if i < Total(d) {
      assert Offset(Kind(d), i + 1) == Offset(Kind(d), i) + Kind(d).SlotSize() <= |d|;
      if Slots(d)[i].Some? {
        LiveIsCounted(d, i);
        if record.Size() <= Kind(d).SlotSize() { ErasedDecodes(d, i, record.Size()); }
      }
    }
  }

  /** A storage with a live slot counts at least one record. */
  lemma LiveIsCounted(d: seq<byte>, i: nat)
    requires WellFormed(d) && i < Total(d) && Slots(d)[i].Some?
    ensures LeNat(d[4..8]) > 0
  {
    LiveUpdate(Slots(d), i, None);
  }

  /** A live slot was there, and it was erased. */
  ghost predicate EraseStep(d: seq<byte>, i: nat, size: nat, d': seq<byte>)
    requires WellFormed(d)
  {
    i < Total(d) && Slots(d)[i].Some? && LeNat(d[4..8]) > 0 && Offset(Kind(d), i) + size <= |d| && d' == Erased(d, i, size)
  }

  method CountDelete(data: array<byte>)
    requires HEADER_LEN <= data.Length && LeNat(data[..][0..4]) >= 1
    modifies data
    ensures var d := old(data[..]);
            data[..] == Counted(d, NextCounter(LeNat(d[0..4]), U32_MAX), ActiveAfterDelete(LeNat(d[4..8])))
  {
    CounterThenActive(data[..], NextCounter(LeNat(data[..][0..4]), U32_MAX), ActiveAfterDelete(LeNat(data[..][4..8])));
    CounterOnly(data[..], NextCounter(LeNat(data[..][0..4]), U32_MAX));
    BumpStorageCounter(data);
    var activeRecords := GetActiveRecords(data[..]).value;
    if activeRecords > 0 {
      var _ := SetActiveRecords(data, activeRecords - 1);
    }
  }

  /** Storing the update counter and then the active count stores both. */
  lemma CounterThenActive(d: seq<byte>, counter: nat, active: nat)
    requires HEADER_LEN <= |d|
    ensures Splice(d, 0, LeBytes(counter, 4))[4..8] == d[4..8]
    ensures Splice(Splice(d, 0, LeBytes(counter, 4)), 4, LeBytes(active, 4)) == Counted(d, counter, active)
  {
    SpliceElsewhere(d, 0, LeBytes(counter, 4), 4, 8);
    SpliceAdjacent(d, 0, LeBytes(counter, 4), LeBytes(active, 4));
  }

  method EraseBytes(data: array<byte>, offset: nat, size: nat)
    requires offset + size <= data.Length
    modifies data
    ensures data[..] == Splice(old(data[..]), offset, Zeros(size))
  {
    forall k | offset <= k < offset + size {
      data[k] := 0;
    }
  }

  /** The bytes of a slot with the first `size` erased. */
  ghost function PartErased(raw: seq<byte>, size: nat): (b: seq<byte>)
    requires size <= |raw|
    ensures |b| == |raw|
  {
    Zeros(size) + raw[size..]
  }

  /** Erasing part of a slot leaves the rest of its bytes. */
  lemma ErasedBytes(d: seq<byte>, i: nat, size: nat)
    requires WellFormed(d) && i < Total(d) && size <= Kind(d).SlotSize() && LeNat(d[4..8]) > 0
    ensures Offset(Kind(d), i) + Kind(d).SlotSize() <= |d|
    ensures Erased(d, i, size) == Stored(d, NextCounter(LeNat(d[0..4]), U32_MAX), LeNat(d[4..8]) - 1, Offset(Kind(d), i),
                                         PartErased(RawSlot(d, i), size))
  {
    SlotsFit(d);
    var o, n := Offset(Kind(d), i), Kind(d).SlotSize();
    assert Offset(Kind(d), i + 1) == o + n <= |d|;
    ErasedSplice(d, LeBytes(NextCounter(LeNat(d[0..4]), U32_MAX), 4) + LeBytes(LeNat(d[4..8]) - 1, 4), o, size, n);
  }

  lemma ErasedSplice(d: seq<byte>, header: seq<byte>, o: nat, size: nat, n: nat)
    requires |header| <= o && size <= n && o + n <= |d|
    ensures Splice(Splice(d, 0, header), o, Zeros(size)) == Splice(Splice(d, 0, header), o, PartErased(d[o..o + n], size))
  {
    SpliceElsewhere(d, 0, header, o + size, o + n);
    assert d[o..o + n][size..] == d[o + size..o + n];
    SplicePadded(Splice(d, 0, header), o, Zeros(size), o + n);
  }

  /** Erasing no more than the slot frees that slot and touches no other. */
  lemma ErasedDecodes(d: seq<byte>, i: nat, size: nat)
    requires WellFormed(d) && i < Total(d) && Slots(d)[i].Some?
    requires NO_REF_LEN <= size <= Kind(d).SlotSize()
    ensures LeNat(d[4..8]) > 0 && Offset(Kind(d), i) + size <= |d|
    ensures WellFormed(Erased(d, i, size))
    ensures Decode(Erased(d, i, size)) == Decode(d).(
                                          counter := NextCounter(LeNat(d[0..4]), U32_MAX), slots := Slots(d)[i := None])
  {
    LiveUpdate(Slots(d), i, None);
    ErasedBytes(d, i, size);
    PartErasedSlot(Kind(d), RawSlot(d, i), size);
    CountersFit(d);
    StoredDecodes(d, NextCounter(LeNat(d[0..4]), U32_MAX), LeNat(d[4..8]) - 1, i, PartErased(RawSlot(d, i), size));
  }

  lemma CountersFit(d: seq<byte>)
    requires HEADER_LEN <= |d|
    ensures LeNat(d[0..4]) <= U32_MAX && LeNat(d[4..8]) <= U32_MAX
  {
    LeBytesOfNat(d[0..4]); LeBytesOfNat(d[4..8]); Pow256Values();
  }

  lemma PartErasedSlot(t: ReferenceType, raw: seq<byte>, size: nat)
    requires |raw| == t.SlotSize() && NO_REF_LEN <= size <= |raw|
    ensures CleanSlot(PartErased(raw, size)) && DecodeSlot(t, PartErased(raw, size)) == None
  {
    var b := PartErased(raw, size);
    assert b[..NO_REF_LEN] == Zeros(NO_REF_LEN);
    ErasedSlot(t, b);
  }

  method DeleteWithName(data: array<byte>, name: ArrayString64) returns (r: Result<nat>)
    requires WellFormed(data[..])
    modifies data
    ensures WellFormed(data[..])
    ensures r.Err? ==> data[..] == old(data[..])
    ensures (r, Decode(data[..])) == ApplyDelete(Decode(old(data[..])), Record(None, 0, 0, name, Empty))
  {
    r := Delete(data, Record(None, 0, 0, name, Empty));
  }

  /** The erasure left a well-formed storage in which slot `i` is free and every other slot is as before. */
  ghost predicate FreesOnly(d: seq<byte>, i: nat, d': seq<byte>)
    requires WellFormed(d) && i < Total(d)
  {
    WellFormed(d') && Slots(d') == Slots(d)[i := None]
  }

  /** Erasing `k` bytes of this slot would not show: it is free, or only the zero low byte of its counter is erased. */
  ghost predicate Unaffected(slot: Option<Entry>, k: nat)
  {
    slot.None? || k == 0 || (k == 1 && slot.value.counter % 0x100 == 0)
  }

  /** Exactly when deleting is local, for a record type of any size: it must not reach into a live next slot. */
  lemma ErasureIsLocal(d: seq<byte>, i: nat, size: nat)
    requires WellFormed(d) && i < Total(d) && Slots(d)[i].Some?
    requires NO_REF_LEN <= size <= MAX_RECORD_LEN && Offset(Kind(d), i) + size <= |d|
    ensures LeNat(d[4..8]) > 0
    ensures FreesOnly(d, i, Erased(d, i, size))
            <==> size <= Kind(d).SlotSize() || i + 1 == Total(d) || Unaffected(Slots(d)[i + 1], size - Kind(d).SlotSize())
  {
    LiveUpdate(Slots(d), i, None);
    if size <= Kind(d).SlotSize() {
      ErasedDecodes(d, i, size);
    } else {
      ErasedTooMuch(d, i, size);
    }
  }

  lemma ErasedTooMuch(d: seq<byte>, i: nat, size: nat)
    requires WellFormed(d) && i < Total(d) && Slots(d)[i].Some?
    requires Kind(d).SlotSize() < size <= MAX_RECORD_LEN && Offset(Kind(d), i) + size <= |d|
    ensures LeNat(d[4..8]) > 0
    ensures FreesOnly(d, i, Erased(d, i, size))
            <==> i + 1 == Total(d) || Unaffected(Slots(d)[i + 1], size - Kind(d).SlotSize())
  {
    var slot := Kind(d).SlotSize();
    LiveUpdate(Slots(d), i, None);
    ErasedDecodes(d, i, slot);
    var d1, d2 := Erased(d, i, slot), Erased(d, i, size);
    ErasedInTwo(d, i, size);
    PastOverwritten(d1, d2, i, Zeros(size - slot));
    if i + 1 < Total(d) {
      ErasedKeepsNext(d, i);
      SlotAt(d, i + 1);
      ZerosUnnoticed(Kind(d), RawSlot(d, i + 1), size - slot);
    }
  }

  /** What an erasure that reaches two bytes or more into a live next slot does: that record is lost too, and still counted. */
  lemma OversizedErasure(d: seq<byte>, i: nat, size: nat)
    requires WellFormed(d) && i + 1 < Total(d) && Slots(d)[i].Some? && Slots(d)[i + 1].Some?
    requires Kind(d).SlotSize() + 2 <= size <= MAX_RECORD_LEN && Offset(Kind(d), i) + size <= |d|
    ensures LeNat(d[4..8]) > 0
    ensures var d' := Erased(d, i, size);
            && LaidOut(d') && Slots(d') == Slots(d)[i := None][i + 1 := None]
            && LeNat(d'[4..8]) == Live(Slots(d')) + 1
  {
    var slot := Kind(d).SlotSize();
    LiveUpdate(Slots(d), i, None);
    LiveUpdate(Slots(d)[i := None], i + 1, None);
    ErasedDecodes(d, i, slot);
    ErasedInTwo(d, i, size);
    StartZeroed(Erased(d, i, slot), i + 1, size - slot);
  }

  lemma StartZeroed(d: seq<byte>, i: nat, k: nat)
    requires LaidOut(d) && i < Total(d) && 2 <= k <= NO_REF_LEN && Offset(Kind(d), i) + k <= |d|
    ensures var d' := Splice(d, Offset(Kind(d), i), Zeros(k));
            LaidOut(d') && Slots(d') == Slots(d)[i := None] && d'[4..8] == d[4..8]
  {
    var d' := Splice(d, Offset(Kind(d), i), Zeros(k));
    SlotsFit(d);
    assert Offset(Kind(d), i + 1) == Offset(Kind(d), i) + Kind(d).SlotSize() <= |d|;
    SpliceElsewhere(d, Offset(Kind(d), i), Zeros(k), 4, 8);
    SlotReplaced(d, d', i);
    SpliceThrough(d, Offset(Kind(d), i), Zeros(k), Offset(Kind(d), i + 1));
    var raw := RawSlot(d', i);
    assert raw[0..2] == Zeros(2);
    LeNatZeros(2);
  }

  lemma ErasedKeepsNext(d: seq<byte>, i: nat)
    requires WellFormed(d) && i + 1 < Total(d) && LeNat(d[4..8]) > 0
    ensures Offset(Kind(d), i) + Kind(d).SlotSize() <= |d|
    ensures var d' := Erased(d, i, Kind(d).SlotSize());
            LaidOut(d') && Kind(d') == Kind(d) && Total(d') == Total(d) && RawSlot(d', i + 1) == RawSlot(d, i + 1)
  {
    SlotsFit(d);
    assert Offset(Kind(d), i + 1) == Offset(Kind(d), i) + Kind(d).SlotSize() <= |d|;
    StoredKeepsNext(d, NextCounter(LeNat(d[0..4]), U32_MAX), LeNat(d[4..8]) - 1, i, Zeros(Kind(d).SlotSize()));
  }

  lemma StoredKeepsNext(d: seq<byte>, counter: nat, active: nat, i: nat, b: seq<byte>)
    requires LaidOut(d) && i + 1 < Total(d) && |b| <= Kind(d).SlotSize() && Offset(Kind(d), i) + |b| <= |d|
    ensures var d' := Stored(d, counter, active, Offset(Kind(d), i), b);
            LaidOut(d') && Kind(d') == Kind(d) && Total(d') == Total(d) && RawSlot(d', i + 1) == RawSlot(d, i + 1)
  {
    RawAfter(d, LeBytes(counter, 4) + LeBytes(active, 4), i, b, i + 1);
  }

  /** Erasing more than the slot is erasing the slot and then the start of what follows. */
  lemma ErasedInTwo(d: seq<byte>, i: nat, size: nat)
    requires WellFormed(d) && i < Total(d) && LeNat(d[4..8]) > 0
    requires Kind(d).SlotSize() < size && Offset(Kind(d), i) + size <= |d|
    ensures Offset(Kind(d), i + 1) + (size - Kind(d).SlotSize()) <= |d|
    ensures Erased(d, i, size) == Splice(Erased(d, i, Kind(d).SlotSize()), Offset(Kind(d), i + 1), Zeros(size - Kind(d).SlotSize()))
  {
    var o, slot := Offset(Kind(d), i), Kind(d).SlotSize();
    var h := Counted(d, NextCounter(LeNat(d[0..4]), U32_MAX), LeNat(d[4..8]) - 1);
    assert Zeros(size) == Zeros(slot) + Zeros(size - slot);
    SpliceAdjacent(h, o, Zeros(slot), Zeros(size - slot));
    assert Offset(Kind(d), i + 1) == o + slot;
  }

  /** Zeros go unnoticed on a slot just when it is unaffected by erasing. */
  lemma ZerosUnnoticed(t: ReferenceType, raw: seq<byte>, k: nat)
    requires |raw| == t.SlotSize() && k <= NO_REF_LEN
    ensures Unnoticed(raw, Zeros(k)) <==> Unaffected(DecodeSlot(t, raw), k)
  {
    LeNatOfTwo(raw[0..2]);
    if k >= 2 && Zeros(k) <= raw {
      assert raw[0] == Zeros(k)[0] && raw[1] == Zeros(k)[1];
    }
  }

  // ----- init and drop -----

  /** The buffer after the header is packed; the tail of the name field keeps its old bytes. */
  ghost function InitBytes(d: seq<byte>, name: seq<byte>, t: ReferenceType): (d': seq<byte>)
    requires HEADER_LEN <= |d| && |name| <= NAME_LEN
  {
    Splice(d, 0, LeBytes(1, 4) + LeBytes(0, 4) + [t.ToByte()] + Overlaid(name, d[NAME_OFFSET..HEADER_LEN]))
  }

  method PackHeader(header: Header, data: array<byte>) returns (r: Result<nat>)
    modifies data
    ensures r.Ok? <==> HEADER_LEN <= data.Length
    ensures r.Ok? ==> data[..] == Splice(old(data[..]), 0, LeBytes(header.counter, 4) + LeBytes(header.activeRecords, 4)
                                                           + [header.referenceType.ToByte()] + Overlaid(header.name, old(data[NAME_OFFSET..HEADER_LEN])))
    ensures r.Err? ==> r.error == AccountDataTooSmall && data[..] == old(data[..])
  {
    var _ :- CheckDataLen(data.Length, HEADER_LEN);
    ghost var d, field := data[..], data[NAME_OFFSET..HEADER_LEN];
    ghost var counters := LeBytes(header.counter, 4) + LeBytes(header.activeRecords, 4);
    CopyInto(data, 0, LeBytes(header.counter, 4));
    CopyInto(data, 4, LeBytes(header.activeRecords, 4));
    SpliceAdjacent(d, 0, LeBytes(header.counter, 4), LeBytes(header.activeRecords, 4));
    CopyInto(data, REF_TYPE_OFFSET, [header.referenceType.ToByte()]);
    SpliceAdjacent(d, 0, counters, [header.referenceType.ToByte()]);
    assert data[NAME_OFFSET..HEADER_LEN] == data[..][NAME_OFFSET..HEADER_LEN] == field;
    PackArrayString64(header.name, data, NAME_OFFSET);
    SpliceAdjacent(d, 0, counters + [header.referenceType.ToByte()], Overlaid(header.name, field));
    return Ok(HEADER_LEN);
  }

  method Init(data: array<byte>, name: ArrayString64, referenceType: ReferenceType) returns (r: Result<()>)
    modifies data
    ensures r.Ok? <==> !IsInitialized(old(data[..])) && HEADER_LEN + referenceType.SlotSize() <= data.Length
    ensures r.Ok? ==> data[..] == InitBytes(old(data[..]), name, referenceType)
    ensures r.Err? ==> data[..] == old(data[..])
                       && r.error == if IsInitialized(old(data[..])) then AccountAlreadyInitialized else AccountDataTooSmall
  {
    if IsInitialized(data[..]) {
      return Err(AccountAlreadyInitialized);
    }
    var _ :- CheckDataLen(data.Length, HEADER_LEN + referenceType.SlotSize());
    var _ := PackHeader(Header(1, 0, referenceType, name), data);
    return Ok(());
  }

  method Drop(data: array<byte>) returns (r: Result<nat>)
    modifies data
    ensures r == if data.Length < HEADER_LEN then Err(AccountDataTooSmall)
                 else if data.Length > 2000 then Err(Custom(431))
                 else Ok(data.Length)
    ensures data[..] == if r.Ok? then Zeros(data.Length) else old(data[..])
  {
    var _ :- CheckDataLen(data.Length, HEADER_LEN);
    if data.Length > 2000 {
      return Err(Custom(431));
    }
    EraseBytes(data, 0, data.Length);
    return Ok(data.Length);
  }

  /** The fields of a header packed at the start of a buffer. */
  lemma PackedHeader(d: seq<byte>, counter: seq<byte>, active: seq<byte>, kind: byte, field: seq<byte>)
    requires HEADER_LEN <= |d| && |counter| == 4 && |active| == 4 && |field| == NAME_LEN
    ensures var d' := Splice(d, 0, counter + active + [kind] + field);
            d'[0..4] == counter && d'[4..8] == active && d'[REF_TYPE_OFFSET] == kind && d'[NAME_OFFSET..HEADER_LEN] == field
  {
    var b := counter + active + [kind] + field;
    var d' := Splice(d, 0, b);
    SpliceHere(d, 0, b);
    assert forall k :: 0 <= k < HEADER_LEN ==> d'[k] == b[k];
    assert d'[0..4] == b[0..4] == counter;
    assert d'[4..8] == b[4..8] == active;
    assert d'[NAME_OFFSET..HEADER_LEN] == b[NAME_OFFSET..HEADER_LEN] == field;
  }

  lemma InitHeader(d: seq<byte>, name: ArrayString64, t: ReferenceType)
    requires HEADER_LEN <= |d|
    ensures var d' := InitBytes(d, name, t);
            LeNat(d'[0..4]) == 1 && LeNat(d'[4..8]) == 0 && d'[REF_TYPE_OFFSET] == t.ToByte()
            && d'[NAME_OFFSET..HEADER_LEN] == Overlaid(name, d[NAME_OFFSET..HEADER_LEN]) && Kind(d') == t
  {
    PackedHeader(d, LeBytes(1, 4), LeBytes(0, 4), t.ToByte(), Overlaid(name, d[NAME_OFFSET..HEADER_LEN]));
    Pow256Values();
    LeNatOfBytes(1, 4);
    LeNatOfBytes(0, 4);
    TypeRoundTrip(t);
  }

  /** The bytes `init` leaves, at their places: counter 1, no record, the code of the type, and the name over what was there. */
  lemma HeaderOnBytes(d: seq<byte>, name: ArrayString64, t: ReferenceType)
    requires HEADER_LEN <= |d|
    ensures var d' := InitBytes(d, name, t);
            && |d'| == |d| && d'[0] == 1 && d'[1] == 0 && d'[2] == 0 && d'[3] == 0
            && d'[4] == 0 && d'[5] == 0 && d'[6] == 0 && d'[7] == 0 && TypeFromByte(d'[8]) == Ok(t)
            && (forall k :: 0 <= k < |name| ==> d'[9 + k] == name[k])
            && (forall k :: 9 + |name| <= k < |d| ==> d'[k] == d[k])
  {
    FreshCounters();
    TypeRoundTrip(t);
    HeaderPlaces(d, LeBytes(1, 4), LeBytes(0, 4), t.ToByte(), name);
    var d' := InitBytes(d, name, t);
    assert d'[0] == [1, 0, 0, 0][0] && d'[1] == [1, 0, 0, 0][1] && d'[2] == [1, 0, 0, 0][2] && d'[3] == [1, 0, 0, 0][3];
    assert d'[4 + 0] == 0 && d'[4 + 1] == 0 && d'[4 + 2] == 0 && d'[4 + 3] == 0;
  }

  lemma FreshCounters()
    ensures LeBytes(1, 4) == [1, 0, 0, 0] && LeBytes(0, 4) == [0, 0, 0, 0]
  {
    forall k | 0 <= k < 4 ensures LeBytes(1, 4)[k] == [1, 0, 0, 0][k] && LeBytes(0, 4)[k] == 0 {
      LeByteAt(1, 4, k);
      LeByteAt(0, 4, k);
      if k > 0 { OneDivided(k); }
    }
  }

  lemma HeaderPlaces(d: seq<byte>, counter: seq<byte>, active: seq<byte>, kind: byte, name: seq<byte>)
    requires HEADER_LEN <= |d| && |counter| == 4 && |active| == 4 && |name| <= NAME_LEN
    ensures var d' := Splice(d, 0, counter + active + [kind] + Overlaid(name, d[NAME_OFFSET..HEADER_LEN]));
            && (forall k :: 0 <= k < 4 ==> d'[k] == counter[k] && d'[4 + k] == active[k]) && d'[8] == kind
            && (forall k :: 0 <= k < |name| ==> d'[9 + k] == name[k])
            && (forall k :: 9 + |name| <= k < |d| ==> d'[k] == d[k])
  {
    var field := d[NAME_OFFSET..HEADER_LEN];
    var b := counter + active + [kind] + Overlaid(name, field);
    forall k | 9 + |name| <= k < |d| ensures Splice(d, 0, b)[k] == d[k] {
      if k < HEADER_LEN { assert b[k] == Overlaid(name, field)[k - 9] == field[k - 9]; }
    }
  }

  lemma OneDivided(k: nat)
    requires k > 0
    ensures 1 / Pow256(k) == 0
  {
    assert Pow256(k) >= 0x100;
    UniqueQuotient(1, Pow256(k), 0, 1);
  }

  /** A buffer of `n` bytes holds whole slots of this type, at most u32::MAX of them, and no room for a part of one more. */
  predicate FitsSlots(n: nat, t: ReferenceType)
  {
    HEADER_LEN <= n
    && var records := RecordsIn(n - HEADER_LEN, t.SlotSize());
       1 <= records <= U32_MAX && n < Offset(t, records) + NO_REF_LEN
  }

  /** The counter and name bytes of a slot are zero; tag and reference bytes may be anything. */
  predicate FreeBytes(d: seq<byte>, o: nat)
  {
    o + NO_REF_LEN <= |d| && d[o..o + 2] == Zeros(2) && d[o + 4..o + NO_REF_LEN] == Zeros(NAME_LEN)
  }

  /** A buffer that can become a storage: it fits whole slots and all of them are free. */
  predicate Vacant(d: seq<byte>, t: ReferenceType)
  {
    FitsSlots(|d|, t) && forall i :: 0 <= i < RecordsIn(|d| - HEADER_LEN, t.SlotSize()) ==> FreeBytes(d, Offset(t, i))
  }

  lemma FreeSlotBytes(t: ReferenceType, raw: seq<byte>)
    requires |raw| == t.SlotSize()
    ensures CleanSlot(raw) && DecodeSlot(t, raw).None? <==> FreeBytes(raw, 0)
  {
    LeNatOfTwo(raw[0..2]);
    UnpackPadded([]);
    if FreeBytes(raw, 0) {
      assert raw[0..2] == Zeros(2) && raw[0] == Zeros(2)[0] && raw[1] == Zeros(2)[1];
      assert raw[4..NO_REF_LEN] == Padded([]);
    }
    if CleanSlot(raw) && DecodeSlot(t, raw).None? {
      assert raw[0..2] == Zeros(2);
      assert raw[4..NO_REF_LEN] == Padded([]) == Zeros(NAME_LEN);
    }
  }

  lemma FreeBytesHere(d: seq<byte>, o: nat, n: nat)
    requires NO_REF_LEN <= n && o + n <= |d|
    ensures FreeBytes(d[o..o + n], 0) <==> FreeBytes(d, o)
  {
    var raw := d[o..o + n];
    assert raw[0..2] == d[o..o + 2];
    var name, there := raw[4..NO_REF_LEN], d[o + 4..o + NO_REF_LEN];
    forall k | 0 <= k < NAME_LEN ensures name[k] == there[k] {
      assert name[k] == raw[k + 4] == d[o + (k + 4)];
    }
    assert name == there;
  }

  /** A fresh header does not change the bytes of the slots. */
  lemma InitKeepsBytes(d: seq<byte>, name: ArrayString64, t: ReferenceType, i: nat)
    requires HEADER_LEN <= |d| && LaidOut(InitBytes(d, name, t)) && i < Total(InitBytes(d, name, t)) && Kind(InitBytes(d, name, t)) == t
    ensures Offset(t, i) + t.SlotSize() <= |d|
    ensures RawSlot(InitBytes(d, name, t), i) == d[Offset(t, i)..Offset(t, i) + t.SlotSize()]
  {
    var o := Offset(t, i);
    SlotsFit(InitBytes(d, name, t));
    assert Offset(t, i + 1) == o + t.SlotSize() <= |d|;
    SpliceElsewhere(d, 0, LeBytes(1, 4) + LeBytes(0, 4) + [t.ToByte()] + Overlaid(name, d[NAME_OFFSET..HEADER_LEN]), o, o + t.SlotSize());
  }

  lemma InitKeepsSlot(d: seq<byte>, name: ArrayString64, t: ReferenceType, i: nat)
    requires HEADER_LEN <= |d| && LaidOut(InitBytes(d, name, t)) && i < Total(InitBytes(d, name, t)) && Kind(InitBytes(d, name, t)) == t
    ensures var d' := InitBytes(d, name, t);
            CleanSlot(RawSlot(d', i)) && Slots(d')[i].None? <==> FreeBytes(d, Offset(t, i))
  {
    InitKeepsBytes(d, name, t, i);
    SlotBytesFree(InitBytes(d, name, t), i, d, Offset(t, i));
  }

  /** A slot is free and clean just when the bytes it was taken from are free. */
  lemma SlotBytesFree(d': seq<byte>, i: nat, d: seq<byte>, o: nat)
    requires LaidOut(d') && i < Total(d') && o + Kind(d').SlotSize() <= |d| && RawSlot(d', i) == d[o..o + Kind(d').SlotSize()]
    ensures CleanSlot(RawSlot(d', i)) && Slots(d')[i].None? <==> FreeBytes(d, o)
  {
    SlotAt(d', i);
    FreeSlotBytes(Kind(d'), RawSlot(d', i));
    FreeBytesHere(d, o, Kind(d').SlotSize());
  }

  /** A storage that counts no record is well formed just when all its slots are free and clean. */
  lemma EmptyWellFormed(d: seq<byte>)
    requires LaidOut(d) && LeNat(d[0..4]) == 1 && LeNat(d[4..8]) == 0
    ensures WellFormed(d) <==> forall i :: 0 <= i < Total(d) ==> CleanSlot(RawSlot(d, i)) && Slots(d)[i].None?
  {
    LivePrefix(Slots(d), 0, Total(d));
  }

  /** Exactly when `init` makes a usable storage, on the bytes it is given: they fit whole slots and every one is free. */
  lemma InitWellFormed(d: seq<byte>, name: ArrayString64, t: ReferenceType)
    requires HEADER_LEN <= |d|
    ensures WellFormed(InitBytes(d, name, t)) <==> Vacant(d, t)
    ensures Vacant(d, t) ==> forall i :: 0 <= i < Total(InitBytes(d, name, t)) ==> Slots(InitBytes(d, name, t))[i].None?
  {
    var d' := InitBytes(d, name, t);
    InitHeader(d, name, t);
    assert LaidOut(d') <==> FitsSlots(|d|, t);
    if LaidOut(d') {
      EmptyWellFormed(d');
      VacantSlots(d, name, t);
    }
  }

  lemma VacantSlots(d: seq<byte>, name: ArrayString64, t: ReferenceType)
    requires HEADER_LEN <= |d| && LaidOut(InitBytes(d, name, t))
    ensures var d' := InitBytes(d, name, t);
            (forall i :: 0 <= i < Total(d') ==> CleanSlot(RawSlot(d', i)) && Slots(d')[i].None?) <==> Vacant(d, t)
  {
    var d' := InitBytes(d, name, t);
    InitHeader(d, name, t);
    forall i | 0 <= i < Total(d')
      ensures CleanSlot(RawSlot(d', i)) && Slots(d')[i].None? <==> FreeBytes(d, Offset(t, i))
    {
      InitKeepsSlot(d, name, t, i);
    }
  }

  /** A buffer that `init` accepts and that is not a usable storage afterwards: one slot is live and none is counted. */
  lemma InitOverOldBytesExample() returns (d: seq<byte>)
    ensures !IsInitialized(d) && HEADER_LEN + EmptyType.SlotSize() <= |d|
    ensures var d' := InitBytes(d, [], EmptyType);
            LaidOut(d') && !WellFormed(d') && Slots(d')[0].Some? && GetActiveRecords(d') == Ok(0)
  {
    var n := StorageSizeForRecords(EmptyType, 1);
    d := Zeros(n)[HEADER_LEN := 1];
    assert d[0..4] == Zeros(4);
    LeNatZeros(4);
    InitHeader(d, [], EmptyType);
    var d' := InitBytes(d, [], EmptyType);
    StorageSizeIsExact(EmptyType, 1, d');
    InitWellFormed(d, [], EmptyType);
    assert Offset(EmptyType, 0) == HEADER_LEN && d[HEADER_LEN..HEADER_LEN + 2][0] == d[HEADER_LEN] == 1;
    assert !FreeBytes(d, Offset(EmptyType, 0));
    SlotAt(d', 0);
    var counter := RawSlot(d', 0)[0..2];
    assert counter[0] == d'[HEADER_LEN] == d[HEADER_LEN] == 1;
    LeNatOfTwo(counter);
  }

  /** A zeroed buffer does not count as initialized. */
  lemma ZeroedIsFresh(n: nat)
    ensures !IsInitialized(Zeros(n))
  {
    if n >= HEADER_LEN {
      assert Zeros(n)[0..4] == Zeros(4);
      LeNatZeros(4);
    }
  }

  lemma RoomForOne(t: ReferenceType, records: nat)
    requires 1 <= records <= U32_MAX
    ensures HEADER_LEN + t.SlotSize() <= StorageSizeForRecords(t, records)
  {
    assert records * t.SlotSize() >= t.SlotSize();
  }

  /** Init on any zeroed buffer with room for whole slots, such as a dropped one, gives an empty storage. */
  lemma InitFresh(n: nat, name: ArrayString64, t: ReferenceType)
    requires HEADER_LEN <= n && LaidOut(InitBytes(Zeros(n), name, t))
    ensures var d' := InitBytes(Zeros(n), name, t);
            WellFormed(d') && Decode(d') == Storage(1, t, Padded(name), seq(Total(d'), _ => None))
  {
    var d' := InitBytes(Zeros(n), name, t);
    InitHeader(Zeros(n), name, t);
    assert Zeros(n)[NAME_OFFSET..HEADER_LEN] == Padded([]);
    OverlayCases(name);
    ZerosAreVacant(n, t);
    InitWellFormed(Zeros(n), name, t);
    assert Slots(d') == seq(Total(d'), _ => None);
  }

  /** A zeroed buffer of the computed size becomes a storage with exactly that many free slots. */
  lemma InitZeroed(records: nat, name: ArrayString64, t: ReferenceType)
    requires 1 <= records <= U32_MAX
    ensures HEADER_LEN + t.SlotSize() <= StorageSizeForRecords(t, records)
    ensures !IsInitialized(Zeros(StorageSizeForRecords(t, records)))
    ensures var d' := InitBytes(Zeros(StorageSizeForRecords(t, records)), name, t);
            WellFormed(d') && Decode(d') == Storage(1, t, Padded(name), seq(records, _ => None))
  {
    RoomForOne(t, records);
    var n := StorageSizeForRecords(t, records);
    ZeroedIsFresh(n);
    InitHeader(Zeros(n), name, t);
    StorageSizeIsExact(t, records, InitBytes(Zeros(n), name, t));
    InitFresh(n, name, t);
  }

  lemma ZerosAreVacant(n: nat, t: ReferenceType)
    requires FitsSlots(n, t)
    ensures Vacant(Zeros(n), t)
  {
    var records := RecordsIn(n - HEADER_LEN, t.SlotSize());
    SlotOffsetIsLinear(t.SlotSize(), records);
    RecordsInIsQuotient(n - HEADER_LEN, t.SlotSize());
    forall i | 0 <= i < records ensures FreeBytes(Zeros(n), Offset(t, i)) {
      OffsetMonotone(t, i + 1, records);
      assert Offset(t, i + 1) == Offset(t, i) + t.SlotSize();
    }
  }
}
