/** How a storage buffer is laid out, and the list of slots it stands for (farms/farm-sdk/src/refdb.rs). */
module Layout {
  import opened Basics
  import opened Bytes
  import opened Pack
  import opened Records

  const HEADER_LEN: nat := 73
  const REF_TYPE_OFFSET: nat := 8
  const NAME_OFFSET: nat := 9

  /** Where slot `i` starts when slots have `size` bytes; unrolled one slot at a time, see SlotOffsetIsLinear. */
  function SlotOffset(size: nat, i: nat): (o: nat)
    ensures HEADER_LEN <= o
  {
    if i == 0 then HEADER_LEN else SlotOffset(size, i - 1) + size
  }

  function Offset(t: ReferenceType, i: nat): (o: nat)
  {
    SlotOffset(t.SlotSize(), i)
  }

  lemma {:induction false} SlotOffsetIsLinear(size: nat, i: nat)
    ensures SlotOffset(size, i) == HEADER_LEN + i * size
  {
    if i > 0 {
      SlotOffsetIsLinear(size, i - 1);
      assert i * size == (i - 1) * size + size;
    }
  }

  lemma {:induction false} OffsetMonotone(t: ReferenceType, i: nat, j: nat)
    requires i <= j
    ensures Offset(t, i) <= Offset(t, j)
    ensures i < j ==> Offset(t, i + 1) <= Offset(t, j)
  {
    if i < j {
      OffsetMonotone(t, i, j - 1);
    }
  }

  /** The integer quotient `len / size`, unrolled one record at a time; see RecordsInIsQuotient. */
  function RecordsIn(len: nat, size: nat): (n: nat)
    requires size > 0
  {
    if len < size then 0 else 1 + RecordsIn(len - size, size)
  }

  lemma {:induction false} RecordsInIsQuotient(len: nat, size: nat)
    requires size > 0
    ensures RecordsIn(len, size) == len / size
    ensures len - RecordsIn(len, size) * size == len % size
  {
    if len >= size {
      RecordsInIsQuotient(len - size, size);
      var q := RecordsIn(len - size, size);
      assert (q + 1) * size == q * size + size;
      QuotientIs(len, size, q + 1);
    } else {
      QuotientIs(len, size, 0);
    }
  }

  lemma SameQuotient(p: nat, q: nat, size: nat, r: nat, r': nat)
    requires p * size + r == q * size + r' && r < size && r' < size
    ensures p == q
  {
    if p < q {
      LaterMultiple(p, q, size);
    } else if q < p {
      LaterMultiple(q, p, size);
    }
  }

  lemma LaterMultiple(p: nat, q: nat, size: nat)
    requires p < q
    ensures p * size + size <= q * size
  {
    NextMultiple(p, size);
  }

  lemma NextMultiple(q: nat, size: nat)
    ensures (q + 1) * size == q * size + size
  {
  }

  lemma QuotientIs(len: nat, size: nat, q: nat)
    requires size > 0 && 0 <= len - q * size < size
    ensures len / size == q && len % size == len - q * size
  {
    SameQuotient(len / size, q, size, len % size, len - q * size);
  }

  // ----- header accessors -----

  function GetReferenceType(d: seq<byte>): (r: Result<ReferenceType>)
    ensures r.Ok? <==> HEADER_LEN <= |d| && d[REF_TYPE_OFFSET] <= 6
    ensures r.Ok? ==> r.value.ToByte() == d[REF_TYPE_OFFSET]
  {
    var _ :- CheckDataLen(|d|, HEADER_LEN);
    TypeFromByte(d[REF_TYPE_OFFSET])
  }

  function GetStorageCounter(d: seq<byte>): (r: Result<u32>)
    ensures r.Ok? ==> r.value > 0
  {
    var _ :- CheckDataLen(|d|, HEADER_LEN);
    LeBytesOfNat(d[0..4]); Pow256Values();
    var counter := LeNat(d[0..4]);
    if counter > 0 then Ok(counter) else Err(UninitializedAccount)
  }

  function GetActiveRecords(d: seq<byte>): (r: Result<u32>)
    ensures r.Ok? <==> HEADER_LEN <= |d|
  {
    var _ :- CheckDataLen(|d|, HEADER_LEN);
    LeBytesOfNat(d[4..8]); Pow256Values();
    Ok(LeNat(d[4..8]))
  }

  function GetRecordSize(d: seq<byte>): (r: Result<nat>)
    ensures r.Ok? ==> NO_REF_LEN <= r.value <= MAX_RECORD_LEN
  {
    var t :- GetReferenceType(d);
    Ok(t.SlotSize())
  }

  function GetTotalRecords(d: seq<byte>): (r: Result<nat>)
    ensures r.Ok? <==> GetReferenceType(d).Ok?
  {
    var size :- GetRecordSize(d);
    Ok(RecordsIn(|d| - HEADER_LEN, size))
  }

  function GetName(d: seq<byte>): (r: Result<ArrayString64>)
  {
    var _ :- CheckDataLen(|d|, HEADER_LEN);
    UnpackArrayString64(d[NAME_OFFSET..HEADER_LEN])
  }

  datatype Header = Header(counter: u32, activeRecords: u32, referenceType: ReferenceType, name: ArrayString64)

  function UnpackHeader(d: seq<byte>): (r: Result<Header>)
    ensures r.Ok? ==> GetReferenceType(d) == Ok(r.value.referenceType) && GetActiveRecords(d) == Ok(r.value.activeRecords)
  {
    var active :- GetActiveRecords(d);
    LeBytesOfNat(d[0..4]); Pow256Values();
    var t :- GetReferenceType(d);
    var name :- GetName(d);
    Ok(Header(LeNat(d[0..4]), active, t, name))
  }

  /** The test `init` uses to refuse a storage already in use. */
  predicate IsInitialized(d: seq<byte>)
  {
    var h := UnpackHeader(d);
    h.Ok? && h.value.counter > 0
    && h.value.activeRecords <= RecordsIn(|d| - HEADER_LEN, h.value.referenceType.SlotSize())
  }

  /** The test on the bytes: a nonzero counter, a type code, a readable name, and no more records than fit. */
  lemma InitializedMeans(d: seq<byte>)
    ensures IsInitialized(d) <==>
              && 73 <= |d| && LeNat(d[0..4]) > 0 && d[8] <= 6 && UnpackArrayString64(d[9..73]).Ok?
              && LeNat(d[4..8]) * Kind(d).SlotSize() <= |d| - 73
  {
    if 73 <= |d| && d[8] <= 6 {
      var size, active := Kind(d).SlotSize(), LeNat(d[4..8]);
      RecordsInIsQuotient(|d| - 73, size);
      QuotientCovers(|d| - 73, size, active);
    }
  }

  lemma QuotientCovers(len: nat, size: nat, n: nat)
    requires size > 0
    ensures n <= len / size <==> n * size <= len
  {
    var q := len / size;
    assert len == q * size + len % size;
    if q < n { LaterMultiple(q, n, size); } else if n < q { LaterMultiple(n, q, size); }
  }

  /** `StorageType::get_storage_size_for_records`. */
  function StorageSizeForRecords(t: ReferenceType, records: nat): (n: nat)
  {
    if records > U32_MAX then 0 else records * t.SlotSize() + HEADER_LEN
  }

  // ----- slots -----

  function Kind(d: seq<byte>): (t: ReferenceType)
    requires HEADER_LEN <= |d| && d[REF_TYPE_OFFSET] <= 6
  {
    TypeFromByte(d[REF_TYPE_OFFSET]).value
  }

  function Total(d: seq<byte>): (n: nat)
    requires HEADER_LEN <= |d| && d[REF_TYPE_OFFSET] <= 6
  {
    RecordsIn(|d| - HEADER_LEN, Kind(d).SlotSize())
  }

  /** A buffer with a reference type, whole slots (at most u32::MAX of them), and no room for a part of one more. */
  predicate LaidOut(d: seq<byte>)
  {
    && HEADER_LEN <= |d|
    && d[REF_TYPE_OFFSET] <= 6
    && 1 <= Total(d) <= U32_MAX
    && |d| < Offset(Kind(d), Total(d)) + NO_REF_LEN
  }

  /** The slots lie inside the buffer and what is left over is too short to hold a record's fixed part. */
  lemma SlotsFit(d: seq<byte>)
    requires LaidOut(d)
    ensures Offset(Kind(d), Total(d)) <= |d| < Offset(Kind(d), Total(d)) + NO_REF_LEN
    ensures forall i :: 0 <= i <= Total(d) ==> Offset(Kind(d), i) <= |d|
  {
    var t := Kind(d);
    SlotOffsetIsLinear(t.SlotSize(), Total(d));
    RecordsInIsQuotient(|d| - HEADER_LEN, t.SlotSize());
    forall i | 0 <= i <= Total(d) ensures Offset(t, i) <= |d| {
      OffsetMonotone(t, i, Total(d));
    }
  }

  /** A storage of the size computed for `records` records has exactly that many slots. */
  lemma StorageSizeIsExact(t: ReferenceType, records: nat, d: seq<byte>)
    requires 1 <= records <= U32_MAX
    requires |d| == StorageSizeForRecords(t, records) && d[REF_TYPE_OFFSET] == t.ToByte()
    ensures LaidOut(d) && Kind(d) == t && Total(d) == records
  {
    RecordsInIsQuotient(|d| - HEADER_LEN, t.SlotSize());
    QuotientIs(|d| - HEADER_LEN, t.SlotSize(), records);
    SlotOffsetIsLinear(t.SlotSize(), records);
  }

  function RawSlot(d: seq<byte>, i: nat): (b: seq<byte>)
    requires LaidOut(d) && i < Total(d)
    ensures |b| == Kind(d).SlotSize()
  {
    SlotsFit(d);
    assert Offset(Kind(d), i + 1) == Offset(Kind(d), i) + Kind(d).SlotSize() <= |d|;
    d[Offset(Kind(d), i)..Offset(Kind(d), i + 1)]
  }

  /** One live record as stored. */
  datatype Entry = Entry(counter: nat, tag: nat, name: seq<byte>, reference: Reference)

  function DecodeSlot(t: ReferenceType, b: seq<byte>): (e: Option<Entry>)
    requires |b| == t.SlotSize()
  {
    if LeNat(b[0..2]) == 0 then None
    else Some(Entry(LeNat(b[0..2]), LeNat(b[2..4]), BeforeNul(b[4..NO_REF_LEN]), UnpackReference(t, b[NO_REF_LEN..])))
  }

  /** The name field is a valid name and zeros; a free slot has no name bytes at all. */
  predicate CleanSlot(b: seq<byte>)
    requires NO_REF_LEN <= |b|
  {
    var field := b[4..NO_REF_LEN];
    && ValidUtf8(BeforeNul(field))
    && field == Padded(BeforeNul(field))
    && (LeNat(b[0..2]) == 0 ==> BeforeNul(field) == [])
  }

  /** What a buffer means: update counter, reference type, storage name and slots (`None` when free). */
  datatype Storage = Storage(counter: nat, kind: ReferenceType, name: seq<byte>, slots: seq<Option<Entry>>)

  /** `s` lists what the slots of `d` hold. */
  ghost predicate SlotsOf(d: seq<byte>, s: seq<Option<Entry>>)
    requires LaidOut(d)
  {
    |s| == Total(d)
    && forall i {:trigger RawSlot(d, i)} :: 0 <= i < Total(d) ==> s[i] == DecodeSlot(Kind(d), RawSlot(d, i))
  }

  /** The only list with SlotsOf; chosen rather than computed so that proofs unfold it only through SlotAt. */
  ghost function Slots(d: seq<byte>): (s: seq<Option<Entry>>)
    requires LaidOut(d)
    ensures |s| == Total(d)
  {
    assert SlotsOf(d, seq(Total(d), i requires 0 <= i < Total(d) => DecodeSlot(Kind(d), RawSlot(d, i))));
    var s :| SlotsOf(d, s);
    s
  }

  lemma SlotAt(d: seq<byte>, i: nat)
    requires LaidOut(d) && i < Total(d)
    ensures Slots(d)[i] == DecodeSlot(Kind(d), RawSlot(d, i))
  {
    var b := RawSlot(d, i);
  }

  ghost function Decode(d: seq<byte>): (s: Storage)
    requires LaidOut(d)
  {
    Storage(LeNat(d[0..4]), Kind(d), d[NAME_OFFSET..HEADER_LEN], Slots(d))
  }

  /** Number of live slots among the first `n`. */
  function LiveIn(s: seq<Option<Entry>>, n: nat): (c: nat)
    requires n <= |s|
    ensures c <= n
  {
    if n == 0 then 0 else LiveIn(s, n - 1) + (if s[n - 1].Some? then 1 else 0)
  }

  function Live(s: seq<Option<Entry>>): (c: nat)
    ensures c <= |s|
  {
    LiveIn(s, |s|)
  }

  /** The invariant of every storage: positive update counter, exact live count, clean slots. */
  ghost predicate WellFormed(d: seq<byte>)
  {
    && LaidOut(d)
    && LeNat(d[0..4]) >= 1
    && LeNat(d[4..8]) == Live(Slots(d))
    && forall i :: 0 <= i < Total(d) ==> CleanSlot(RawSlot(d, i))
  }

  // ----- counting live slots -----

  lemma {:induction false} LiveInUpdate(s: seq<Option<Entry>>, n: nat, i: nat, e: Option<Entry>)
    requires i < |s| && n <= |s|
    ensures LiveIn(s[i := e], n) == LiveIn(s, n) + (if i < n && e.Some? then 1 else 0) - (if i < n && s[i].Some? then 1 else 0)
  {
    if n > 0 {
      LiveInUpdate(s, n - 1, i, e);
    }
  }

  lemma LiveUpdate(s: seq<Option<Entry>>, i: nat, e: Option<Entry>)
    requires i < |s|
    ensures Live(s[i := e]) == Live(s) + (if e.Some? then 1 else 0) - (if s[i].Some? then 1 else 0)
  {
    LiveInUpdate(s, |s|, i, e);
  }

  /** The first `i` slots hold all live records just when every later slot is free. */
  lemma {:induction false} LivePrefix(s: seq<Option<Entry>>, i: nat, n: nat)
    requires i <= n <= |s|
    ensures LiveIn(s, i) <= LiveIn(s, n)
    ensures LiveIn(s, i) == LiveIn(s, n) <==> forall j :: i <= j < n ==> s[j].None?
  {
    if i < n {
      LivePrefix(s, i, n - 1);
    }
  }

  lemma {:induction false} AllLive(s: seq<Option<Entry>>, n: nat)
    requires n <= |s|
    ensures LiveIn(s, n) == n <==> forall i :: 0 <= i < n ==> s[i].Some?
  {
    if n > 0 { AllLive(s, n - 1); }
  }

  // ----- replacing one slot -----

  /** If two buffers differ, past the counters, only inside slot `i`, their slots differ only at `i`. */
  lemma SlotReplaced(d: seq<byte>, d': seq<byte>, i: nat)
    requires LaidOut(d) && |d'| == |d| && i < Total(d)
    requires forall k :: 8 <= k < |d| && !(Offset(Kind(d), i) <= k < Offset(Kind(d), i + 1)) ==> d'[k] == d[k]
    ensures LaidOut(d') && Kind(d') == Kind(d) && Total(d') == Total(d)
    ensures d'[NAME_OFFSET..HEADER_LEN] == d[NAME_OFFSET..HEADER_LEN]
    ensures forall j :: 0 <= j < Total(d) && j != i ==> RawSlot(d', j) == RawSlot(d, j)
    ensures Slots(d') == Slots(d)[i := DecodeSlot(Kind(d), RawSlot(d', i))]
  {
    var t := Kind(d);
    SlotsFit(d);
    forall j | 0 <= j < Total(d) && j != i ensures RawSlot(d', j) == RawSlot(d, j) {
      if j < i { OffsetMonotone(t, j, i); } else { OffsetMonotone(t, i, j); }
    }
    var s := Slots(d)[i := DecodeSlot(t, RawSlot(d', i))];
    forall j | 0 <= j < Total(d) ensures Slots(d')[j] == s[j] {
      SlotAt(d, j);
      SlotAt(d', j);
    }
  }
}
