/** The database operations on slots: what each call does to the list of slots, and what it answers. */
module StorageSpec {
  import opened Basics
  import opened Bytes
  import opened Pack
  import opened Records
  import opened Layout

  /** Update counters run 1, 2, ..., max, 1, ... and never reach 0. */
  function NextCounter(c: nat, max: nat): (n: nat)
    requires max >= 1
    ensures 1 <= n
    ensures c <= max ==> n <= max
  {
    if c < max then c + 1 else 1
  }

  predicate Holds(slot: Option<Entry>, name: seq<byte>)
  {
    slot.Some? && slot.value.name == name
  }

  /** The first live slot with the given name from slot `i` on, by a full scan. */
  function FindFrom(s: seq<Option<Entry>>, name: seq<byte>, i: nat): (r: Option<nat>)
    requires i <= |s|
    decreases |s| - i
  {
    if i == |s| then None else if Holds(s[i], name) then Some(i) else FindFrom(s, name, i + 1)
  }

  function FindName(s: seq<Option<Entry>>, name: seq<byte>): (r: Option<nat>)
  {
    FindFrom(s, name, 0)
  }

  lemma {:induction false} FindFromSpec(s: seq<Option<Entry>>, name: seq<byte>, i: nat)
    requires i <= |s|
    ensures FindFrom(s, name, i).None? <==> forall j :: i <= j < |s| ==> !Holds(s[j], name)
    ensures FindFrom(s, name, i).Some? ==> var f := FindFrom(s, name, i).value;
                                           i <= f < |s| && Holds(s[f], name) && forall j :: i <= j < f ==> !Holds(s[j], name)
    decreases |s| - i
  {
    if i < |s| { FindFromSpec(s, name, i + 1); }
  }

  lemma FindNameSpec(s: seq<Option<Entry>>, name: seq<byte>)
    ensures FindName(s, name).None? <==> forall j :: 0 <= j < |s| ==> !Holds(s[j], name)
    ensures FindName(s, name).Some? ==> var f := FindName(s, name).value;
                                        f < |s| && Holds(s[f], name) && forall j :: 0 <= j < f ==> !Holds(s[j], name)
  {
    FindFromSpec(s, name, 0);
  }

  lemma FindNameIs(s: seq<Option<Entry>>, name: seq<byte>, i: nat)
    requires i < |s| && Holds(s[i], name)
    requires forall j :: 0 <= j < i ==> !Holds(s[j], name)
    ensures FindName(s, name) == Some(i)
  {
    FindNameSpec(s, name);
  }

  /** The first free slot from slot `i` on, or one past the last slot if there is none. */
  function FreeFrom(s: seq<Option<Entry>>, i: nat): (f: nat)
    requires i <= |s|
    decreases |s| - i
  {
    if i == |s| || s[i].None? then i else FreeFrom(s, i + 1)
  }

  function FirstFree(s: seq<Option<Entry>>): (f: nat)
  {
    FreeFrom(s, 0)
  }

  lemma {:induction false} FreeFromSpec(s: seq<Option<Entry>>, i: nat)
    requires i <= |s|
    ensures i <= FreeFrom(s, i) <= |s|
    ensures FreeFrom(s, i) < |s| ==> s[FreeFrom(s, i)].None?
    ensures forall j :: i <= j < FreeFrom(s, i) ==> s[j].Some?
    decreases |s| - i
  {
    if i < |s| && s[i].Some? { FreeFromSpec(s, i + 1); }
  }

  lemma FirstFreeIs(s: seq<Option<Entry>>, i: nat)
    requires i <= |s| && (i < |s| ==> s[i].None?)
    requires forall j :: 0 <= j < i ==> s[j].Some?
    ensures FirstFree(s) == i
  {
    FreeFromSpec(s, 0);
  }

  /** One past the last live slot among the first `n`. */
  function EndOfLiveIn(s: seq<Option<Entry>>, n: nat): (i: nat)
    requires n <= |s|
  {
    if n == 0 || s[n - 1].Some? then n else EndOfLiveIn(s, n - 1)
  }

  function EndOfLive(s: seq<Option<Entry>>): (i: nat)
  {
    EndOfLiveIn(s, |s|)
  }

  lemma {:induction false} EndOfLiveIs(s: seq<Option<Entry>>, i: nat, n: nat)
    requires i <= n <= |s| && (i > 0 ==> s[i - 1].Some?)
    requires forall j :: i <= j < n ==> s[j].None?
    ensures EndOfLiveIn(s, n) == i
  {
    if i < n { EndOfLiveIs(s, i, n - 1); }
  }

  /** The live slots among the first `n`, in order. */
  function LiveIndices(s: seq<Option<Entry>>, n: nat): (r: seq<nat>)
    requires n <= |s|
  {
    if n == 0 then [] else LiveIndices(s, n - 1) + (if s[n - 1].Some? then [n - 1] else [])
  }

  /** Every live slot is listed once, in increasing order, and nothing else is. */
  lemma {:induction false} LiveIndicesSpec(s: seq<Option<Entry>>, n: nat)
    requires n <= |s|
    ensures |LiveIndices(s, n)| == LiveIn(s, n)
    ensures forall i :: i in LiveIndices(s, n) <==> 0 <= i < n && s[i].Some?
    ensures forall k, l :: 0 <= k < l < |LiveIndices(s, n)| ==> LiveIndices(s, n)[k] < LiveIndices(s, n)[l]
  {
    if n > 0 {
      LiveIndicesSpec(s, n - 1);
      var before := LiveIndices(s, n - 1);
      assert forall k :: 0 <= k < |before| ==> before[k] in before;
    }
  }

  /** Later free slots add nothing to the list. */
  lemma {:induction false} LiveIndicesPrefix(s: seq<Option<Entry>>, i: nat, n: nat)
    requires i <= n <= |s| && forall j :: i <= j < n ==> s[j].None?
    ensures LiveIndices(s, n) == LiveIndices(s, i)
  {
    if i < n { LiveIndicesPrefix(s, i, n - 1); }
  }

  /** The slot an operation addresses: the given one, else the name's own, else the first free one. */
  function Target(s: seq<Option<Entry>>, index: Option<u32>, name: seq<byte>): (i: nat)
  {
    if index.Some? then index.value
    else
      var found := FindName(s, name);
      if found.Some? then found.value else FirstFree(s)
  }

  /** Addressed by name, the target is the name's slot if it has one and the first free slot if not. */
  lemma TargetSpec(s: seq<Option<Entry>>, name: seq<byte>)
    ensures var i := Target(s, None, name);
            || (i < |s| && Holds(s[i], name) && forall j :: 0 <= j < i ==> !Holds(s[j], name))
            || (i == FirstFree(s) <= |s| && forall j :: 0 <= j < |s| ==> !Holds(s[j], name))
  {
    FindNameSpec(s, name);
    FreeFromSpec(s, 0);
  }

  /** A write. A name is kept up to its first NUL, and found again only under what was kept. */
  function ApplyWrite(st: Storage, record: Record): (r: (Result<nat>, Storage))
  {
    var i := Target(st.slots, record.index, record.name);
    if i >= |st.slots| then (Err(AccountDataTooSmall), st)
    else
      var slot := st.slots[i];
      if slot.Some? && record.counter > 0 && slot.value.counter != record.counter then (Err(Custom(409)), st)
      else if slot.Some? && record.index.Some? && record.name != slot.value.name then (Err(Custom(409)), st)
      else if st.kind != record.reference.Type() then (Err(Custom(409)), st)
      else
        var counter := NextCounter(if slot.Some? then slot.value.counter else 0, U16_MAX);
        var entry := Entry(counter, record.tag, BeforeNul(record.name), record.reference);
        (Ok(record.Size()), st.(counter := NextCounter(st.counter, U32_MAX), slots := st.slots[i := Some(entry)]))
  }

  /** An update of a free slot fails, but it has already moved the storage counter. */
  function ApplyUpdateAt(st: Storage, i: nat, reference: Reference): (r: (Result<nat>, Storage))
  {
    if i >= |st.slots| then (Err(AccountDataTooSmall), st)
    else
      var st' := st.(counter := NextCounter(st.counter, U32_MAX));
      if st.slots[i].None? then (Err(UninitializedAccount), st')
      else
        var e := st.slots[i].value;
        var entry := e.(counter := NextCounter(e.counter, U16_MAX), reference := reference);
        (Ok(st.kind.SlotSize()), st'.(slots := st.slots[i := Some(entry)]))
  }

  function ApplyUpdate(st: Storage, name: seq<byte>, reference: Reference): (r: (Result<nat>, Storage))
  {
    var found := FindName(st.slots, name);
    if found.Some? then ApplyUpdateAt(st, found.value, reference) else (Err(Custom(404)), st)
  }

  function ApplyDelete(st: Storage, record: Record): (r: (Result<nat>, Storage))
  {
    var i := Target(st.slots, record.index, record.name);
    if i >= |st.slots| then (Err(AccountDataTooSmall), st)
    else
      var slot := st.slots[i];
      if slot.None? then (Ok(0), st)
      else if record.counter > 0 && slot.value.counter != record.counter then (Err(Custom(409)), st)
      else if record.name != slot.value.name then (Err(Custom(409)), st)
      else (Ok(record.Size()), st.(counter := NextCounter(st.counter, U32_MAX), slots := st.slots[i := None]))
  }

  /** A stored entry as the record handed to a reader. */
  function ToRecord(index: Option<u32>, e: Entry): (r: Record)
    requires e.counter <= U16_MAX && e.tag <= U16_MAX && |e.name| <= NAME_LEN && ValidUtf8(e.name)
  {
    Record(index, e.counter, e.tag, e.name, e.reference)
  }

  predicate Representable(e: Entry)
  {
    1 <= e.counter <= U16_MAX && e.tag <= U16_MAX && |e.name| <= NAME_LEN && ValidUtf8(e.name) && NulFree(e.name)
    && e.reference.Valid()
  }

  // ----- reading slots from well-formed bytes -----

  /** What the scans see of a slot: its counter and name, nothing of a free one. */
  function Head(slot: Option<Entry>): (h: (nat, seq<byte>))
  {
    if slot.Some? then (slot.value.counter, slot.value.name) else (0, [])
  }

  lemma CleanSlotHead(t: ReferenceType, b: seq<byte>)
    requires |b| == t.SlotSize() && CleanSlot(b)
    ensures UnpackCounterAndName(b) == Ok(Head(DecodeSlot(t, b)))
    ensures DecodeSlot(t, b).Some? ==> Representable(DecodeSlot(t, b).value) && DecodeSlot(t, b).value.reference.Type() == t
  {
    LeBytesOfNat(b[0..2]); LeBytesOfNat(b[2..4]); Pow256Values();
  }

  lemma CleanSlotRecord(t: ReferenceType, b: seq<byte>, index: Option<u32>)
    requires |b| == t.SlotSize() && CleanSlot(b)
    ensures var u := UnpackRecord(b, t, index);
            u.Ok? && (u.value.counter > 0 <==> DecodeSlot(t, b).Some?)
    ensures DecodeSlot(t, b).Some? ==> Representable(DecodeSlot(t, b).value)
                                       && UnpackRecord(b, t, index) == Ok(ToRecord(index, DecodeSlot(t, b).value))
  {
    CleanSlotHead(t, b);
    assert b[NO_REF_LEN..t.SlotSize()] == b[NO_REF_LEN..];
  }

  /** Unpacking looks only at the bytes of one record. */
  lemma UnpackPrefix(d: seq<byte>, t: ReferenceType, b: seq<byte>, index: Option<u32>)
    requires |b| == t.SlotSize() && b <= d
    ensures UnpackCounter(d) == UnpackCounter(b)
    ensures UnpackCounterAndName(d) == UnpackCounterAndName(b)
    ensures UnpackRecord(d, t, index) == UnpackRecord(b, t, index)
  {
    assert d[0..2] == b[0..2];
    assert d[2..4] == b[2..4];
    assert d[4..NO_REF_LEN] == b[4..NO_REF_LEN];
    assert d[NO_REF_LEN..t.SlotSize()] == b[NO_REF_LEN..t.SlotSize()];
  }

  lemma RawSlotAtOffset(d: seq<byte>, i: nat)
    requires LaidOut(d) && i < Total(d)
    ensures Offset(Kind(d), i) <= |d|
    ensures RawSlot(d, i) <= d[Offset(Kind(d), i)..]
  {
    SlotsFit(d);
  }

  /** The fields the scans read at a slot's offset are those of the decoded slot. */
  lemma SlotFields(d: seq<byte>, i: nat)
    requires WellFormed(d) && i < Total(d)
    ensures Offset(Kind(d), i) <= |d|
    ensures UnpackCounterAndName(d[Offset(Kind(d), i)..]) == Ok(Head(Slots(d)[i]))
    ensures UnpackCounter(d[Offset(Kind(d), i)..]) == Ok(Head(Slots(d)[i]).0)
    ensures Slots(d)[i].Some? ==> Representable(Slots(d)[i].value) && Slots(d)[i].value.reference.Type() == Kind(d)
  {
    SlotAt(d, i);
    RawSlotAtOffset(d, i);
    UnpackPrefix(d[Offset(Kind(d), i)..], Kind(d), RawSlot(d, i), None);
    CleanSlotHead(Kind(d), RawSlot(d, i));
  }

  lemma SlotRecord(d: seq<byte>, i: nat, index: Option<u32>)
    requires WellFormed(d) && i < Total(d)
    ensures Offset(Kind(d), i) <= |d|
    ensures var u := UnpackRecord(d[Offset(Kind(d), i)..], Kind(d), index);
            u.Ok? && (u.value.counter > 0 <==> Slots(d)[i].Some?)
    ensures Slots(d)[i].Some? ==> Representable(Slots(d)[i].value)
                                  && UnpackRecord(d[Offset(Kind(d), i)..], Kind(d), index) == Ok(ToRecord(index, Slots(d)[i].value))
  {
    SlotAt(d, i);
    RawSlotAtOffset(d, i);
    UnpackPrefix(d[Offset(Kind(d), i)..], Kind(d), RawSlot(d, i), index);
    CleanSlotRecord(Kind(d), RawSlot(d, i), index);
  }

  /** Past the last slot there is not enough left to read anything. */
  lemma PastTheEnd(d: seq<byte>, index: Option<u32>)
    requires LaidOut(d)
    ensures Offset(Kind(d), Total(d)) <= |d|
    ensures UnpackCounterAndName(d[Offset(Kind(d), Total(d))..]) == Err(AccountDataTooSmall)
    ensures UnpackRecord(d[Offset(Kind(d), Total(d))..], Kind(d), index) == Err(AccountDataTooSmall)
  {
    SlotsFit(d);
  }

  // ----- writing slots -----

  /** The fields of a record's bytes packed over an empty name field, or over its own name. */
  lemma PackedFields(counter: u16, tag: u16, name: ArrayString64, field: seq<byte>, reference: Reference)
    requires reference.Valid() && (field == Padded([]) || field == Padded(name))
    ensures var b := SlotBytes(counter, tag, name, field, reference);
            && LeNat(b[0..2]) == counter && LeNat(b[2..4]) == tag
            && b[4..NO_REF_LEN] == Padded(name) && b[NO_REF_LEN..] == reference.Packed()
  {
    var b := SlotBytes(counter, tag, name, field, reference);
    OverlayCases(name);
    assert b[0..2] == LeBytes(counter, 2);
    assert b[2..4] == LeBytes(tag, 2);
    assert b[4..NO_REF_LEN] == Padded(name);
    assert b[NO_REF_LEN..] == reference.Packed();
    Pow256Values();
    LeNatOfBytes(counter, 2);
    LeNatOfBytes(tag, 2);
  }

  /** Those bytes are a clean live slot exactly when nothing follows a NUL in the name. */
  lemma PackedSlot(t: ReferenceType, counter: u16, tag: u16, name: ArrayString64, field: seq<byte>, reference: Reference)
    requires counter > 0 && reference.Valid() && reference.Type() == t
    requires field == Padded([]) || field == Padded(name)
    ensures var b := SlotBytes(counter, tag, name, field, reference);
            && (CleanSlot(b) <==> NulsAtEnd(name))
            && DecodeSlot(t, b) == Some(Entry(counter, tag, BeforeNul(name), reference))
  {
    PackedFields(counter, tag, name, field, reference);
    PaddedReads(name);
    BeforeNulValid(name);
    ReferenceRoundTrip(reference);
  }

  /** A slot whose fixed part is zero is a clean free slot, whatever its reference bytes are. */
  lemma ErasedSlot(t: ReferenceType, b: seq<byte>)
    requires |b| == t.SlotSize() && b[..NO_REF_LEN] == Zeros(NO_REF_LEN)
    ensures CleanSlot(b) && DecodeSlot(t, b) == None
  {
    assert forall k :: 0 <= k < NO_REF_LEN ==> b[k] == b[..NO_REF_LEN][k] == 0;
    assert b[0..2] == Zeros(2);
    LeNatZeros(2);
    assert b[4..NO_REF_LEN] == Padded([]);
    UnpackPadded([]);
  }

  /** The buffer after an operation on slot `i`: new counters in the header, new bytes in the slot. */
  lemma SlotRewritten(d: seq<byte>, d': seq<byte>, i: nat, b: seq<byte>)
    requires WellFormed(d) && |d'| == |d| && i < Total(d)
    requires forall k :: 8 <= k < |d| && !(Offset(Kind(d), i) <= k < Offset(Kind(d), i + 1)) ==> d'[k] == d[k]
    requires |b| == Kind(d).SlotSize() && CleanSlot(b)
    requires Offset(Kind(d), i) <= Offset(Kind(d), i + 1) <= |d| && d'[Offset(Kind(d), i)..Offset(Kind(d), i + 1)] == b
    requires LeNat(d'[0..4]) >= 1
    requires LeNat(d'[4..8]) == Live(Slots(d)[i := DecodeSlot(Kind(d), b)])
    ensures WellFormed(d')
    ensures Decode(d') == Decode(d).(counter := LeNat(d'[0..4]), slots := Slots(d)[i := DecodeSlot(Kind(d), b)])
  {
    SlotReplaced(d, d', i);
    assert RawSlot(d', i) == b;
  }

  /** The name field of a slot, as the bytes hold it. */
  lemma NameField(d: seq<byte>, i: nat)
    requires WellFormed(d) && i < Total(d)
    ensures Offset(Kind(d), i) + NO_REF_LEN <= |d|
    ensures |Head(Slots(d)[i]).1| <= NAME_LEN
    ensures d[Offset(Kind(d), i) + 4..Offset(Kind(d), i) + NO_REF_LEN] == Padded(Head(Slots(d)[i]).1)
  {
    SlotAt(d, i);
    RawSlotAtOffset(d, i);
    var b := RawSlot(d, i);
    assert CleanSlot(b);
    assert d[Offset(Kind(d), i) + 4..Offset(Kind(d), i) + NO_REF_LEN] == b[4..NO_REF_LEN];
  }
}
