/** Storages used as a fixed row of 64-bit cells, one per slot (the private helpers of farms/vaults/src/user_info.rs and vault_info.rs). */
module Cells {
  import opened Basics
  import opened Bytes
  import opened Pack
  import opened Records
  import opened Layout
  import opened StorageSpec
  import opened RefDB

  const TWO64: nat := 0x1_0000_0000_0000_0000

  function WrappingAdd(a: u64, b: u64): (r: u64)
  {
    (a + b) % TWO64
  }

  lemma WrapThenAdd(a: nat, b: nat)
    ensures (a % TWO64 + b) % TWO64 == (a + b) % TWO64
  {
  }

  /** The cast to a signed time stamp: the number in range that agrees modulo 2^64. */
  function Signed(a: u64): (r: int)
    ensures -(TWO64 / 2) <= r < TWO64 / 2 && (r == a || r == a - TWO64)
  {
    if a < TWO64 / 2 then a else a - TWO64
  }

  /** The first slots hold the given values; the others, up to `n`, are free. */
  ghost predicate Filled(d: seq<byte>, n: nat, cells: seq<u64>)
  {
    && WellFormed(d) && Kind(d) == U64Type && Total(d) == n && |cells| <= n
    && (forall i :: 0 <= i < |cells| ==> Slots(d)[i].Some? && Slots(d)[i].value.reference == U64(cells[i]))
    && (forall i :: |cells| <= i < n ==> Slots(d)[i].None?)
  }

  /** Field names are ASCII literals: each character is its own byte. */
  function FieldName(s: string): (name: seq<byte>)
    ensures |name| == |s| && NulFree(name)
    ensures forall k :: 0 <= k < |s| && 0 < s[k] as int < 0x80 ==> name[k] == s[k] as int
  {
    seq(|s|, k requires 0 <= k < |s| => AsciiByte(s[k]))
  }

  function AsciiByte(c: char): (b: byte)
    ensures 0 < b < 0x80
  {
    if 0 < c as int < 0x80 then c as int else 0x3F
  }

  lemma {:induction false} FieldNameIsValid(s: string)
    ensures ValidUtf8(FieldName(s))
  {
    if s != "" {
      FieldNameIsValid(s[1..]);
      var name := FieldName(s);
      assert name[1..] == FieldName(s[1..]) && Utf8Sequence(name[..1]);
    }
  }

  /** Bytes of a storage for `n` cells: 681 for a user account, 1061 for a vault. */
  function CellsLen(n: nat): (len: nat)
  {
    StorageSizeForRecords(U64Type, n)
  }

  // ----- initialization -----

  datatype Field = Field(name: string, value: u64)

  /** What a call returns and the bytes it leaves. */
  datatype Outcome = Outcome(result: Result<()>, bytes: seq<byte>)

  predicate Named(fields: seq<Field>)
  {
    |fields| <= U32_MAX && forall i :: 0 <= i < |fields| ==> |fields[i].name| <= NAME_LEN
  }

  function FieldRecord(i: u32, f: Field): (record: Record)
    requires |f.name| <= NAME_LEN
  {
    FieldNameIsValid(f.name);
    Record(Some(i), 0, 0, FieldName(f.name), U64(f.value))
  }

  /** What writing one field returns and leaves, on any bytes. */
  ghost function FieldWritten(d: seq<byte>, i: u32, f: Field): (w: Outcome)
    requires |f.name| <= NAME_LEN
  {
    var (r, d') := Written(d, GetOffset(d, i), FieldRecord(i, f));
    Outcome(if r.Ok? then Ok(()) else Err(r.error), d')
  }

  /** The outcomes of writing the fields one after the other; what follows a failure is that failure. */
  ghost predicate Outcomes(d: seq<byte>, fields: seq<Field>, ws: seq<Outcome>)
    requires Named(fields)
  {
    |ws| == |fields| + 1 && ws[0] == Outcome(Ok(()), d)
    && forall k {:trigger FieldWritten(ws[k].bytes, k, fields[k])} :: 0 <= k < |fields| ==>
         ws[k + 1] == if ws[k].result.Err? then ws[k] else FieldWritten(ws[k].bytes, k, fields[k])
  }

  lemma {:induction false} OutcomesExist(d: seq<byte>, fields: seq<Field>) returns (ws: seq<Outcome>)
    requires Named(fields)
    ensures Outcomes(d, fields, ws)
    decreases |fields|
  {
    if fields == [] {
      ws := [Outcome(Ok(()), d)];
    } else {
      var n := |fields| - 1;
      var before := OutcomesExist(d, fields[..n]);
      var next := if before[n].result.Err? then before[n] else FieldWritten(before[n].bytes, n, fields[n]);
      ws := before + [next];
      forall k | 0 <= k < |fields| ensures ws[k + 1] == if ws[k].result.Err? then ws[k] else FieldWritten(ws[k].bytes, k, fields[k]) {
        if k < n {
          var w := FieldWritten(before[k].bytes, k, fields[..n][k]);
          assert ws[k] == before[k] && ws[k + 1] == before[k + 1] && fields[..n][k] == fields[k];
        }
      }
    }
  }

  /** The only list of outcomes; chosen rather than computed so that proofs unfold it only through FieldsStep. */
  ghost function OutcomesOf(d: seq<byte>, fields: seq<Field>): (ws: seq<Outcome>)
    requires Named(fields)
    ensures |ws| == |fields| + 1
  {
    assert exists ws :: Outcomes(d, fields, ws) by { var ws := OutcomesExist(d, fields); assert Outcomes(d, fields, ws); }
    var ws :| Outcomes(d, fields, ws);
    ws
  }

  /** What writing the first `k` fields returns and leaves. */
  ghost function FieldsWritten(d: seq<byte>, fields: seq<Field>, k: nat): (w: Outcome)
    requires k <= |fields| && Named(fields)
  {
    OutcomesOf(d, fields)[k]
  }

  lemma FieldsStart(d: seq<byte>, fields: seq<Field>)
    requires Named(fields)
    ensures FieldsWritten(d, fields, 0) == Outcome(Ok(()), d)
  {
  }

  lemma FieldsStep(d: seq<byte>, fields: seq<Field>, k: nat)
    requires k < |fields| && Named(fields)
    ensures var before := FieldsWritten(d, fields, k);
            FieldsWritten(d, fields, k + 1) == if before.result.Err? then before else FieldWritten(before.bytes, k, fields[k])
  {
    var next := FieldWritten(OutcomesOf(d, fields)[k].bytes, k, fields[k]);
  }

  lemma {:induction false} FieldsStop(d: seq<byte>, fields: seq<Field>, k: nat, n: nat)
    requires k <= n <= |fields| && Named(fields) && FieldsWritten(d, fields, k).result.Err?
    ensures FieldsWritten(d, fields, n) == FieldsWritten(d, fields, k)
  {
    if k < n {
      FieldsStop(d, fields, k, n - 1);
      FieldsStep(d, fields, n - 1);
    }
  }

  /** Writes the next field; a failure is the outcome of the whole row. */
  method InitField(data: array<byte>, index: u32, fieldName: string, value: u64, ghost d: seq<byte>, ghost fields: seq<Field>) returns (r: Result<()>)
    requires Named(fields) && index < |fields| && fields[index] == Field(fieldName, value)
    requires Outcome(Ok(()), data[..]) == FieldsWritten(d, fields, index)
    modifies data
    ensures Outcome(r, data[..]) == FieldsWritten(d, fields, index + 1)
    ensures r.Ok? ==> r == Ok(())
    ensures r.Err? ==> Outcome(r, data[..]) == FieldsWritten(d, fields, |fields|)
  {
    var written := Write(data, FieldRecord(index, Field(fieldName, value)));
    r := if written.Ok? then Ok(()) else Err(written.error);
    FieldsStep(d, fields, index);
    if r.Err? { FieldsStop(d, fields, index + 1, |fields|); }
  }

  /** What initializing an account with these fields returns and leaves. */
  ghost function CellsInit(d: seq<byte>, name: ArrayString64, fields: seq<Field>): (w: Outcome)
    requires Named(fields)
  {
    if IsInitialized(d) then Outcome(Err(AccountAlreadyInitialized), d)
    else if |d| < HEADER_LEN + U64Type.SlotSize() then Outcome(Err(AccountDataTooSmall), d)
    else FieldsWritten(InitBytes(d, name, U64Type), fields, |fields|)
  }

  /** What a slot shows to a write: its counter and name. */
  ghost function HeadOf(d: seq<byte>, i: nat): (r: Result<(u16, ArrayString64)>)
    requires Offset(U64Type, i) <= |d|
  {
    GetRecordCounterAndName(d, Offset(U64Type, i))
  }

  /** The field has room, and its slot is free or already has its name. */
  ghost predicate FieldFree(d: seq<byte>, i: nat, f: Field)
  {
    && Offset(U64Type, i) + U64Type.SlotSize() <= |d|
    && HeadOf(d, i).Ok? && (HeadOf(d, i).value.0 == 0 || HeadOf(d, i).value.1 == FieldName(f.name))
  }

  /** A buffer with the header of a storage of cells. */
  predicate CellHeader(d: seq<byte>)
  {
    HEADER_LEN <= |d| && d[REF_TYPE_OFFSET] == U64Type.ToByte() && LeNat(d[0..4]) >= 1
  }

  /** Slots from `k` on, as far as they have room, show the same in both buffers. */
  ghost predicate SameHeads(d: seq<byte>, d': seq<byte>, k: nat)
  {
    |d'| == |d| && forall j :: k <= j && Offset(U64Type, j) <= |d| ==> HeadOf(d', j) == HeadOf(d, j)
  }

  lemma HeadKept(d: seq<byte>, d': seq<byte>, o: nat)
    requires |d'| == |d| && o <= |d| && d'[o..] == d[o..]
    ensures GetRecordCounterAndName(d', o) == GetRecordCounterAndName(d, o)
  {
  }

  /** Writing one field succeeds exactly when the field is free. */
  lemma FieldChecks(d: seq<byte>, i: u32, f: Field)
    requires CellHeader(d) && |f.name| <= NAME_LEN
    ensures FieldWritten(d, i, f).result.Ok? <==> FieldFree(d, i, f)
    ensures FieldFree(d, i, f) ==> FieldWritten(d, i, f).bytes == WrittenAt(d, Offset(U64Type, i), HeadOf(d, i).value.0, FieldRecord(i, f))
  {
    OffsetOfCell(d, i);
  }

  /** It then touches nothing behind the field. */
  lemma FieldWrittenIs(d: seq<byte>, i: u32, f: Field)
    requires CellHeader(d) && |f.name| <= NAME_LEN
    ensures FieldWritten(d, i, f).result.Ok? <==> FieldFree(d, i, f)
    ensures FieldFree(d, i, f) ==> CellHeader(FieldWritten(d, i, f).bytes) && SameHeads(d, FieldWritten(d, i, f).bytes, i + 1)
  {
    FieldChecks(d, i, f);
    if FieldFree(d, i, f) {
      FieldKept(d, HeadOf(d, i).value.0, FieldRecord(i, f), i, FieldWritten(d, i, f).bytes);
    }
  }

  lemma FieldKept(d: seq<byte>, cur: u16, record: Record, i: nat, d': seq<byte>)
    requires CellHeader(d) && Offset(U64Type, i) + U64Type.SlotSize() <= |d| && record.reference.Valid() && record.Size() == U64Type.SlotSize()
    requires HEADER_LEN <= Offset(U64Type, i) && d' == WrittenAt(d, Offset(U64Type, i), cur, record)
    ensures CellHeader(d') && SameHeads(d, d', i + 1)
  {
    FieldBytes(d, Offset(U64Type, i), cur, record);
    HeadsBehind(d, d', i);
  }

  lemma HeadsBehind(d: seq<byte>, d': seq<byte>, i: nat)
    requires |d'| == |d| && Offset(U64Type, i) + U64Type.SlotSize() <= |d|
    requires d'[Offset(U64Type, i) + U64Type.SlotSize()..] == d[Offset(U64Type, i) + U64Type.SlotSize()..]
    ensures SameHeads(d, d', i + 1)
  {
    forall j | i + 1 <= j && Offset(U64Type, j) <= |d| ensures HeadOf(d', j) == HeadOf(d, j) {
      OffsetMonotone(U64Type, i + 1, j);
      assert Offset(U64Type, i + 1) == Offset(U64Type, i) + U64Type.SlotSize();
      SameBehind(d, d', Offset(U64Type, i) + U64Type.SlotSize(), Offset(U64Type, j));
      HeadKept(d, d', Offset(U64Type, j));
    }
  }

  lemma SameBehind(d: seq<byte>, d': seq<byte>, lo: nat, o: nat)
    requires |d'| == |d| && lo <= o <= |d| && d'[lo..] == d[lo..]
    ensures d'[o..] == d[o..]
  {
    assert d'[o..] == d'[lo..][o - lo..] && d[o..] == d[lo..][o - lo..];
  }

  /** Storing a record changes the header counters and the bytes of the record. */
  lemma FieldBytes(d: seq<byte>, o: nat, cur: u16, record: Record)
    requires CellHeader(d) && HEADER_LEN <= o && o + record.Size() <= |d| && record.reference.Valid()
    ensures var d' := WrittenAt(d, o, cur, record);
            CellHeader(d') && |d'| == |d| && d'[o + record.Size()..] == d[o + record.Size()..]
  {
    var counter, active := NextCounter(LeNat(d[0..4]), U32_MAX), ActiveAfterWrite(LeNat(d[4..8]), cur);
    var h, b := Counted(d, counter, active), WrittenSlot(d, o, cur, record);
    CountersFit(d);
    CountedHeader(d, counter, active);
    SpliceElsewhere(h, o, b, 0, 4);
    SpliceElsewhere(h, o, b, o + record.Size(), |d|);
    CountedElsewhere(d, counter, active, o + record.Size(), |d|);
    var d' := WrittenAt(d, o, cur, record);
    assert d'[o + record.Size()..] == d'[o + record.Size()..|d|] && d[o + record.Size()..] == d[o + record.Size()..|d|];
  }

  lemma OffsetOfCell(d: seq<byte>, i: nat)
    requires CellHeader(d)
    ensures GetOffset(d, i) == if |d| < Offset(U64Type, i) then Err(AccountDataTooSmall) else Ok(Offset(U64Type, i))
    ensures GetReferenceType(d) == Ok(U64Type) && GetStorageCounter(d).Ok?
  {
    SlotOffsetIsLinear(U64Type.SlotSize(), i);
  }

  ghost predicate AllFree(d: seq<byte>, fields: seq<Field>, k: nat)
    requires k <= |fields|
  {
    forall i :: 0 <= i < k ==> FieldFree(d, i, fields[i])
  }

  /** Writing fields succeeds exactly when every field is free in the buffer at the start. */
  lemma {:induction false} FieldsOutcome(d: seq<byte>, fields: seq<Field>, k: nat)
    requires CellHeader(d) && Named(fields) && k <= |fields|
    ensures FieldsWritten(d, fields, k).result.Ok? <==> AllFree(d, fields, k)
    ensures FieldsWritten(d, fields, k).result.Ok? ==>
              CellHeader(FieldsWritten(d, fields, k).bytes) && SameHeads(d, FieldsWritten(d, fields, k).bytes, k)
  {
    if k == 0 {
      FieldsStart(d, fields);
    } else {
      FieldsOutcome(d, fields, k - 1);
      FieldsStep(d, fields, k - 1);
      OneMoreField(d, FieldsWritten(d, fields, k - 1), FieldsWritten(d, fields, k), k - 1, fields[k - 1]);
      AllFreeStep(d, fields, k - 1);
    }
  }

  lemma AllFreeStep(d: seq<byte>, fields: seq<Field>, k: nat)
    requires k < |fields|
    ensures AllFree(d, fields, k + 1) <==> AllFree(d, fields, k) && FieldFree(d, k, fields[k])
  {
  }

  lemma OneMoreField(d: seq<byte>, before: Outcome, after: Outcome, k: u32, f: Field)
    requires |f.name| <= NAME_LEN && after == if before.result.Err? then before else FieldWritten(before.bytes, k, f)
    requires before.result.Ok? ==> CellHeader(before.bytes) && SameHeads(d, before.bytes, k)
    ensures after.result.Ok? <==> before.result.Ok? && FieldFree(d, k, f)
    ensures after.result.Ok? ==> CellHeader(after.bytes) && SameHeads(d, after.bytes, k + 1)
  {
    if before.result.Ok? {
      FieldWrittenIs(before.bytes, k, f);
      SameHeadsFree(d, before.bytes, k, f);
      if after.result.Ok? { SameHeadsCompose(d, before.bytes, after.bytes, k + 1); }
    }
  }

  lemma SameHeadsFree(d: seq<byte>, d': seq<byte>, k: nat, f: Field)
    requires SameHeads(d, d', k)
    ensures FieldFree(d', k, f) <==> FieldFree(d, k, f)
  {
    if Offset(U64Type, k) <= |d| { assert HeadOf(d', k) == HeadOf(d, k); }
  }

  lemma SameHeadsCompose(d: seq<byte>, d': seq<byte>, d'': seq<byte>, k: nat)
    requires k >= 1 && SameHeads(d, d', k - 1) && SameHeads(d', d'', k)
    ensures SameHeads(d, d'', k)
  {
    forall j | k <= j && Offset(U64Type, j) <= |d| ensures HeadOf(d'', j) == HeadOf(d, j) {
      assert HeadOf(d'', j) == HeadOf(d', j) == HeadOf(d, j);
    }
  }

  /** Exactly when an account that is not in use is initialized, on the bytes it has: every field has room and a free slot or its own. */
  lemma CellsInitOutcome(d: seq<byte>, name: ArrayString64, fields: seq<Field>)
    requires Named(fields) && !IsInitialized(d) && |fields| >= 1
    ensures CellsInit(d, name, fields).result.Ok? <==> AllFree(d, fields, |fields|)
  {
    if |d| < HEADER_LEN + U64Type.SlotSize() {
      assert Offset(U64Type, 0) == HEADER_LEN && !FieldFree(d, 0, fields[0]);
    } else {
      var d' := InitBytes(d, name, U64Type);
      InitHeader(d, name, U64Type);
      FieldsOutcome(d', fields, |fields|);
      forall i | 0 <= i < |fields| ensures FieldFree(d', i, fields[i]) <==> FieldFree(d, i, fields[i]) {
        if Offset(U64Type, i) <= |d| { InitKeepsHead(d, name, i); }
      }
    }
  }

  lemma InitKeepsHead(d: seq<byte>, name: ArrayString64, i: nat)
    requires HEADER_LEN <= |d| && Offset(U64Type, i) <= |d|
    ensures |InitBytes(d, name, U64Type)| == |d| && HeadOf(InitBytes(d, name, U64Type), i) == HeadOf(d, i)
  {
    var d', o := InitBytes(d, name, U64Type), Offset(U64Type, i);
    SpliceElsewhere(d, 0, LeBytes(1, 4) + LeBytes(0, 4) + [U64Type.ToByte()] + Overlaid(name, d[NAME_OFFSET..HEADER_LEN]), o, |d|);
    assert d'[o..] == d'[o..|d|] && d[o..] == d[o..|d|];
    HeadKept(d, d', o);
  }

  /** The values of the first `k` fields. */
  function Values(fields: seq<Field>, k: nat): (cells: seq<u64>)
    requires k <= |fields|
    ensures |cells| == k && forall i :: 0 <= i < k ==> cells[i] == fields[i].value
  {
    if k == 0 then [] else Values(fields, k - 1) + [fields[k - 1].value]
  }

  /** Slot `i` is live and has the name of the field. */
  ghost predicate LabelAt(d: seq<byte>, i: nat, name: string)
  {
    LaidOut(d) && i < Total(d) && Slots(d)[i].Some? && Slots(d)[i].value.name == FieldName(name)
  }

  ghost predicate Labelled(d: seq<byte>, fields: seq<Field>, k: nat)
    requires k <= |fields|
  {
    forall i :: 0 <= i < k ==> LabelAt(d, i, fields[i].name)
  }

  lemma FilledWrite(d: seq<byte>, n: nat, cells: seq<u64>, f: Field)
    requires Filled(d, n, cells) && |cells| < n <= U32_MAX && |f.name| <= NAME_LEN
    ensures var w := FieldWritten(d, |cells|, f);
            && w.result == Ok(()) && Filled(w.bytes, n, cells + [f.value]) && LabelAt(w.bytes, |cells|, f.name)
            && forall i :: 0 <= i < |cells| ==> Slots(w.bytes)[i] == Slots(d)[i]
  {
    var record := FieldRecord(|cells|, f);
    PlaceIs(d, record.index, record.name);
    var (r, d') := Written(d, Place(d, record.index, record.name), record);
    WriteMeans(d, record, r, d');
    FilledOneMore(d, n, cells, record, r, d');
  }

  /** A write of a number to the next free slot by index, in terms of the write rule. */
  lemma FilledOneMore(d: seq<byte>, n: nat, cells: seq<u64>, record: Record, r: Result<nat>, d': seq<byte>)
    requires Filled(d, n, cells) && |cells| < n && record.index == Some(|cells|) && record.counter == 0
    requires NulFree(record.name) && record.reference.U64? && WriteMeaning(d, record, r, d')
    ensures r.Ok? && Filled(d', n, cells + [record.reference.v64])
    ensures Slots(d')[|cells|].value.name == record.name
    ensures forall i :: 0 <= i < |cells| ==> Slots(d')[i] == Slots(d)[i]
  {
    NulFreeNames(record.name);
  }

  lemma {:induction false} FilledFields(d: seq<byte>, n: nat, fields: seq<Field>, k: nat)
    requires Filled(d, n, []) && Named(fields) && k <= |fields| <= n <= U32_MAX
    ensures FieldsWritten(d, fields, k).result == Ok(()) && Filled(FieldsWritten(d, fields, k).bytes, n, Values(fields, k))
    ensures Labelled(FieldsWritten(d, fields, k).bytes, fields, k)
  {
    FieldsStart(d, fields);
    if k > 0 {
      FilledFields(d, n, fields, k - 1);
      FieldsStep(d, fields, k - 1);
      FilledStep(FieldsWritten(d, fields, k - 1), FieldsWritten(d, fields, k), n, fields, k - 1);
    }
  }

  lemma FilledStep(before: Outcome, after: Outcome, n: nat, fields: seq<Field>, k: nat)
    requires Named(fields) && k < |fields| && k < n <= U32_MAX
    requires before.result.Ok? && Filled(before.bytes, n, Values(fields, k)) && Labelled(before.bytes, fields, k)
    requires after == FieldWritten(before.bytes, k, fields[k])
    ensures after.result == Ok(()) && Filled(after.bytes, n, Values(fields, k) + [fields[k].value]) && Labelled(after.bytes, fields, k + 1)
  {
    FilledWrite(before.bytes, n, Values(fields, k), fields[k]);
    LabelsStay(before.bytes, after.bytes, fields, k);
  }

  lemma LabelsStay(d: seq<byte>, d': seq<byte>, fields: seq<Field>, k: nat)
    requires k < |fields| && LaidOut(d) && LaidOut(d') && Total(d) == Total(d') && k < Total(d)
    requires Labelled(d, fields, k) && LabelAt(d', k, fields[k].name)
    requires forall i :: 0 <= i < k ==> Slots(d')[i] == Slots(d)[i]
    ensures Labelled(d', fields, k + 1)
  {
    forall i | 0 <= i < k ensures LabelAt(d', i, fields[i].name) {
      assert LabelAt(d, i, fields[i].name);
    }
  }

  /** An account of the right size with free slots, such as a zeroed one, becomes a row of named cells with the given values. */
  lemma CellsInitFills(d: seq<byte>, name: ArrayString64, fields: seq<Field>)
    requires 1 <= |fields| && Named(fields) && |d| == CellsLen(|fields|) && !IsInitialized(d) && Vacant(d, U64Type)
    ensures CellsInit(d, name, fields).result == Ok(()) && Filled(CellsInit(d, name, fields).bytes, |fields|, Values(fields, |fields|))
    ensures Labelled(CellsInit(d, name, fields).bytes, fields, |fields|)
  {
    RoomForOne(U64Type, |fields|);
    InitEmpties(d, name, |fields|);
    FilledFields(InitBytes(d, name, U64Type), |fields|, fields, |fields|);
  }

  lemma InitEmpties(d: seq<byte>, name: ArrayString64, n: nat)
    requires 1 <= n <= U32_MAX && |d| == CellsLen(n) && Vacant(d, U64Type)
    ensures HEADER_LEN <= |d| && Filled(InitBytes(d, name, U64Type), n, [])
  {
    InitHeader(d, name, U64Type);
    StorageSizeIsExact(U64Type, n, InitBytes(d, name, U64Type));
    InitWellFormed(d, name, U64Type);
  }

  /** The slots have these names, in this order. */
  ghost predicate Labels(d: seq<byte>, names: seq<string>)
  {
    forall i :: 0 <= i < |names| ==> LabelAt(d, i, names[i])
  }

  lemma LabelsAre(d: seq<byte>, fields: seq<Field>, names: seq<string>)
    requires |names| == |fields| && Labelled(d, fields, |fields|) && forall i :: 0 <= i < |names| ==> fields[i].name == names[i]
    ensures Labels(d, names)
  {
    forall i | 0 <= i < |names| ensures LabelAt(d, i, names[i]) { assert LabelAt(d, i, fields[i].name); }
  }

  /** What initialization promises of an account that is not in use. */
  ghost predicate InitPromise(d: seq<byte>, name: ArrayString64, fields: seq<Field>)
    requires Named(fields)
  {
    var w := CellsInit(d, name, fields);
    && (w.result.Ok? <==> AllFree(d, fields, |fields|))
    && (|d| == CellsLen(|fields|) && Vacant(d, U64Type) ==> w.result.Ok? && Filled(w.bytes, |fields|, Values(fields, |fields|)))
  }

  lemma InitKeepsPromise(d: seq<byte>, name: ArrayString64, fields: seq<Field>)
    requires 1 <= |fields| && Named(fields) && !IsInitialized(d)
    ensures InitPromise(d, name, fields)
  {
    CellsInitOutcome(d, name, fields);
    if |d| == CellsLen(|fields|) && Vacant(d, U64Type) { CellsInitFills(d, name, fields); }
  }

  // ----- cells -----

  function GetCell(d: seq<byte>, i: u32): (r: Result<u64>)
  {
    var found :- ReadAt(d, i);
    if found.Some? && found.value.reference.U64? then Ok(found.value.reference.v64) else Err(UninitializedAccount)
  }

  lemma CellAt(d: seq<byte>, n: nat, cells: seq<u64>, i: u32)
    requires Filled(d, n, cells) && i < |cells|
    ensures GetCell(d, i) == Ok(cells[i])
  {
    ReadAtSpec(d, i);
  }

  method SetCell(data: array<byte>, i: u32, value: u64, ghost n: nat, ghost cells: seq<u64>) returns (r: Result<()>)
    requires Filled(data[..], n, cells) && i < |cells|
    modifies data
    ensures r == Ok(()) && Filled(data[..], n, cells[i := value])
  {
    var written := UpdateAt(data, i, U64(value));
    return Ok(());
  }

  function Accumulated(cells: seq<u64>, i: nat, amount: u64): (cells': seq<u64>)
    requires i < |cells|
  {
    if amount > 0 then cells[i := WrappingAdd(amount, cells[i])] else cells
  }

  /** Adds a nonzero amount to a running total, wrapping around. */
  method AddToCell(data: array<byte>, i: u32, amount: u64, ghost n: nat, ghost cells: seq<u64>) returns (r: Result<()>)
    requires Filled(data[..], n, cells) && i < |cells|
    modifies data
    ensures r == Ok(()) && Filled(data[..], n, Accumulated(cells, i, amount))
  {
    if amount > 0 {
      CellAt(data[..], n, cells, i);
      var balance := WrappingAdd(amount, GetCell(data[..], i).value);
      var _ := SetCell(data, i, balance, n, cells);
    }
    return Ok(());
  }
}
