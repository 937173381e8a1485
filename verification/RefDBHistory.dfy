/** Whole histories of calls on the bytes of a storage, from initialization on. */
module RefDBHistory {
  import opened Basics
  import opened Bytes
  import opened Pack
  import opened Records
  import opened Layout
  import opened StorageSpec
  import opened RefDB
  import opened RefDBMap

  /** One call on the bytes: the new buffer decodes to the new slots, and a failed call leaves every byte as it was. */
  ghost predicate ByteStep(d: seq<byte>, op: Op, r: Result<nat>, d': seq<byte>)
  {
    WellFormed(d) && WellFormed(d') && (r, Decode(d')) == Apply(Decode(d), op) && (r.Err? ==> d' == d)
  }

  /** One call of the interface. */
  method Perform(data: array<byte>, op: Op) returns (r: Result<nat>)
    requires WellFormed(data[..]) && Admissible(Decode(data[..]), op)
    modifies data
    ensures ByteStep(old(data[..]), op, r, data[..])
  {
    match op
    case Put(record) =>
      NulFreeNames(record.name);
      r := Write(data, record);
    case Set(name, reference) => r := Update(data, name, reference);
    case SetAt(index, reference) => r := UpdateAt(data, index, reference);
    case Remove(record) => r := Delete(data, record);
  }

  /** A history: buffers `ds`, with call `k` leading from buffer `k` to the next. */
  ghost predicate History(ds: seq<seq<byte>>, ops: seq<Op>, rs: seq<Result<nat>>)
  {
    |ds| == |ops| + 1 && |rs| == |ops| && forall k :: 0 <= k < |ops| ==> ByteStep(ds[k], ops[k], rs[k], ds[k + 1])
  }

  lemma {:induction false} HistoryRuns(ds: seq<seq<byte>>, ops: seq<Op>, rs: seq<Result<nat>>)
    requires History(ds, ops, rs) && WellFormed(ds[0])
    ensures WellFormed(ds[|ops|]) && Decode(ds[|ops|]) == Run(Decode(ds[0]), ops)
    decreases |ops|
  {
    if ops != [] {
      assert ByteStep(ds[0], ops[0], rs[0], ds[1]);
      forall k | 0 <= k < |ops| - 1 ensures ByteStep(ds[1..][k], ops[1..][k], rs[1..][k], ds[1..][k + 1]) {
        assert ByteStep(ds[k + 1], ops[k + 1], rs[k + 1], ds[k + 2]);
      }
      HistoryRuns(ds[1..], ops[1..], rs[1..]);
    }
  }

  /** Every history from a fresh storage: the last bytes are the map run of the calls that took effect. */
  lemma FreshHistory(records: nat, name: ArrayString64, t: ReferenceType,
                     ds: seq<seq<byte>>, ops: seq<Op>, rs: seq<Result<nat>>)
    requires 1 <= records <= U32_MAX
    requires HEADER_LEN <= StorageSizeForRecords(t, records)
    requires History(ds, ops, rs) && ds[0] == InitBytes(Zeros(StorageSizeForRecords(t, records)), name, t)
    requires AllAdmissible(Storage(1, t, Padded(name), seq(records, _ => None)), ops)
    ensures var st := Storage(1, t, Padded(name), seq(records, _ => None));
            var d := ds[|ops|];
            var done := Effective(st, ops);
            && WellFormed(d) && Total(d) == records && Kind(d) == t
            && Distinct(Slots(d))
            && ContentsOf(Slots(d)) == MapRun(map[], done)
            && GetStorageCounter(d) == Ok(Advanced(1, |done|, U32_MAX))
            && GetActiveRecords(d) == Ok(|MapRun(map[], done)|)
            && GetFreeRecords(d) + |MapRun(map[], done)| == records
  {
    var st := Storage(1, t, Padded(name), seq(records, _ => None));
    InitZeroed(records, name, t);
    HistoryRuns(ds, ops, rs);
    EmptyContents(records);
    RunRefines(st, ops);
    HeaderValues(ds[|ops|]);
    ContentsSpec(Slots(ds[|ops|]));
  }

  /** Every history of sound calls by name from a fresh storage: the last bytes are the run of the bounded dictionary. */
  lemma FreshNamedHistory(records: nat, name: ArrayString64, t: ReferenceType,
                          ds: seq<seq<byte>>, ops: seq<Op>, rs: seq<Result<nat>>)
    requires 1 <= records <= U32_MAX
    requires HEADER_LEN <= StorageSizeForRecords(t, records)
    requires History(ds, ops, rs) && ds[0] == InitBytes(Zeros(StorageSizeForRecords(t, records)), name, t)
    requires forall k :: 0 <= k < |ops| ==> Sound(t, ops[k])
    ensures WellFormed(ds[|ops|]) && Distinct(Slots(ds[|ops|]))
    ensures ContentsOf(Slots(ds[|ops|])) == DictionaryRun(map[], records, t, ops)
  {
    var st := Storage(1, t, Padded(name), seq(records, _ => None));
    EmptyContents(records);
    NamedRunIsDictionary(st, ops);
    InitZeroed(records, name, t);
    HistoryRuns(ds, ops, rs);
    RunRefines(st, ops);
  }

  // ----- an account under the main router -----

  datatype Instruction =
    | InitStorage(name: ArrayString64, referenceType: ReferenceType, maxRecords: u32)
    | DropStorage
    | WriteRecord(record: Record)
    | DeleteRecord(record: Record)

  /** The call on an initialized storage that an instruction makes. */
  function OpOf(ix: Instruction): (op: Op)
    requires ix.WriteRecord? || ix.DeleteRecord?
  {
    if ix.WriteRecord? then Put(ix.record) else Remove(ix.record)
  }

  /** What an account means: nothing while it is zeroed, a storage once it is initialized. */
  ghost function Meaning(d: seq<byte>): (m: Option<Storage>)
  {
    if WellFormed(d) then Some(Decode(d)) else None
  }

  /** The states an account goes through. */
  ghost predicate Sane(d: seq<byte>)
  {
    d == Zeros(|d|) || (WellFormed(d) && ValidUtf8(BeforeNul(Decode(d).name)))
  }

  lemma SaneMeans(d: seq<byte>)
    requires Sane(d)
    ensures Meaning(d).None? <==> d == Zeros(|d|)
    ensures IsInitialized(d) <==> Meaning(d).Some?
  {
    if d == Zeros(|d|) {
      ZeroedIsFresh(|d|);
      if HEADER_LEN <= |d| {
        assert d[0..4] == Zeros(4);
        LeNatZeros(4);
      }
    } else {
      HeaderValues(d);
    }
  }

  /** What the router expects of its callers: an account that is initialized fits whole slots, and calls on it are admissible. */
  predicate Allowed(n: nat, m: Option<Storage>, ix: Instruction)
  {
    match ix
    case InitStorage(_, t, _) => m.None? && HEADER_LEN + t.SlotSize() <= n ==> FitsSlots(n, t)
    case DropStorage => true
    case WriteRecord(record) => record.reference.Valid() && (m.Some? ==> Admissible(m.value, OpOf(ix)))
    case DeleteRecord(_) => m.Some? ==> Admissible(m.value, OpOf(ix))
  }

  /** Where a record goes in `n` zero bytes, which read as a storage of keys that counts no record. */
  function ZeroedPlace(n: nat, index: Option<u32>): (r: Result<nat>)
  {
    var offset := HEADER_LEN + (if index.Some? then index.value * PubkeyType.SlotSize() else 0);
    if n < offset then Err(AccountDataTooSmall) else Ok(offset)
  }

  /** How a write on a zeroed account fails. */
  function ZeroedWriteError(n: nat, record: Record): (e: Error)
  {
    var place := ZeroedPlace(n, record.index);
    if place.Err? || n < place.value + NO_REF_LEN then AccountDataTooSmall
    else if record.reference.Type() != PubkeyType then Custom(409)
    else UninitializedAccount
  }

  /** A delete on a zeroed account finds nothing, or lacks room. */
  function ZeroedDelete(n: nat, record: Record): (r: Result<()>)
  {
    var place := ZeroedPlace(n, record.index);
    if place.Err? || n < place.value + record.Size() then Err(AccountDataTooSmall) else Ok(())
  }

  function EmptyStorage(n: nat, name: ArrayString64, t: ReferenceType): (st: Storage)
    requires HEADER_LEN <= n
  {
    Storage(1, t, Padded(name), seq(RecordsIn(n - HEADER_LEN, t.SlotSize()), _ => None))
  }

  function Unit(r: Result<nat>): (u: Result<()>)
  {
    if r.Ok? then Ok(()) else Err(r.error)
  }

  /** One instruction on an account of `n` bytes. A drop that fails is not reported. */
  function Instructed(n: nat, m: Option<Storage>, ix: Instruction): (r: (Result<()>, Option<Storage>))
    requires Allowed(n, m, ix)
  {
    match ix
    case InitStorage(name, t, maxRecords) =>
      if maxRecords == 0 then (Err(InvalidArgument), m)
      else if m.Some? then (Err(AccountAlreadyInitialized), m)
      else if n < HEADER_LEN + t.SlotSize() then (Err(AccountDataTooSmall), m)
      else (Ok(()), Some(EmptyStorage(n, name, t)))
    case DropStorage => (Ok(()), if HEADER_LEN <= n <= 2000 then None else m)
    case WriteRecord(record) =>
      if m.None? then (Err(ZeroedWriteError(n, record)), m)
      else var (r, st) := Apply(m.value, OpOf(ix)); (Unit(r), Some(st))
    case DeleteRecord(record) =>
      if m.None? then (ZeroedDelete(n, record), m)
      else var (r, st) := Apply(m.value, OpOf(ix)); (Unit(r), Some(st))
  }

  ghost predicate DispatchStep(d: seq<byte>, ix: Instruction, r: Result<()>, d': seq<byte>)
  {
    && Sane(d) && Sane(d') && |d'| == |d| && Allowed(|d|, Meaning(d), ix)
    && (r, Meaning(d')) == Instructed(|d|, Meaning(d), ix)
    && (r.Err? ==> d' == d)
  }

  /** `process_refdb_instruction`, without the creation and closing of accounts. */
  method Dispatch(data: array<byte>, ix: Instruction) returns (r: Result<()>)
    requires Sane(data[..]) && Allowed(data.Length, Meaning(data[..]), ix)
    modifies data
    ensures DispatchStep(old(data[..]), ix, r, data[..])
  {
    SaneMeans(data[..]);
    match ix {
      case InitStorage(name, t, maxRecords) =>
        if maxRecords == 0 {
          return Err(InvalidArgument);
        }
        r := DispatchInit(data, name, t);
      case DropStorage =>
        var _ := RefDB.Drop(data);
        SaneMeans(data[..]);
        r := Ok(());
      case WriteRecord(_) => r := DispatchOp(data, ix);
      case DeleteRecord(_) => r := DispatchOp(data, ix);
    }
  }

  /** Exactly when an account is initialized, and that it is then empty. */
  lemma InitEffect(d: seq<byte>, ix: Instruction, r: Result<()>, d': seq<byte>)
    requires DispatchStep(d, ix, r, d') && ix.InitStorage?
    ensures r.Ok? <==> ix.maxRecords > 0 && d == Zeros(|d|) && 73 + 68 + ix.referenceType.Size() <= |d|
    ensures r.Ok? ==> WellFormed(d') && Kind(d') == ix.referenceType && ContentsOf(Slots(d')) == map[]
  {
    SaneMeans(d);
    if r.Ok? { EmptyContents(RecordsIn(|d| - HEADER_LEN, ix.referenceType.SlotSize())); }
  }

  /** A drop never fails; it zeroes an account of 73 to 2000 bytes and leaves what any other holds. */
  lemma DropEffect(d: seq<byte>, ix: Instruction, r: Result<()>, d': seq<byte>)
    requires DispatchStep(d, ix, r, d') && ix.DropStorage?
    ensures r.Ok? && if 73 <= |d| <= 2000 then d' == Zeros(|d|) else Meaning(d') == Meaning(d)
  {
    SaneMeans(d');
  }

  /** A write that succeeds stores the record's tag and value under its name and changes no other name. */
  lemma WriteEffect(d: seq<byte>, ix: Instruction, r: Result<()>, d': seq<byte>)
    requires DispatchStep(d, ix, r, d') && ix.WriteRecord? && r.Ok? && (WellFormed(d) ==> Distinct(Slots(d)))
    ensures WellFormed(d) && WellFormed(d') && ix.record.name in ContentsOf(Slots(d'))
    ensures ContentsOf(Slots(d'))[ix.record.name].tag == ix.record.tag
    ensures ContentsOf(Slots(d'))[ix.record.name].reference == ix.record.reference
    ensures ContentsOf(Slots(d')) - {ix.record.name} == ContentsOf(Slots(d)) - {ix.record.name}
  {
    SaneMeans(d);
    StepRefines(Decode(d), OpOf(ix));
  }

  /** A delete that succeeds changes no other name, and by name it leaves the name absent. */
  lemma DeleteEffect(d: seq<byte>, ix: Instruction, r: Result<()>, d': seq<byte>)
    requires DispatchStep(d, ix, r, d') && ix.DeleteRecord? && r.Ok? && WellFormed(d) && Distinct(Slots(d))
    ensures WellFormed(d') && ContentsOf(Slots(d')) - {ix.record.name} == ContentsOf(Slots(d)) - {ix.record.name}
    ensures ix.record.index.None? ==> ix.record.name !in ContentsOf(Slots(d'))
  {
    StepRefines(Decode(d), OpOf(ix));
    if ix.record.index.None? { NamedOutcome(Decode(d), OpOf(ix)); }
  }

  method DispatchInit(data: array<byte>, name: ArrayString64, t: ReferenceType) returns (r: Result<()>)
    requires Sane(data[..]) && (Meaning(data[..]).None? && HEADER_LEN + t.SlotSize() <= data.Length ==> FitsSlots(data.Length, t))
    modifies data
    ensures r.Err? ==> data[..] == old(data[..])
                       && r.error == if Meaning(data[..]).Some? then AccountAlreadyInitialized else AccountDataTooSmall
    ensures r.Ok? <==> Meaning(old(data[..])).None? && HEADER_LEN + t.SlotSize() <= data.Length
    ensures r.Ok? ==> r == Ok(()) && Sane(data[..]) && Meaning(data[..]) == Some(EmptyStorage(data.Length, name, t))
  {
    SaneMeans(data[..]);
    if HEADER_LEN + t.SlotSize() <= data.Length && Meaning(data[..]).None? { InitMeans(data.Length, name, t); }
    var _ :- RefDB.Init(data, name, t);
    return Ok(());
  }

  method DispatchOp(data: array<byte>, ix: Instruction) returns (r: Result<()>)
    requires Sane(data[..]) && Allowed(data.Length, Meaning(data[..]), ix) && (ix.WriteRecord? || ix.DeleteRecord?)
    modifies data
    ensures DispatchStep(old(data[..]), ix, r, data[..])
  {
    ghost var d := data[..];
    SaneMeans(d);
    if Meaning(d).None? { ZeroedNothingToScan(d); }
    var done;
    if ix.WriteRecord? {
      done := Write(data, ix.record);
    } else {
      done := Delete(data, ix.record);
    }
    if Meaning(d).Some? {
      OpIsDispatch(d, ix, done, data[..]);
    } else {
      ZeroedIsDispatch(d, ix, done, data[..]);
    }
    r := Unit(done);
  }

  lemma ZeroedNothingToScan(d: seq<byte>)
    requires d == Zeros(|d|)
    ensures NothingToScan(d)
  {
    if HEADER_LEN <= |d| {
      assert d[4..8] == Zeros(4);
      LeNatZeros(4);
    }
  }

  /** What a zeroed account shows to a write or a delete. */
  lemma ZeroedReads(d: seq<byte>, record: Record)
    requires d == Zeros(|d|) && NothingToScan(d)
    ensures Place(d, record.index, record.name) == ZeroedPlace(|d|, record.index)
    ensures HEADER_LEN <= |d| ==> GetReferenceType(d) == Ok(PubkeyType) && GetStorageCounter(d) == Err(UninitializedAccount)
    ensures forall o :: 0 <= o <= |d| ==> GetRecordCounterAndName(d, o) == if |d| < o + NO_REF_LEN then Err(AccountDataTooSmall) else Ok((0, []))
  {
    if HEADER_LEN <= |d| {
      assert d[0..4] == Zeros(4);
      LeNatZeros(4);
    }
    forall o | 0 <= o <= |d|
      ensures GetRecordCounterAndName(d, o) == if |d| < o + NO_REF_LEN then Err(AccountDataTooSmall) else Ok((0, []))
    {
      ZeroHead(|d| - o);
      assert d[o..] == Zeros(|d| - o);
    }
  }

  lemma ZeroHead(n: nat)
    ensures UnpackCounterAndName(Zeros(n)) == if n < NO_REF_LEN then Err(AccountDataTooSmall) else Ok((0, []))
  {
    if NO_REF_LEN <= n {
      assert Zeros(n)[0..2] == Zeros(2) && Zeros(n)[4..NO_REF_LEN] == Padded([]);
      LeNatZeros(2);
      UnpackPadded([]);
    }
  }

  lemma ZeroedIsDispatch(d: seq<byte>, ix: Instruction, done: Result<nat>, d': seq<byte>)
    requires Sane(d) && d == Zeros(|d|) && NothingToScan(d) && Allowed(|d|, Meaning(d), ix)
    requires ix.WriteRecord? || ix.DeleteRecord?
    requires PlaceInside(d, ix.record)
    requires ix.WriteRecord? ==> WriteOutcome(d, Place(d, ix.record.index, ix.record.name), ix.record, done, d')
    requires ix.DeleteRecord? ==> DeleteOutcome(d, Place(d, ix.record.index, ix.record.name), ix.record, done, d')
    ensures DispatchStep(d, ix, Unit(done), d')
  {
    SaneMeans(d);
    ZeroedReads(d, ix.record);
  }

  lemma OpIsDispatch(d: seq<byte>, ix: Instruction, done: Result<nat>, d': seq<byte>)
    requires Sane(d) && WellFormed(d) && Allowed(|d|, Meaning(d), ix) && (ix.WriteRecord? || ix.DeleteRecord?)
    requires ix.WriteRecord? ==> WriteMeaning(d, ix.record, done, d')
    requires ix.DeleteRecord? ==> DeleteMeaning(d, ix.record, done, d')
    requires |d'| == |d|
    ensures DispatchStep(d, ix, Unit(done), d')
  {
    NulFreeNames(ix.record.name);
    NameIsFixed(Decode(d), OpOf(ix));
    SaneMeans(d);
  }

  lemma NameIsFixed(st: Storage, op: Op)
    ensures Apply(st, op).1.name == st.name
  {
  }

  lemma InitMeans(n: nat, name: ArrayString64, t: ReferenceType)
    requires HEADER_LEN <= n && FitsSlots(n, t)
    ensures var d := InitBytes(Zeros(n), name, t);
            |d| == n && Sane(d) && Meaning(d) == Some(EmptyStorage(n, name, t))
  {
    InitHeader(Zeros(n), name, t);
    InitFresh(n, name, t);
    PaddedReads(name);
  }

  /** What the account holds and the changes made to it since it was last initialized. */
  datatype Account = Account(storage: Option<Storage>, log: seq<Change>)

  function AccountStep(n: nat, a: Account, ix: Instruction): (a': Account)
    requires Allowed(n, a.storage, ix)
  {
    var (r, m) := Instructed(n, a.storage, ix);
    match ix
    case InitStorage(_, _, _) => Account(m, if r.Ok? then [] else a.log)
    case DropStorage => Account(m, a.log)
    case WriteRecord(_) => Account(m, Logged(a, ix))
    case DeleteRecord(_) => Account(m, Logged(a, ix))
  }

  function Logged(a: Account, ix: Instruction): (log: seq<Change>)
    requires ix.WriteRecord? || ix.DeleteRecord?
  {
    if a.storage.Some? && Took(Apply(a.storage.value, OpOf(ix)).0) then a.log + [ChangeOf(a.storage.value, OpOf(ix))] else a.log
  }

  predicate AllAllowed(n: nat, a: Account, ixs: seq<Instruction>)
    decreases |ixs|
  {
    ixs == [] || (Allowed(n, a.storage, ixs[0]) && AllAllowed(n, AccountStep(n, a, ixs[0]), ixs[1..]))
  }

  function AccountRun(n: nat, a: Account, ixs: seq<Instruction>): (a': Account)
    requires AllAllowed(n, a, ixs)
    decreases |ixs|
  {
    if ixs == [] then a else AccountRun(n, AccountStep(n, a, ixs[0]), ixs[1..])
  }

  /** An initialized account is the map run of its log. */
  ghost predicate LogExplains(a: Account)
  {
    a.storage.Some? ==>
      var st := a.storage.value;
      Distinct(st.slots) && ContentsOf(st.slots) == MapRun(map[], a.log) && st.counter == Advanced(1, |a.log|, U32_MAX)
  }

  lemma {:induction false} MapRunSnoc(m: Contents, log: seq<Change>, c: Change)
    ensures MapRun(m, log + [c]) == MapStep(MapRun(m, log), c)
    decreases |log|
  {
    if log != [] {
      assert (log + [c])[1..] == log[1..] + [c];
      MapRunSnoc(MapStep(m, log[0]), log[1..], c);
    } else {
      assert (log + [c])[1..] == [];
    }
  }

  lemma AccountStepExplained(n: nat, a: Account, ix: Instruction)
    requires LogExplains(a) && Allowed(n, a.storage, ix)
    ensures LogExplains(AccountStep(n, a, ix))
  {
    match ix
    case InitStorage(name, t, _) =>
      if HEADER_LEN <= n { EmptyContents(RecordsIn(n - HEADER_LEN, t.SlotSize())); }
      AdvancedStep(1, 0, U32_MAX);
    case DropStorage =>
    case WriteRecord(_) => if a.storage.Some? { OpExplained(a, OpOf(ix)); }
    case DeleteRecord(_) => if a.storage.Some? { OpExplained(a, OpOf(ix)); }
  }

  lemma OpExplained(a: Account, op: Op)
    requires LogExplains(a) && a.storage.Some? && Admissible(a.storage.value, op)
    ensures var (r, st') := Apply(a.storage.value, op);
            LogExplains(Account(Some(st'), if Took(r) then a.log + [ChangeOf(a.storage.value, op)] else a.log))
  {
    var st := a.storage.value;
    StepRefines(st, op);
    MapRunSnoc(map[], a.log, ChangeOf(st, op));
    AdvancedNext(1, |a.log|, U32_MAX);
  }

  lemma EmptyContents(records: nat)
    ensures var s: seq<Option<Entry>> := seq(records, _ => None); Distinct(s) && ContentsOf(s) == map[]
  {
    var s: seq<Option<Entry>> := seq(records, _ => None);
    ContentsSpec(s);
    LivePrefix(s, 0, records);
    assert LiveIn(s, 0) == 0;
  }

  /** A history of an account: buffers `ds`, with instruction `k` leading from buffer `k` to the next. */
  ghost predicate AccountHistory(ds: seq<seq<byte>>, ixs: seq<Instruction>, rs: seq<Result<()>>)
  {
    |ds| == |ixs| + 1 && |rs| == |ixs| && forall k :: 0 <= k < |ixs| ==> DispatchStep(ds[k], ixs[k], rs[k], ds[k + 1])
  }

  lemma {:induction false} AccountHistoryRuns(ds: seq<seq<byte>>, ixs: seq<Instruction>, rs: seq<Result<()>>, a: Account)
    requires AccountHistory(ds, ixs, rs) && Sane(ds[0]) && a.storage == Meaning(ds[0]) && LogExplains(a)
    ensures AllAllowed(|ds[0]|, a, ixs)
    ensures Sane(ds[|ixs|]) && Meaning(ds[|ixs|]) == AccountRun(|ds[0]|, a, ixs).storage
    ensures LogExplains(AccountRun(|ds[0]|, a, ixs))
    decreases |ixs|
  {
    if ixs != [] {
      assert DispatchStep(ds[0], ixs[0], rs[0], ds[1]);
      forall k | 0 <= k < |ixs| - 1 ensures DispatchStep(ds[1..][k], ixs[1..][k], rs[1..][k], ds[1..][k + 1]) {
        assert DispatchStep(ds[k + 1], ixs[k + 1], rs[k + 1], ds[k + 2]);
      }
      AccountStepExplained(|ds[0]|, a, ixs[0]);
      AccountHistoryRuns(ds[1..], ixs[1..], rs[1..], AccountStep(|ds[0]|, a, ixs[0]));
    }
  }

  /**
   * Every history of a zeroed account under the router, with any number of initializations and drops: afterwards it is
   * zeroed, or it holds exactly the map run of the changes since it was last initialized, which its counter has counted.
   */
  lemma AccountAlwaysExplained(ds: seq<seq<byte>>, ixs: seq<Instruction>, rs: seq<Result<()>>)
    requires AccountHistory(ds, ixs, rs) && ds[0] == Zeros(|ds[0]|)
    ensures var a0 := Account(None, []);
            && AllAllowed(|ds[0]|, a0, ixs)
            && var a, d := AccountRun(|ds[0]|, a0, ixs), ds[|ixs|];
               && (a.storage.None? ==> d == Zeros(|d|))
               && (a.storage.Some? ==> WellFormed(d) && Distinct(Slots(d)) && ContentsOf(Slots(d)) == MapRun(map[], a.log)
                                       && GetStorageCounter(d) == Ok(Advanced(1, |a.log|, U32_MAX)))
  {
    SaneMeans(ds[0]);
    AccountHistoryRuns(ds, ixs, rs, Account(None, []));
    SaneMeans(ds[|ixs|]);
    if WellFormed(ds[|ixs|]) { HeaderValues(ds[|ixs|]); }
  }

  // ----- what callers must not do -----

  /** One letter is a name. */
  lemma Letter(c: byte)
    requires 0 < c <= 0x7F
    ensures ValidUtf8([c]) && NulFree([c])
  {
    assert [c][..1] == [c] && [c][1..] == [] && Utf8Sequence([c][..1]);
  }

  /** Stores a one-letter name in a free slot of a storage for references without a value. */
  lemma StoreLetter(d: seq<byte>, i: nat, c: byte) returns (d': seq<byte>)
    requires WellFormed(d) && Kind(d) == EmptyType && i < Total(d) && Slots(d)[i].None? && 0 < c <= 0x7F
    ensures WellFormed(d') && Kind(d') == EmptyType && |d'| == |d| && Slots(d') == Slots(d)[i := Some(Entry(1, 0, [c], Empty))]
  {
    Letter(c);
    NulFreeNames([c]);
    var record := Record(None, 0, 0, [c], Empty);
    StoredRecordDecodes(d, i, record);
    d' := WithRecord(d, i, record);
  }

  /** An empty storage for two records without a value. */
  lemma TwoSlots() returns (d: seq<byte>)
    ensures WellFormed(d) && Kind(d) == EmptyType && |d| == HEADER_LEN + 2 * NO_REF_LEN && Slots(d) == [None, None]
  {
    InitZeroed(2, [], EmptyType);
    d := InitBytes(Zeros(StorageSizeForRecords(EmptyType, 2)), [], EmptyType);
  }

  /** A storage with two one-letter records and no room for a third. */
  lemma TwoLetters() returns (d: seq<byte>)
    ensures WellFormed(d) && Kind(d) == EmptyType && |d| == HEADER_LEN + 2 * NO_REF_LEN
    ensures Slots(d) == [Some(Entry(1, 0, [97], Empty)), Some(Entry(1, 0, [98], Empty))]
  {
    d := TwoSlots();
    d := StoreLetter(d, 0, 97);
    d := StoreLetter(d, 1, 98);
  }

  /** Writing a stored name by index into a free slot succeeds and stores the name twice. */
  lemma DuplicateExample() returns (d: seq<byte>, record: Record)
    ensures WellFormed(d) && Distinct(Slots(d)) && record.reference.Valid() && PlaceInside(d, record)
    ensures forall r, d' :: WriteOutcome(d, Place(d, record.index, record.name), record, r, d') ==>
                              r.Ok? && WellFormed(d') && !Distinct(Slots(d'))
  {
    Letter(97);
    NulFreeNames([97]);
    d := TwoSlots();
    d := StoreLetter(d, 0, 97);
    record := Record(Some(1), 0, 0, [97], Empty);
    PlaceIs(d, record.index, record.name);
    FindNameIs(Slots(d), [97], 0);
    WriteKeepsDistinct(Decode(d), record);
    forall r, d' | WriteOutcome(d, Place(d, record.index, record.name), record, r, d')
      ensures r.Ok? && WellFormed(d') && !Distinct(Slots(d'))
    {
      WriteMeans(d, record, r, d');
    }
  }

  /** Names stored in a well-formed storage have no NUL. */
  lemma StoredNamesAreNulFree(d: seq<byte>)
    requires WellFormed(d)
    ensures NulFreeSlots(Slots(d))
  {
    forall i | 0 <= i < |Slots(d)| && Slots(d)[i].Some? ensures NulFree(Slots(d)[i].value.name) { SlotFields(d, i); }
  }

  /**
   * On the bytes: a write of a name with a NUL that succeeds leaves it stored up to the NUL and not found under the name
   * written, and the storage well formed exactly when nothing follows the NUL.
   */
  lemma LostName(d: seq<byte>, record: Record, r: Result<nat>, d': seq<byte>)
    requires WellFormed(d) && record.reference.Valid() && !NulFree(record.name) && PlaceInside(d, record)
    requires WriteOutcome(d, Place(d, record.index, record.name), record, r, d') && r.Ok?
    ensures LaidOut(d') && (WellFormed(d') <==> NulsAtEnd(record.name))
    ensures FindName(Slots(d'), record.name).None? && FindName(Slots(d'), BeforeNul(record.name)).Some?
  {
    WriteMeans(d, record, r, d');
    StoredNamesAreNulFree(d);
    NulNamesAreLost(Decode(d), record);
  }

  /** Such a name: "a", NUL, "b" in an empty storage. */
  lemma NulNameExample() returns (d: seq<byte>, record: Record)
    ensures WellFormed(d) && record.name == [97, 0, 98] && record.reference.Valid() && PlaceInside(d, record)
    ensures ApplyWrite(Decode(d), record).0.Ok? && !NulFree(record.name) && !NulsAtEnd(record.name)
  {
    var name := [97, 0, 98];
    LettersAroundNul(name);
    d := TwoSlots();
    record := Record(None, 0, 0, name, Empty);
    FirstRecordFits(d, record);
  }

  /** An empty storage takes any record of its type. */
  lemma FirstRecordFits(d: seq<byte>, record: Record)
    requires WellFormed(d) && Slots(d) == [None, None] && record.index.None? && record.reference.Type() == Kind(d)
    ensures ApplyWrite(Decode(d), record).0.Ok? && PlaceInside(d, record)
  {
    FindNameSpec(Slots(d), record.name);
    FirstFreeIs(Slots(d), 0);
    PlaceIs(d, record.index, record.name);
  }

  lemma LettersAroundNul(name: seq<byte>)
    requires name == [97, 0, 98]
    ensures ValidUtf8(name) && BeforeNul(name) == [97] && !NulsAtEnd(name) && !NulFree(name)
  {
    Letter(98);
    assert name[..1] == [97] && name[1..] == [0, 98] && Utf8Sequence(name[..1]);
    assert [0, 98][..1] == [0] && [0, 98][1..] == [98] && Utf8Sequence([0, 98][..1]);
    BeforeNulUnique(name, [97]);
    assert name[2] != 0 && name[1] == 0;
  }

  /** Deleting with a reference type larger than the storage's succeeds, loses the next record too, and leaves it counted. */
  lemma OversizedDeleteExample() returns (d: seq<byte>, record: Record)
    ensures WellFormed(d) && Total(d) == 2 && Slots(d)[0].Some? && Slots(d)[1].Some? && PlaceInside(d, record)
    ensures DeleteResult(d, record) == Ok(PubkeyType.SlotSize())
    ensures forall r, d' :: DeleteOutcome(d, Place(d, record.index, record.name), record, r, d') ==>
                              && r == Ok(PubkeyType.SlotSize()) && LaidOut(d') && !WellFormed(d')
                              && Slots(d') == [None, None] && LeNat(d'[4..8]) == 1
  {
    Letter(97);
    d := TwoLetters();
    record := Record(None, 0, 0, [97], Pubkey(Zeros(32)));
    FindNameIs(Slots(d), [97], 0);
    PlaceIs(d, record.index, record.name);
    OversizedErasure(d, 0, PubkeyType.SlotSize());
    LivePrefix(Slots(Erased(d, 0, PubkeyType.SlotSize())), 0, 2);
    forall r, d' | DeleteOutcome(d, Place(d, record.index, record.name), record, r, d')
      ensures && r == Ok(PubkeyType.SlotSize()) && LaidOut(d') && !WellFormed(d')
              && Slots(d') == [None, None] && LeNat(d'[4..8]) == 1
    {
      DeleteMeans(d, record, r, d');
    }
  }

  /** Updating with a larger reference type than the storage's overwrites the next record. */
  lemma OversizedUpdateExample() returns (d: seq<byte>, d': seq<byte>)
    ensures WellFormed(d) && Total(d) == 2 && Slots(d)[0].Some? && Slots(d)[1].Some?
    ensures UpdateStep(d, 0, Pubkey(Zeros(32)), d') && !UpdatesOnly(d, 0, Pubkey(Zeros(32)), d')
  {
    d := TwoLetters();
    var reference, e := Pubkey(Zeros(32)), Slots(d)[0].value;
    SlotFields(d, 0);
    d' := Splice(Bumped(d), Offset(Kind(d), 0), UpdatedSlot(e.counter, e.tag, e.name, reference));
    UpdateIsLocal(d, 0, reference, d');
    SlotAt(d, 1);
    ZerosUnnoticed(Kind(d), RawSlot(d, 1), 32);
  }
}
