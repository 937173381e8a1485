/** The bookkeeping account of a vault (farms/vaults/src/vault_info.rs). */
module VaultInfos {
  import opened Bytes
  import opened Pack
  import opened Records
  import opened Layout
  import opened RefDB
  import opened Cells
  import opened Floats

  const CRANK_TIME: u32 := 0
  const CRANK_STEP: u32 := 1
  const TOKEN_A_ADDED: u32 := 2
  const TOKEN_A_REMOVED: u32 := 3
  const TOKEN_B_ADDED: u32 := 4
  const TOKEN_B_REMOVED: u32 := 5
  const TOKEN_A_REWARDS: u32 := 6
  const TOKEN_B_REWARDS: u32 := 7
  const DEPOSIT_ALLOWED: u32 := 8
  const WITHDRAWAL_ALLOWED: u32 := 9
  const MIN_CRANK_INTERVAL: u32 := 10
  const FEE: u32 := 11
  const EXTERNAL_FEE: u32 := 12
  const FIELDS: nat := 13

  /** The cells a fresh account starts with. */
  function Defaults(now: u64, minCrankInterval: u64, fee: u64, externalFee: u64): (cells: seq<u64>)
    ensures |cells| == FIELDS
  {
    [now, 0, 0, 0, 0, 0, 0, 0, 0, 0, minCrankInterval, fee, externalFee]
  }

  /** The fields of a fresh account, in slot order. */
  function Fields(now: u64, minCrankInterval: u64, fee: u64, externalFee: u64): (fields: seq<Field>)
    ensures |fields| == FIELDS && Named(fields)
    ensures Values(fields, FIELDS) == Defaults(now, minCrankInterval, fee, externalFee)
  {
    [Field("CrankTime", now), Field("CrankStep", 0), Field("TokenAAdded", 0), Field("TokenARemoved", 0),
     Field("TokenBAdded", 0), Field("TokenBRemoved", 0), Field("TokenARewards", 0), Field("TokenBRewards", 0),
     Field("DepositAllowed", 0), Field("WithdrawalAllowed", 0), Field("MinCrankInterval", minCrankInterval),
     Field("Fee", fee), Field("ExternalFee", externalFee)]
  }

  datatype Event = Assign(field: u32, value: u64) | Add(fieldA: u32, a: u64, fieldB: u32, b: u64)

  function Step(cells: seq<u64>, e: Event): (cells': seq<u64>)
    requires |cells| == FIELDS
    ensures |cells'| == FIELDS
  {
    match e
    case Assign(field, value) => if field < FIELDS then cells[field := value] else cells
    case Add(fieldA, a, fieldB, b) =>
      if fieldA < FIELDS && fieldB < FIELDS then Accumulated(Accumulated(cells, fieldA, a), fieldB, b) else cells
  }

  class VaultInfo {
    var data: array<byte>
    ghost var cells: seq<u64>

    ghost predicate Valid()
      reads this, data
    {
      |cells| == FIELDS && Filled(data[..], FIELDS, cells)
    }

    constructor (account: array<byte>)
      ensures data == account && cells == []
    {
      data, cells := account, [];
    }

    /** Any account: left alone without an error if in use; otherwise the header and the thirteen fields are written until one fails. */
    method Init(refdbName: ArrayString64, now: u64, minCrankInterval: u64, fee: u64, externalFee: u64) returns (r: Result<()>)
      modifies data, this`cells
      ensures IsInitialized(old(data[..])) ==> r == Ok(()) && data[..] == old(data[..]) && cells == old(cells)
      ensures !IsInitialized(old(data[..])) ==>
                && Outcome(r, data[..]) == CellsInit(old(data[..]), refdbName, Fields(now, minCrankInterval, fee, externalFee))
                && (r.Ok? <==> AllFree(old(data[..]), Fields(now, minCrankInterval, fee, externalFee), FIELDS))
                && (r.Err? ==> cells == old(cells))
      ensures !IsInitialized(old(data[..])) && data.Length == CellsLen(FIELDS) && Vacant(old(data[..]), U64Type) ==>
                r.Ok? && Valid() && cells == Defaults(now, minCrankInterval, fee, externalFee)
    {
      ghost var d, fields := data[..], Fields(now, minCrankInterval, fee, externalFee);
      if IsInitialized(data[..]) {
        return Ok(());
      }
      InitKeepsPromise(d, refdbName, fields);
      var _ :- RefDB.Init(data, refdbName, U64Type);
      r := InitFields(data, now, minCrankInterval, fee, externalFee, fields, data[..]);
      if r.Ok? {
        cells := Values(fields, FIELDS);
      }
    }

    static method InitFields(data: array<byte>, now: u64, minCrankInterval: u64, fee: u64, externalFee: u64,
                             ghost fields: seq<Field>, ghost d: seq<byte>)
      returns (r: Result<()>)
      requires data[..] == d && fields == Fields(now, minCrankInterval, fee, externalFee)
      modifies data
      ensures Outcome(r, data[..]) == FieldsWritten(d, fields, FIELDS)
    {
      FieldsStart(d, fields);
      r := InitField(data, CRANK_TIME, "CrankTime", now, d, fields);
      if r.Err? { return; }
      r := InitField(data, CRANK_STEP, "CrankStep", 0, d, fields);
      if r.Err? { return; }
      r := InitTotals(data, fields, d);
      if r.Err? { return; }
      r := InitRewardsAndSwitches(data, fields, d);
      if r.Err? { return; }
      r := InitField(data, MIN_CRANK_INTERVAL, "MinCrankInterval", minCrankInterval, d, fields);
      if r.Err? { return; }
      r := InitField(data, FEE, "Fee", fee, d, fields);
      if r.Err? { return; }
      r := InitField(data, EXTERNAL_FEE, "ExternalFee", externalFee, d, fields);
    }

    static method InitTotals(data: array<byte>, ghost fields: seq<Field>, ghost d: seq<byte>) returns (r: Result<()>)
      requires |fields| == FIELDS && Named(fields) && Outcome(Ok(()), data[..]) == FieldsWritten(d, fields, TOKEN_A_ADDED)
      requires fields[TOKEN_A_ADDED] == Field("TokenAAdded", 0) && fields[TOKEN_A_REMOVED] == Field("TokenARemoved", 0)
      requires fields[TOKEN_B_ADDED] == Field("TokenBAdded", 0) && fields[TOKEN_B_REMOVED] == Field("TokenBRemoved", 0)
      modifies data
      ensures Outcome(r, data[..]) == FieldsWritten(d, fields, TOKEN_A_REWARDS) && (r.Ok? ==> r == Ok(()))
      ensures r.Err? ==> Outcome(r, data[..]) == FieldsWritten(d, fields, FIELDS)
    {
      r := InitField(data, TOKEN_A_ADDED, "TokenAAdded", 0, d, fields);
      if r.Err? { FieldsStop(d, fields, TOKEN_A_ADDED + 1, TOKEN_A_REWARDS); return; }
      r := InitField(data, TOKEN_A_REMOVED, "TokenARemoved", 0, d, fields);
      if r.Err? { FieldsStop(d, fields, TOKEN_A_REMOVED + 1, TOKEN_A_REWARDS); return; }
      r := InitField(data, TOKEN_B_ADDED, "TokenBAdded", 0, d, fields);
      if r.Err? { FieldsStop(d, fields, TOKEN_B_ADDED + 1, TOKEN_A_REWARDS); return; }
      r := InitField(data, TOKEN_B_REMOVED, "TokenBRemoved", 0, d, fields);
    }

    static method InitRewardsAndSwitches(data: array<byte>, ghost fields: seq<Field>, ghost d: seq<byte>) returns (r: Result<()>)
      requires |fields| == FIELDS && Named(fields) && Outcome(Ok(()), data[..]) == FieldsWritten(d, fields, TOKEN_A_REWARDS)
      requires fields[TOKEN_A_REWARDS] == Field("TokenARewards", 0) && fields[TOKEN_B_REWARDS] == Field("TokenBRewards", 0)
      requires fields[DEPOSIT_ALLOWED] == Field("DepositAllowed", 0) && fields[WITHDRAWAL_ALLOWED] == Field("WithdrawalAllowed", 0)
      modifies data
      ensures Outcome(r, data[..]) == FieldsWritten(d, fields, MIN_CRANK_INTERVAL) && (r.Ok? ==> r == Ok(()))
      ensures r.Err? ==> Outcome(r, data[..]) == FieldsWritten(d, fields, FIELDS)
    {
      r := InitField(data, TOKEN_A_REWARDS, "TokenARewards", 0, d, fields);
      if r.Err? { FieldsStop(d, fields, TOKEN_A_REWARDS + 1, MIN_CRANK_INTERVAL); return; }
      r := InitField(data, TOKEN_B_REWARDS, "TokenBRewards", 0, d, fields);
      if r.Err? { FieldsStop(d, fields, TOKEN_B_REWARDS + 1, MIN_CRANK_INTERVAL); return; }
      r := InitField(data, DEPOSIT_ALLOWED, "DepositAllowed", 0, d, fields);
      if r.Err? { FieldsStop(d, fields, DEPOSIT_ALLOWED + 1, MIN_CRANK_INTERVAL); return; }
      r := InitField(data, WITHDRAWAL_ALLOWED, "WithdrawalAllowed", 0, d, fields);
    }

    /** Stores a value in one cell. */
    method Set(field: u32, value: u64) returns (r: Result<()>)
      requires Valid() && field < FIELDS
      modifies data, this`cells
      ensures Valid() && r.Ok? && cells == old(cells)[field := value]
    {
      r := SetCell(data, field, value, FIELDS, cells);
      cells := cells[field := value];
    }

    method UpdateCrankTime(now: u64) returns (r: Result<()>)
      requires Valid()
      modifies data, this`cells
      ensures Valid() && r.Ok? && cells == old(cells)[CRANK_TIME := now]
    {
      r := Set(CRANK_TIME, now);
    }

    method SetCrankStep(step: u64) returns (r: Result<()>)
      requires Valid()
      modifies data, this`cells
      ensures Valid() && r.Ok? && cells == old(cells)[CRANK_STEP := step]
    {
      r := Set(CRANK_STEP, step);
    }

    method SetMinCrankInterval(seconds: u64) returns (r: Result<()>)
      requires Valid()
      modifies data, this`cells
      ensures Valid() && r.Ok? && cells == old(cells)[MIN_CRANK_INTERVAL := seconds]
    {
      r := Set(MIN_CRANK_INTERVAL, seconds);
    }

    /** `enable_deposit` and `disable_deposit`. */
    method AllowDeposit(allowed: bool) returns (r: Result<()>)
      requires Valid()
      modifies data, this`cells
      ensures Valid() && r.Ok? && cells == old(cells)[DEPOSIT_ALLOWED := if allowed then 1 else 0]
    {
      r := Set(DEPOSIT_ALLOWED, if allowed then 1 else 0);
    }

    /** `enable_withdrawal` and `disable_withdrawal`. */
    method AllowWithdrawal(allowed: bool) returns (r: Result<()>)
      requires Valid()
      modifies data, this`cells
      ensures Valid() && r.Ok? && cells == old(cells)[WITHDRAWAL_ALLOWED := if allowed then 1 else 0]
    {
      r := Set(WITHDRAWAL_ALLOWED, if allowed then 1 else 0);
    }

    /** `set_fee` and `set_external_fee`, given the bits of the number: a fee outside 0.0 to 1.0, or none at all, is refused. */
    method SetFee(field: u32, fee: u64) returns (r: Result<()>)
      requires Valid() && (field == FEE || field == EXTERNAL_FEE)
      modifies data, this`cells
      ensures Valid()
      ensures InUnitRange(FromBits(fee)) ==> r.Ok? && cells == Step(old(cells), Assign(field, fee))
      ensures !InUnitRange(FromBits(fee)) ==> r == Err(InvalidArgument) && cells == old(cells) && data[..] == old(data[..])
    {
      if !InUnitRange(FromBits(fee)) {
        return Err(InvalidArgument);
      }
      r := Set(field, fee);
    }

    /** The shape of `add_liquidity`, `remove_liquidity` and `add_rewards`. */
    method AddTotals(fieldA: u32, a: u64, fieldB: u32, b: u64) returns (r: Result<()>)
      requires Valid() && TOKEN_A_ADDED <= fieldA < fieldB <= TOKEN_B_REWARDS
      modifies data, this`cells
      ensures Valid() && r.Ok? && cells == Step(old(cells), Add(fieldA, a, fieldB, b))
    {
      var _ := AddToCell(data, fieldA, a, FIELDS, cells);
      cells := Accumulated(cells, fieldA, a);
      r := AddToCell(data, fieldB, b, FIELDS, cells);
      cells := Accumulated(cells, fieldB, b);
    }

    method AddLiquidity(a: u64, b: u64) returns (r: Result<()>)
      requires Valid()
      modifies data, this`cells
      ensures Valid() && r.Ok? && cells == Step(old(cells), Add(TOKEN_A_ADDED, a, TOKEN_B_ADDED, b))
    {
      r := AddTotals(TOKEN_A_ADDED, a, TOKEN_B_ADDED, b);
    }

    method RemoveLiquidity(a: u64, b: u64) returns (r: Result<()>)
      requires Valid()
      modifies data, this`cells
      ensures Valid() && r.Ok? && cells == Step(old(cells), Add(TOKEN_A_REMOVED, a, TOKEN_B_REMOVED, b))
    {
      r := AddTotals(TOKEN_A_REMOVED, a, TOKEN_B_REMOVED, b);
    }

    method AddRewards(a: u64, b: u64) returns (r: Result<()>)
      requires Valid()
      modifies data, this`cells
      ensures Valid() && r.Ok? && cells == Step(old(cells), Add(TOKEN_A_REWARDS, a, TOKEN_B_REWARDS, b))
    {
      r := AddTotals(TOKEN_A_REWARDS, a, TOKEN_B_REWARDS, b);
    }

    /** The getters without a cast: crank step and the totals. */
    method Get(field: u32) returns (r: Result<u64>)
      requires Valid() && field < FIELDS
      ensures r == Ok(cells[field])
    {
      CellAt(data[..], FIELDS, cells, field);
      r := GetCell(data[..], field);
    }

    /** `get_fee` and `get_external_fee`: the number with the bits of the cell. */
    method GetFee(field: u32) returns (r: Result<Float>)
      requires Valid() && (field == FEE || field == EXTERNAL_FEE)
      ensures r == Ok(FromBits(cells[field]))
    {
      CellAt(data[..], FIELDS, cells, field);
      return Ok(FromBits(GetCell(data[..], field).value));
    }

    /** `get_crank_time` and `get_min_crank_interval`: signed. */
    method GetTime(field: u32) returns (r: Result<int>)
      requires Valid() && (field == CRANK_TIME || field == MIN_CRANK_INTERVAL)
      ensures r == Ok(Signed(cells[field]))
    {
      CellAt(data[..], FIELDS, cells, field);
      return Ok(Signed(GetCell(data[..], field).value));
    }

    /** `is_deposit_allowed` and `is_withdrawal_allowed`. */
    method IsAllowed(field: u32) returns (r: Result<bool>)
      requires Valid() && (field == DEPOSIT_ALLOWED || field == WITHDRAWAL_ALLOWED)
      ensures r == Ok(cells[field] > 0)
    {
      CellAt(data[..], FIELDS, cells, field);
      return Ok(GetCell(data[..], field).value > 0);
    }
  }

  /** A vault account has 1061 bytes and these thirteen fields, in this order. */
  lemma AccountLayout(d: seq<byte>, name: ArrayString64, now: u64, minCrankInterval: u64, fee: u64, externalFee: u64)
    requires |d| == 1061 && !IsInitialized(d) && Vacant(d, U64Type)
    ensures var w := CellsInit(d, name, Fields(now, minCrankInterval, fee, externalFee));
            && w.result.Ok? && Filled(w.bytes, 13, [now, 0, 0, 0, 0, 0, 0, 0, 0, 0, minCrankInterval, fee, externalFee])
            && Labels(w.bytes, ["CrankTime", "CrankStep", "TokenAAdded", "TokenARemoved", "TokenBAdded", "TokenBRemoved",
                                "TokenARewards", "TokenBRewards", "DepositAllowed", "WithdrawalAllowed", "MinCrankInterval", "Fee", "ExternalFee"])
  {
    var fields := Fields(now, minCrankInterval, fee, externalFee);
    CellsInitFills(d, name, fields);
    LabelsAre(CellsInit(d, name, fields).bytes, fields,
              ["CrankTime", "CrankStep", "TokenAAdded", "TokenARemoved", "TokenBAdded", "TokenBRemoved",
               "TokenARewards", "TokenBRewards", "DepositAllowed", "WithdrawalAllowed", "MinCrankInterval", "Fee", "ExternalFee"]);
  }

  // ----- whole runs -----

  function Run(cells: seq<u64>, events: seq<Event>): (cells': seq<u64>)
    requires |cells| == FIELDS
    ensures |cells'| == FIELDS
    decreases |events|
  {
    if events == [] then cells else Run(Step(cells, events[0]), events[1..])
  }

  predicate WellTyped(e: Event)
  {
    match e
    case Assign(field, _) => field < FIELDS
    case Add(fieldA, _, fieldB, _) => fieldA < FIELDS && fieldB < FIELDS && fieldA != fieldB
  }

  function AddedTo(e: Event, field: nat): (n: nat)
  {
    if e.Assign? then 0 else if e.fieldA == field then e.a else if e.fieldB == field then e.b else 0
  }

  /** A cell after any run, by its own history alone: its last assigned value plus everything added since, modulo 2^64. */
  function CellAfter(value: nat, events: seq<Event>, field: nat): (n: nat)
    decreases |events|
  {
    if events == [] then value
    else if events[0].Assign? && events[0].field == field then CellAfter(events[0].value, events[1..], field)
    else CellAfter(value + AddedTo(events[0], field), events[1..], field)
  }

  lemma {:induction false} CellAfterWraps(value: nat, events: seq<Event>, field: nat)
    ensures CellAfter(value % TWO64, events, field) % TWO64 == CellAfter(value, events, field) % TWO64
    decreases |events|
  {
    if events != [] && !(events[0].Assign? && events[0].field == field) {
      var n := AddedTo(events[0], field);
      WrapThenAdd(value, n);
      CellAfterWraps(value % TWO64 + n, events[1..], field);
      CellAfterWraps(value + n, events[1..], field);
    }
  }

  /** The cells are independent: each depends only on the events that name it. */
  lemma {:induction false} CellsAreIndependent(cells: seq<u64>, events: seq<Event>, field: nat)
    requires |cells| == FIELDS && field < FIELDS && forall k :: 0 <= k < |events| ==> WellTyped(events[k])
    ensures Run(cells, events)[field] == CellAfter(cells[field], events, field) % TWO64
    decreases |events|
  {
    if events == [] {
      assert cells[field] % TWO64 == cells[field];
    } else {
      assert WellTyped(events[0]);
      CellsAreIndependent(Step(cells, events[0]), events[1..], field);
      StepCell(cells, events[0], field);
      if !(events[0].Assign? && events[0].field == field) {
        CellAfterWraps(cells[field] + AddedTo(events[0], field), events[1..], field);
      }
    }
  }

  lemma StepCell(cells: seq<u64>, e: Event, field: nat)
    requires |cells| == FIELDS && field < FIELDS && WellTyped(e)
    ensures Step(cells, e)[field]
            == if e.Assign? && e.field == field then e.value else (cells[field] + AddedTo(e, field)) % TWO64
  {
  }

  /** The events the methods make: fees only in range, sums only into the totals. */
  predicate Made(e: Event)
  {
    match e
    case Assign(field, value) => field < FIELDS && (field == FEE || field == EXTERNAL_FEE ==> InUnitRange(FromBits(value)))
    case Add(fieldA, _, fieldB, _) => TOKEN_A_ADDED <= fieldA < fieldB <= TOKEN_B_REWARDS
  }

  predicate IsLastAssignment(events: seq<Event>, field: nat, k: nat)
  {
    k < |events| && events[k].Assign? && events[k].field == field
    && forall j :: k < j < |events| ==> !(events[j].Assign? && events[j].field == field)
  }

  /** Over any run of calls a cell that is not a total holds what was last stored in it, else its value at the start. */
  lemma {:induction false} SettingsAreLast(cells: seq<u64>, events: seq<Event>, field: nat)
    requires |cells| == FIELDS && field < FIELDS && !(TOKEN_A_ADDED <= field <= TOKEN_B_REWARDS)
    requires forall k :: 0 <= k < |events| ==> Made(events[k])
    ensures forall k: nat :: IsLastAssignment(events, field, k) ==> Run(cells, events)[field] == events[k].value
    ensures (forall j :: 0 <= j < |events| ==> !(events[j].Assign? && events[j].field == field)) ==> Run(cells, events)[field] == cells[field]
    decreases |events|
  {
    if events != [] {
      assert Made(events[0]);
      var rest, next := events[1..], Step(cells, events[0]);
      SettingsAreLast(next, rest, field);
      assert next[field] == if events[0].Assign? && events[0].field == field then events[0].value else cells[field];
      assert forall j :: 0 <= j < |rest| ==> rest[j] == events[j + 1];
      forall k: nat | IsLastAssignment(events, field, k) ensures Run(cells, events)[field] == events[k].value {
        forall j | k - 1 < j < |rest| && 0 <= j ensures !(rest[j].Assign? && rest[j].field == field) { assert rest[j] == events[j + 1]; }
        if k > 0 { assert IsLastAssignment(rest, field, k - 1); }
      }
    }
  }

  /** Over any run of calls a fee that starts between 0.0 and 1.0 stays there. */
  lemma {:induction false} FeesStayInRange(cells: seq<u64>, events: seq<Event>, field: nat)
    requires |cells| == FIELDS && (field == FEE || field == EXTERNAL_FEE) && InUnitRange(FromBits(cells[field]))
    requires forall k :: 0 <= k < |events| ==> Made(events[k])
    ensures InUnitRange(FromBits(Run(cells, events)[field]))
    decreases |events|
  {
    if events != [] {
      assert Made(events[0]);
      FeesStayInRange(Step(cells, events[0]), events[1..], field);
    }
  }
}
