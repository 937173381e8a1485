/** The per-user bookkeeping account of a vault (farms/vaults/src/user_info.rs). */
module UserInfos {
  import opened Basics
  import opened Bytes
  import opened Pack
  import opened Records
  import opened Layout
  import opened RefDB
  import opened Cells

  const LAST_DEPOSIT: u32 := 0
  const LAST_WITHDRAWAL: u32 := 1
  const TOKEN_A_ADDED: u32 := 2
  const TOKEN_A_REMOVED: u32 := 3
  const TOKEN_B_ADDED: u32 := 4
  const TOKEN_B_REMOVED: u32 := 5
  const LP_TOKENS_DEBT: u32 := 6
  const USER_BUMP: u32 := 7
  const FIELDS: nat := 8

  datatype Event =
    | AddLiquidity(a: u64, b: u64, now: u64)
    | RemoveLiquidity(a: u64, b: u64, now: u64)
    | AddDebt(amount: u64)
    | RemoveDebt(amount: u64)

  /** What each call does to the eight cells, and whether it succeeds. */
  function Step(cells: seq<u64>, e: Event): (r: (Result<()>, seq<u64>))
    requires |cells| == FIELDS
    ensures |r.1| == FIELDS
  {
    match e
    case AddLiquidity(a, b, now) =>
      var added := Accumulated(Accumulated(cells, TOKEN_A_ADDED, a), TOKEN_B_ADDED, b);
      (Ok(()), if a > 0 || b > 0 then added[LAST_DEPOSIT := now] else added)
    case RemoveLiquidity(a, b, now) =>
      var removed := Accumulated(Accumulated(cells, TOKEN_A_REMOVED, a), TOKEN_B_REMOVED, b);
      (Ok(()), if a > 0 || b > 0 then removed[LAST_WITHDRAWAL := now] else removed)
    case AddDebt(amount) =>
      if amount + cells[LP_TOKENS_DEBT] > U64_MAX then (Err(Custom(999)), cells)
      else (Ok(()), cells[LP_TOKENS_DEBT := amount + cells[LP_TOKENS_DEBT]])
    case RemoveDebt(amount) =>
      var debt := cells[LP_TOKENS_DEBT];
      (Ok(()), cells[LP_TOKENS_DEBT := if debt <= amount then 0 else debt - amount])
  }

  /** The fields of a fresh account, in slot order. */
  function Fields(userBump: byte): (fields: seq<Field>)
    ensures |fields| == FIELDS && Named(fields)
    ensures Values(fields, FIELDS) == [0, 0, 0, 0, 0, 0, 0, userBump]
  {
    [Field("LastDeposit", 0), Field("LastWithdrawal", 0), Field("TokenAAdded", 0), Field("TokenARemoved", 0),
     Field("TokenBAdded", 0), Field("TokenBRemoved", 0), Field("LpTokensDebt", 0), Field("UserBump", userBump)]
  }

  class UserInfo {
    var data: array<byte>
    ghost var cells: seq<u64>

    ghost predicate Valid()
      reads this, data
    {
      |cells| == FIELDS && Filled(data[..], FIELDS, cells)
    }

    constructor (account: array<byte>)
      ensures data == account && cells == []
    {
      data, cells := account, [];
    }

    /** Any account: refused if in use; otherwise the header and the eight fields are written until one fails. */
    method Init(refdbName: ArrayString64, userBump: byte) returns (r: Result<()>)
      modifies data, this`cells
      ensures Outcome(r, data[..]) == CellsInit(old(data[..]), refdbName, Fields(userBump))
      ensures !IsInitialized(old(data[..])) ==>
                (r.Ok? <==> AllFree(old(data[..]), Fields(userBump), FIELDS))
      ensures !IsInitialized(old(data[..])) && data.Length == CellsLen(FIELDS) && Vacant(old(data[..]), U64Type) ==>
                r.Ok? && Valid() && cells == [0, 0, 0, 0, 0, 0, 0, userBump]
      ensures r.Err? ==> cells == old(cells)
    {
      ghost var d, fields := data[..], Fields(userBump);
      if !IsInitialized(d) { InitKeepsPromise(d, refdbName, fields); }
      var _ :- RefDB.Init(data, refdbName, U64Type);
      r := InitFields(data, userBump, data[..]);
      if r.Ok? {
        cells := Values(fields, FIELDS);
      }
    }

    static method InitFields(data: array<byte>, userBump: byte, ghost d: seq<byte>) returns (r: Result<()>)
      requires data[..] == d
      modifies data
      ensures Outcome(r, data[..]) == FieldsWritten(d, Fields(userBump), FIELDS)
    {
      ghost var fields := Fields(userBump);
      FieldsStart(d, fields);
      r := InitField(data, LAST_DEPOSIT, "LastDeposit", 0, d, fields);
      if r.Err? { return; }
      r := InitField(data, LAST_WITHDRAWAL, "LastWithdrawal", 0, d, fields);
      if r.Err? { return; }
      r := InitTotals(data, userBump, d);
      if r.Err? { return; }
      r := InitField(data, LP_TOKENS_DEBT, "LpTokensDebt", 0, d, fields);
      if r.Err? { return; }
      r := InitField(data, USER_BUMP, "UserBump", userBump, d, fields);
    }

    static method InitTotals(data: array<byte>, ghost userBump: byte, ghost d: seq<byte>) returns (r: Result<()>)
      requires Outcome(Ok(()), data[..]) == FieldsWritten(d, Fields(userBump), TOKEN_A_ADDED)
      modifies data
      ensures Outcome(r, data[..]) == FieldsWritten(d, Fields(userBump), LP_TOKENS_DEBT) && (r.Ok? ==> r == Ok(()))
      ensures r.Err? ==> Outcome(r, data[..]) == FieldsWritten(d, Fields(userBump), FIELDS)
    {
      ghost var fields := Fields(userBump);
      r := InitField(data, TOKEN_A_ADDED, "TokenAAdded", 0, d, fields);
      if r.Err? { FieldsStop(d, fields, TOKEN_A_ADDED + 1, LP_TOKENS_DEBT); return; }
      r := InitField(data, TOKEN_A_REMOVED, "TokenARemoved", 0, d, fields);
      if r.Err? { FieldsStop(d, fields, TOKEN_A_REMOVED + 1, LP_TOKENS_DEBT); return; }
      r := InitField(data, TOKEN_B_ADDED, "TokenBAdded", 0, d, fields);
      if r.Err? { FieldsStop(d, fields, TOKEN_B_ADDED + 1, LP_TOKENS_DEBT); return; }
      r := InitField(data, TOKEN_B_REMOVED, "TokenBRemoved", 0, d, fields);
    }

    method AddLiquidity(a: u64, b: u64, now: u64) returns (r: Result<()>)
      requires Valid()
      modifies data, this`cells
      ensures Valid() && (r, cells) == Step(old(cells), Event.AddLiquidity(a, b, now))
    {
      var _ := AddToCell(data, TOKEN_A_ADDED, a, FIELDS, cells);
      cells := Accumulated(cells, TOKEN_A_ADDED, a);
      var _ := AddToCell(data, TOKEN_B_ADDED, b, FIELDS, cells);
      cells := Accumulated(cells, TOKEN_B_ADDED, b);
      if a > 0 || b > 0 {
        var _ := SetCell(data, LAST_DEPOSIT, now, FIELDS, cells);
        cells := cells[LAST_DEPOSIT := now];
      }
      return Ok(());
    }

    method RemoveLiquidity(a: u64, b: u64, now: u64) returns (r: Result<()>)
      requires Valid()
      modifies data, this`cells
      ensures Valid() && (r, cells) == Step(old(cells), Event.RemoveLiquidity(a, b, now))
    {
      var _ := AddToCell(data, TOKEN_A_REMOVED, a, FIELDS, cells);
      cells := Accumulated(cells, TOKEN_A_REMOVED, a);
      var _ := AddToCell(data, TOKEN_B_REMOVED, b, FIELDS, cells);
      cells := Accumulated(cells, TOKEN_B_REMOVED, b);
      if a > 0 || b > 0 {
        var _ := SetCell(data, LAST_WITHDRAWAL, now, FIELDS, cells);
        cells := cells[LAST_WITHDRAWAL := now];
      }
      return Ok(());
    }

    method AddLpTokensDebt(amount: u64) returns (r: Result<()>)
      requires Valid()
      modifies data, this`cells
      ensures Valid() && (r, cells) == Step(old(cells), AddDebt(amount))
    {
      CellAt(data[..], FIELDS, cells, LP_TOKENS_DEBT);
      var debt := GetCell(data[..], LP_TOKENS_DEBT).value;
      if amount + debt > U64_MAX {
        return Err(Custom(999));
      }
      r := SetCell(data, LP_TOKENS_DEBT, amount + debt, FIELDS, cells);
      cells := cells[LP_TOKENS_DEBT := amount + debt];
    }

    method RemoveLpTokensDebt(amount: u64) returns (r: Result<()>)
      requires Valid()
      modifies data, this`cells
      ensures Valid() && (r, cells) == Step(old(cells), RemoveDebt(amount))
    {
      CellAt(data[..], FIELDS, cells, LP_TOKENS_DEBT);
      var debt := GetCell(data[..], LP_TOKENS_DEBT).value;
      if debt <= amount {
        debt := 0;
      } else {
        debt := debt - amount;
      }
      r := SetCell(data, LP_TOKENS_DEBT, debt, FIELDS, cells);
      cells := cells[LP_TOKENS_DEBT := debt];
    }

    /** The getters without a cast: debt and the four totals. */
    method Get(field: u32) returns (r: Result<u64>)
      requires Valid() && field < FIELDS
      ensures r == Ok(cells[field])
    {
      CellAt(data[..], FIELDS, cells, field);
      r := GetCell(data[..], field);
    }

    /** `get_deposit_time` and `get_withdrawal_time`: signed time stamps. */
    method GetTime(field: u32) returns (r: Result<int>)
      requires Valid() && (field == LAST_DEPOSIT || field == LAST_WITHDRAWAL)
      ensures r == Ok(Signed(cells[field]))
    {
      CellAt(data[..], FIELDS, cells, field);
      return Ok(Signed(GetCell(data[..], field).value));
    }

    /** `get_user_bump`: the low byte. */
    method GetUserBump() returns (r: Result<byte>)
      requires Valid()
      ensures r == Ok(cells[USER_BUMP] % 0x100)
    {
      CellAt(data[..], FIELDS, cells, USER_BUMP);
      return Ok(GetCell(data[..], USER_BUMP).value % 0x100);
    }
  }

  /** A user account has 681 bytes and these eight fields, in this order. */
  lemma AccountLayout(d: seq<byte>, name: ArrayString64, userBump: byte)
    requires |d| == 681 && !IsInitialized(d) && Vacant(d, U64Type)
    ensures var w := CellsInit(d, name, Fields(userBump));
            && w.result.Ok? && Filled(w.bytes, 8, [0, 0, 0, 0, 0, 0, 0, userBump])
            && Labels(w.bytes, ["LastDeposit", "LastWithdrawal", "TokenAAdded", "TokenARemoved", "TokenBAdded", "TokenBRemoved",
                                "LpTokensDebt", "UserBump"])
  {
    var fields := Fields(userBump);
    CellsInitFills(d, name, fields);
    LabelsAre(CellsInit(d, name, fields).bytes, fields,
              ["LastDeposit", "LastWithdrawal", "TokenAAdded", "TokenARemoved", "TokenBAdded", "TokenBRemoved", "LpTokensDebt", "UserBump"]);
  }

  // ----- whole runs -----

  function Run(cells: seq<u64>, events: seq<Event>): (cells': seq<u64>)
    requires |cells| == FIELDS
    ensures |cells'| == FIELDS
    decreases |events|
  {
    if events == [] then cells else Run(Step(cells, events[0]).1, events[1..])
  }

  /** What one event adds to each of the four running totals. */
  function Input(e: Event, field: nat): (n: nat)
  {
    if e.AddLiquidity? && field == TOKEN_A_ADDED then e.a
    else if e.AddLiquidity? && field == TOKEN_B_ADDED then e.b
    else if e.RemoveLiquidity? && field == TOKEN_A_REMOVED then e.a
    else if e.RemoveLiquidity? && field == TOKEN_B_REMOVED then e.b
    else 0
  }

  function Sum(events: seq<Event>, field: nat): (n: nat)
  {
    if events == [] then 0 else Input(events[0], field) + Sum(events[1..], field)
  }

  /** Over any run each running total is the sum of its inputs, modulo 2^64. */
  lemma {:induction false} TotalsAreSums(cells: seq<u64>, events: seq<Event>, field: nat)
    requires |cells| == FIELDS && TOKEN_A_ADDED <= field <= TOKEN_B_REMOVED
    ensures Run(cells, events)[field] == (cells[field] + Sum(events, field)) % TWO64
    decreases |events|
  {
    if events != [] {
      var next := Step(cells, events[0]).1;
      TotalsAreSums(next, events[1..], field);
      var amount := Input(events[0], field);
      assert next[field] == (amount + cells[field]) % TWO64;
      WrapThenAdd(amount + cells[field], Sum(events[1..], field));
    }
  }

  function DebtChange(e: Event): (n: int)
  {
    if e.AddDebt? then e.amount else if e.RemoveDebt? then -(e.amount as int) else 0
  }

  /** The debt as a plain integer balance, with no floor and no ceiling. */
  function DebtBalance(debt: int, events: seq<Event>): (n: int)
    decreases |events|
  {
    if events == [] then debt else DebtBalance(debt + DebtChange(events[0]), events[1..])
  }

  /** No removal exceeds the debt then outstanding and no addition overflows. */
  predicate DebtInRange(debt: int, events: seq<Event>)
    decreases |events|
  {
    0 <= debt <= U64_MAX && (events != [] ==> DebtInRange(debt + DebtChange(events[0]), events[1..]))
  }

  lemma {:induction false} DebtIsBalance(cells: seq<u64>, events: seq<Event>)
    requires |cells| == FIELDS && DebtInRange(cells[LP_TOKENS_DEBT], events)
    ensures Run(cells, events)[LP_TOKENS_DEBT] == DebtBalance(cells[LP_TOKENS_DEBT], events)
    decreases |events|
  {
    if events != [] {
      DebtIsBalance(Step(cells, events[0]).1, events[1..]);
    }
  }

  /** A call that moves liquidity of either token in the given direction. */
  predicate Stamps(e: Event, field: nat)
  {
    || (field == LAST_DEPOSIT && e.AddLiquidity? && (e.a > 0 || e.b > 0))
    || (field == LAST_WITHDRAWAL && e.RemoveLiquidity? && (e.a > 0 || e.b > 0))
  }

  predicate IsLastStamp(events: seq<Event>, field: nat, k: nat)
  {
    k < |events| && Stamps(events[k], field) && forall j :: k < j < |events| ==> !Stamps(events[j], field)
  }

  /** Over any run each time is that of the last call that added, or removed, a nonzero amount, else its value at the start. */
  lemma {:induction false} TimesAreLast(cells: seq<u64>, events: seq<Event>, field: nat)
    requires |cells| == FIELDS && (field == LAST_DEPOSIT || field == LAST_WITHDRAWAL)
    ensures forall k: nat :: IsLastStamp(events, field, k) ==> Run(cells, events)[field] == events[k].now
    ensures (forall j :: 0 <= j < |events| ==> !Stamps(events[j], field)) ==> Run(cells, events)[field] == cells[field]
    decreases |events|
  {
    if events != [] {
      var rest, next := events[1..], Step(cells, events[0]).1;
      TimesAreLast(next, rest, field);
      assert next[field] == if Stamps(events[0], field) then events[0].now else cells[field];
      if forall j :: 0 <= j < |rest| ==> !Stamps(rest[j], field) {
        assert Run(cells, events)[field] == next[field];
      }
      forall k: nat | IsLastStamp(events, field, k) ensures Run(cells, events)[field] == events[k].now {
        if k > 0 {
          assert rest[k - 1] == events[k];
          forall j | k - 1 < j < |rest| ensures !Stamps(rest[j], field) { assert rest[j] == events[j + 1]; }
          assert IsLastStamp(rest, field, k - 1);
        } else {
          forall j | 0 <= j < |rest| ensures !Stamps(rest[j], field) { assert rest[j] == events[j + 1]; }
        }
      }
      if forall j :: 0 <= j < |events| ==> !Stamps(events[j], field) {
        forall j | 0 <= j < |rest| ensures !Stamps(rest[j], field) { assert rest[j] == events[j + 1]; }
      }
    }
  }

  /** Every addition to the debt of the run fits in 64 bits when it is made. */
  predicate NeverOverflows(cells: seq<u64>, events: seq<Event>)
    requires |cells| == FIELDS
    decreases |events|
  {
    events == [] || (Step(cells, events[0]).0.Ok? && NeverOverflows(Step(cells, events[0]).1, events[1..]))
  }

  /** Additions less removals from event `k` on. */
  function NetFrom(events: seq<Event>, k: nat): (n: int)
    requires k <= |events|
    decreases |events| - k
  {
    if k == |events| then 0 else DebtChange(events[k]) + NetFrom(events, k + 1)
  }

  /**
   * The debt over any run in which no addition overflows, with its floor at zero: the largest of the starting debt plus all
   * changes and of the changes since any later moment, the last of which is nothing at all.
   */
  lemma {:induction false} DebtIsReflected(cells: seq<u64>, events: seq<Event>)
    requires |cells| == FIELDS && NeverOverflows(cells, events)
    ensures var debt := Run(cells, events)[LP_TOKENS_DEBT];
            && debt >= cells[LP_TOKENS_DEBT] + NetFrom(events, 0)
            && (forall k :: 0 <= k <= |events| ==> debt >= NetFrom(events, k))
            && (debt == cells[LP_TOKENS_DEBT] + NetFrom(events, 0) || exists k :: 0 <= k <= |events| && debt == NetFrom(events, k))
    decreases |events|
  {
    if events == [] {
      assert NetFrom(events, 0) == 0;
    } else {
      var rest, next := events[1..], Step(cells, events[0]).1;
      DebtIsReflected(next, rest);
      forall k | 0 <= k <= |rest| ensures NetFrom(rest, k) == NetFrom(events, k + 1) { NetShifted(events, k); }
      var debt, before, after := Run(cells, events)[LP_TOKENS_DEBT], cells[LP_TOKENS_DEBT], next[LP_TOKENS_DEBT];
      assert after == if before + DebtChange(events[0]) < 0 then 0 else before + DebtChange(events[0]);
      forall k | 0 <= k <= |events| ensures debt >= NetFrom(events, k) {
        if k > 0 { assert NetFrom(rest, k - 1) == NetFrom(events, k); }
      }
      if debt == after + NetFrom(rest, 0) {
        assert debt == before + NetFrom(events, 0) || debt == NetFrom(events, 1);
      } else {
        var k :| 0 <= k <= |rest| && debt == NetFrom(rest, k);
        assert debt == NetFrom(events, k + 1);
      }
    }
  }

  lemma {:induction false} NetShifted(events: seq<Event>, k: nat)
    requires events != [] && k < |events|
    ensures NetFrom(events[1..], k) == NetFrom(events, k + 1)
    decreases |events| - k
  {
    if k < |events| - 1 { NetShifted(events, k + 1); }
  }

  /** An addition that overflows fails with 999 and changes nothing; a removal of more than the debt leaves none. */
  lemma DebtEdges(cells: seq<u64>, amount: u64)
    requires |cells| == FIELDS
    ensures cells[6] + amount > U64_MAX <==> Step(cells, AddDebt(amount)) == (Err(Custom(999)), cells)
    ensures amount >= cells[6] ==> Step(cells, RemoveDebt(amount)) == (Ok(()), cells[6 := 0])
    ensures amount < cells[6] ==> Step(cells, RemoveDebt(amount)) == (Ok(()), cells[6 := cells[6] - amount])
  {
  }

  /** No call changes the bump. */
  lemma {:induction false} BumpIsFixed(cells: seq<u64>, events: seq<Event>)
    requires |cells| == FIELDS
    ensures Run(cells, events)[USER_BUMP] == cells[USER_BUMP]
    decreases |events|
  {
    if events != [] {
      BumpIsFixed(Step(cells, events[0]).1, events[1..]);
    }
  }
}
