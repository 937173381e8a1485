/** The oracle pair program, instruction by instruction, and its whole runs (binary-oracle-pair/program/src/processor.rs). */
module OracleProgram {
  import opened Basics
  import opened Sums
  import opened OraclePair

  class Program {
    const mintEnd: nat
    const decideEnd: nat
    const decider: nat
    var decision: Decision
    var deposit: nat
    var passSupply: nat
    var failSupply: nat
    var users: seq<Account>

    ghost function State(): (s: Pool)
      reads this
    {
      Pool(mintEnd, decideEnd, decision, decider, deposit, passSupply, failSupply, users)
    }

    /** `init_pool`: an empty deposit account, two fresh mints, no decision. */
    constructor (mintEnd: nat, decideEnd: nat, decider: nat, cash: seq<nat>)
      ensures State() == Fresh(mintEnd, decideEnd, decider, cash)
    {
      this.mintEnd, this.decideEnd, this.decider := mintEnd, decideEnd, decider;
      decision, deposit, passSupply, failSupply := Undecided, 0, 0, 0;
      users := seq(|cash|, i requires 0 <= i < |cash| => Account(cash[i], 0, 0));
    }

    method TransferIn(i: nat, amount: nat) returns (r: Outcome)
      requires i < |users|
      modifies this`users, this`deposit
      ensures r.Done? <==> amount <= old(users)[i].cash && old(deposit) + amount <= U64_MAX
      ensures r.Done? ==> CanTake(old(users), i, Cash, amount) && users == Take(old(users), i, Cash, amount) && deposit == old(deposit) + amount
    {
      if users[i].cash < amount {
        return Failed(InsufficientFunds);
      }
      if deposit + amount > U64_MAX {
        return Failed(Overflow);
      }
      users := Take(users, i, Cash, amount);
      deposit := deposit + amount;
      return Done;
    }

    method TransferOut(i: nat, amount: nat) returns (r: Outcome)
      requires i < |users|
      modifies this`users, this`deposit
      ensures r.Done? <==> amount <= old(deposit) && old(users)[i].cash + amount <= U64_MAX
      ensures r.Done? ==> users == Give(old(users), i, Cash, amount) && deposit == old(deposit) - amount
    {
      if deposit < amount {
        return Failed(InsufficientFunds);
      }
      if users[i].cash + amount > U64_MAX {
        return Failed(Overflow);
      }
      users := Give(users, i, Cash, amount);
      deposit := deposit - amount;
      return Done;
    }

    method MintPass(i: nat, amount: nat) returns (r: Outcome)
      requires i < |users|
      modifies this`users, this`passSupply
      ensures r.Done? <==> old(users)[i].pass + amount <= U64_MAX && old(passSupply) + amount <= U64_MAX
      ensures r.Done? ==> users == Give(old(users), i, PassToken, amount) && passSupply == old(passSupply) + amount
    {
      if users[i].pass + amount > U64_MAX || passSupply + amount > U64_MAX {
        return Failed(Overflow);
      }
      users := Give(users, i, PassToken, amount);
      passSupply := passSupply + amount;
      return Done;
    }

    method MintFail(i: nat, amount: nat) returns (r: Outcome)
      requires i < |users|
      modifies this`users, this`failSupply
      ensures r.Done? <==> old(users)[i].fail + amount <= U64_MAX && old(failSupply) + amount <= U64_MAX
      ensures r.Done? ==> users == Give(old(users), i, FailToken, amount) && failSupply == old(failSupply) + amount
    {
      if users[i].fail + amount > U64_MAX || failSupply + amount > U64_MAX {
        return Failed(Overflow);
      }
      users := Give(users, i, FailToken, amount);
      failSupply := failSupply + amount;
      return Done;
    }

    method BurnPass(i: nat, amount: nat) returns (r: Outcome)
      requires i < |users|
      modifies this`users, this`passSupply
      ensures r.Done? <==> amount <= old(users)[i].pass && amount <= old(passSupply)
      ensures r.Done? ==> CanTake(old(users), i, PassToken, amount) && users == Take(old(users), i, PassToken, amount)
                          && passSupply == old(passSupply) - amount
    {
      if users[i].pass < amount || passSupply < amount {
        return Failed(InsufficientFunds);
      }
      users := Take(users, i, PassToken, amount);
      passSupply := passSupply - amount;
      return Done;
    }

    method BurnFail(i: nat, amount: nat) returns (r: Outcome)
      requires i < |users|
      modifies this`users, this`failSupply
      ensures r.Done? <==> amount <= old(users)[i].fail && amount <= old(failSupply)
      ensures r.Done? ==> CanTake(old(users), i, FailToken, amount) && users == Take(old(users), i, FailToken, amount)
                          && failSupply == old(failSupply) - amount
    {
      if users[i].fail < amount || failSupply < amount {
        return Failed(InsufficientFunds);
      }
      users := Take(users, i, FailToken, amount);
      failSupply := failSupply - amount;
      return Done;
    }

    /** A deposit; a failure leaves its steps half done, see Process. */
    method ProcessDeposit(d: Deposit, slot: nat) returns (r: Outcome)
      requires Ledger(State())
      modifies this`users, this`deposit, this`passSupply, this`failSupply
      ensures r.Done? <==> DepositAllowed(old(State()), d, slot)
      ensures r.Done? ==> State() == Deposited(old(State()), d)
      ensures d.payer < |old(users)| && d.passTo < |old(users)| && d.failTo < |old(users)| ==>
                (d.amount == 0 ==> r == Failed(InvalidAmount)) && (d.amount > 0 && slot > mintEnd ==> r == Failed(InvalidSlotForDeposit))
    {
      if d.payer >= |users| || d.passTo >= |users| || d.failTo >= |users| {
        return Failed(UninitializedAccount);
      }
      if d.amount == 0 {
        return Failed(InvalidAmount);
      }
      if slot > mintEnd {
        return Failed(InvalidSlotForDeposit);
      }
      TotalAtLeast(users, Cash, d.payer);
      TotalAtLeast(users, PassToken, d.passTo);
      TotalAtLeast(users, FailToken, d.failTo);
      :- TransferIn(d.payer, d.amount);
      :- MintPass(d.passTo, d.amount);
      :- MintFail(d.failTo, d.amount);
      return Done;
    }

    /** A withdrawal; a failure leaves its steps half done, see Process. */
    method ProcessWithdraw(w: Withdrawal, slot: nat) returns (r: Outcome)
      requires Ledger(State())
      modifies this`users, this`deposit, this`passSupply, this`failSupply
      ensures r.Done? <==> WithdrawAllowed(old(State()), w, slot)
      ensures r.Done? ==> Covered(old(State()), w) && State() == Withdrawn(old(State()), w)
      ensures Holders(old(State()), w) ==>
                && (w.amount == 0 ==> r == Failed(InvalidAmount))
                && (w.amount > 0 && decision.Undecided? && mintEnd <= slot <= decideEnd ==> r == Failed(NoDecisionMadeYet))
    {
      if w.passFrom >= |users| || w.failFrom >= |users| || w.cashTo >= |users| {
        return Failed(UninitializedAccount);
      }
      if w.amount == 0 {
        return Failed(InvalidAmount);
      }
      TotalAtLeast(users, PassToken, w.passFrom);
      TotalAtLeast(users, FailToken, w.failFrom);
      TotalAtLeast(users, Cash, w.cashTo);
      NoTake(users, w.passFrom, PassToken);
      match decision {
        case Pass =>
          :- BurnPass(w.passFrom, w.amount);
          NoTake(users, w.failFrom, FailToken);
        case Fail =>
          :- BurnFail(w.failFrom, w.amount);
        case Undecided =>
          if slot < mintEnd || slot > decideEnd {
            var possible := Min(Min(w.amount, users[w.passFrom].pass), users[w.failFrom].fail);
            :- BurnPass(w.passFrom, possible);
            :- BurnFail(w.failFrom, w.amount);
          } else {
            return Failed(NoDecisionMadeYet);
          }
      }
      :- TransferOut(w.cashTo, w.amount);
      return Done;
    }

    method ProcessDecide(key: nat, isSigner: bool, pass: bool, slot: nat) returns (r: Outcome)
      modifies this`decision
      ensures r.Done? <==> DecideAllowed(old(State()), key, isSigner, slot)
      ensures State() == if r.Done? then Decided(old(State()), pass) else old(State())
      ensures r.Failed? ==> r.error == if key != decider then WrongDeciderAccount else if !isSigner then SignatureMissing
                                       else if !old(decision).Undecided? then DecisionAlreadyMade else InvalidSlotForDecision
    {
      if key != decider {
        return Failed(WrongDeciderAccount);
      }
      if !isSigner {
        return Failed(SignatureMissing);
      }
      if decision != Undecided {
        return Failed(DecisionAlreadyMade);
      }
      if slot < mintEnd || slot > decideEnd {
        return Failed(InvalidSlotForDecision);
      }
      decision := if pass then Pass else Fail;
      return Done;
    }
  }

  lemma NoTake(users: seq<Account>, i: nat, token: Token)
    requires i < |users|
    ensures Take(users, i, token, 0) == users
  {
  }

  function Fresh(mintEnd: nat, decideEnd: nat, decider: nat, cash: seq<nat>): (s: Pool)
  {
    Pool(mintEnd, decideEnd, Undecided, decider, 0, 0, 0, seq(|cash|, i requires 0 <= i < |cash| => Account(cash[i], 0, 0)))
  }

  // ----- runs -----

  datatype Op =
    | DoDeposit(d: Deposit)
    | DoWithdraw(w: Withdrawal)
    | DoDecide(key: nat, isSigner: bool, pass: bool)
    | DoMove(m: Move)

  /** An instruction, or a token movement outside the program, at a clock slot. */
  datatype Event = Event(slot: nat, op: Op)

  predicate Allowed(s: Pool, e: Event)
  {
    match e.op
    case DoDeposit(d) => DepositAllowed(s, d, e.slot)
    case DoWithdraw(w) => WithdrawAllowed(s, w, e.slot) && Covered(s, w)
    case DoDecide(key, isSigner, _) => DecideAllowed(s, key, isSigner, e.slot)
    case DoMove(m) => MoveAllowed(s, m)
  }

  /** On a ledger that adds up, the program's own checks decide whether a withdrawal goes through. */
  lemma WithdrawalsAllowed(s: Pool, w: Withdrawal, slot: nat)
    requires Ledger(s)
    ensures Allowed(s, Event(slot, DoWithdraw(w))) <==> WithdrawAllowed(s, w, slot)
  {
    if WithdrawAllowed(s, w, slot) { LedgerCovers(s, w, slot); }
  }

  /** One step; an instruction that fails changes nothing. */
  function Next(s: Pool, e: Event): (s': Pool)
  {
    if !Allowed(s, e) then s
    else
      match e.op
      case DoDeposit(d) => Deposited(s, d)
      case DoWithdraw(w) => Withdrawn(s, w)
      case DoDecide(_, _, pass) => Decided(s, pass)
      case DoMove(m) => Moved(s, m)
  }

  /** The program's entry point: the runtime undoes every change of a failed instruction. */
  method Process(program: Program, e: Event) returns (r: Outcome)
    requires Ledger(program.State()) && !e.op.DoMove?
    modifies program
    ensures Ledger(program.State())
    ensures program.State() == Next(old(program.State()), e)
    ensures r.Done? <==> Allowed(old(program.State()), e)
  {
    var deposit, passes, fails, users := program.deposit, program.passSupply, program.failSupply, program.users;
    ghost var s := program.State();
    match e.op {
      case DoDeposit(d) =>
        r := program.ProcessDeposit(d, e.slot);
        if r.Done? { DepositKeepsLedger(s, d, e.slot); }
      case DoWithdraw(w) =>
        WithdrawalsAllowed(s, w, e.slot);
        r := program.ProcessWithdraw(w, e.slot);
        if r.Done? { WithdrawKeepsLedger(s, w); }
      case DoDecide(key, isSigner, pass) =>
        r := program.ProcessDecide(key, isSigner, pass, e.slot);
    }
    if r.Failed? {
      program.deposit, program.passSupply, program.failSupply, program.users := deposit, passes, fails, users;
    }
  }

  // ----- which instructions go through -----

  /** Exactly when a deposit is made: up to and including the last slot of the mint term, with cash and room in both supplies. */
  lemma DepositsAllowed(s: Pool, d: Deposit, slot: nat)
    ensures Allowed(s, Event(slot, DoDeposit(d))) <==>
              && 0 < d.amount && slot <= s.mintEnd
              && d.payer < |s.users| && d.passTo < |s.users| && d.failTo < |s.users| && d.amount <= s.users[d.payer].cash
              && s.passSupply + d.amount <= U64_MAX && s.failSupply + d.amount <= U64_MAX
  {
  }

  /**
   * Exactly when a withdrawal is made: the account of the winning token holds the amount; before a decision the FAIL account
   * does, and the slot is before the decision term or after it.
   */
  lemma WithdrawalsMade(s: Pool, w: Withdrawal, slot: nat)
    requires Ledger(s)
    ensures Allowed(s, Event(slot, DoWithdraw(w))) <==>
              && 0 < w.amount <= s.deposit && w.passFrom < |s.users| && w.failFrom < |s.users| && w.cashTo < |s.users|
              && match s.decision
                 case Pass => w.amount <= s.users[w.passFrom].pass
                 case Fail => w.amount <= s.users[w.failFrom].fail
                 case Undecided => w.amount <= s.users[w.failFrom].fail && (slot < s.mintEnd || s.decideEnd < slot)
  {
    WithdrawalsAllowed(s, w, slot);
  }

  /** In the decision term, before the decision, every withdrawal is refused. */
  lemma RefusedInTerm(s: Pool, w: Withdrawal, slot: nat)
    requires s.decision.Undecided? && s.mintEnd <= slot <= s.decideEnd
    ensures !Allowed(s, Event(slot, DoWithdraw(w))) && Next(s, Event(slot, DoWithdraw(w))) == s
  {
  }

  function Run(s: Pool, events: seq<Event>): (s': Pool)
    decreases |events|
  {
    if events == [] then s else Run(Next(s, events[0]), events[1..])
  }

  lemma NextKeepsLedger(s: Pool, e: Event)
    requires Ledger(s)
    ensures Ledger(Next(s, e))
  {
    if Allowed(s, e) {
      match e.op
      case DoDeposit(d) => DepositKeepsLedger(s, d, e.slot);
      case DoWithdraw(w) => WithdrawKeepsLedger(s, w);
      case DoDecide(_, _, _) =>
      case DoMove(m) => MovedKeepsLedger(s, m);
    }
  }

  // ----- backing -----

  /** Cash an event adds to the deposit account without minting. */
  function Gift(s: Pool, e: Event): (n: nat)
  {
    if e.op.DoMove? && e.op.m.ToDeposit? && Allowed(s, e) then e.op.m.amount else 0
  }

  function Gifts(s: Pool, events: seq<Event>): (n: nat)
    decreases |events|
  {
    if events == [] then 0 else Gift(s, events[0]) + Gifts(Next(s, events[0]), events[1..])
  }

  /** FAIL burned and paid out without the PASS that was minted with it. */
  function Shortfall(s: Pool, e: Event): (n: nat)
  {
    if e.op.DoWithdraw? && Allowed(s, e) && s.decision.Undecided? then e.op.w.amount - PassBurned(s, e.op.w) else 0
  }

  function Shortfalls(s: Pool, events: seq<Event>): (n: nat)
    decreases |events|
  {
    if events == [] then 0 else Shortfall(s, events[0]) + Shortfalls(Next(s, events[0]), events[1..])
  }

  /** A withdrawal before the decision names a PASS account that holds the amount, as it must hold the FAIL. */
  predicate Careful(s: Pool, e: Event)
  {
    e.op.DoWithdraw? && Allowed(s, e) && s.decision.Undecided? ==> e.op.w.amount <= s.users[e.op.w.passFrom].pass
  }

  /** Every withdrawal of the run was careful when it was made. */
  predicate AllCareful(s: Pool, events: seq<Event>)
    decreases |events|
  {
    events == [] || (Careful(s, events[0]) && AllCareful(Next(s, events[0]), events[1..]))
  }

  /** Care is exactly what avoids a shortfall. */
  lemma {:induction false} CareAvoidsShortfall(s: Pool, events: seq<Event>)
    ensures AllCareful(s, events) <==> Shortfalls(s, events) == 0
    decreases |events|
  {
    if events != [] { CareAvoidsShortfall(Next(s, events[0]), events[1..]); }
  }

  /** Until PASS wins the deposits back FAIL one to one; unless FAIL wins they back PASS up to a gap. Gifts come on top. */
  predicate Backed(s: Pool, gap: nat, gifts: nat)
  {
    && (!s.decision.Pass? ==> s.deposit == s.failSupply + gifts)
    && (!s.decision.Fail? ==> s.deposit + gap == s.passSupply + gifts)
  }

  lemma {:induction false} BackingOverRun(s: Pool, events: seq<Event>, gap: nat, gifts: nat)
    requires Ledger(s) && Backed(s, gap, gifts)
    ensures Ledger(Run(s, events)) && Backed(Run(s, events), gap + Shortfalls(s, events), gifts + Gifts(s, events))
    decreases |events|
  {
    if events != [] {
      NextKeepsLedger(s, events[0]);
      BackingOverRun(Next(s, events[0]), events[1..], gap + Shortfall(s, events[0]), gifts + Gift(s, events[0]));
    }
  }

  lemma FreshLedger(mintEnd: nat, decideEnd: nat, decider: nat, cash: seq<nat>)
    requires Total(Fresh(mintEnd, decideEnd, decider, cash).users, Cash) <= U64_MAX
    ensures Ledger(Fresh(mintEnd, decideEnd, decider, cash))
  {
    var users := Fresh(mintEnd, decideEnd, decider, cash).users;
    SumOfZeros(users, AmountOf(PassToken), |users|);
    SumOfZeros(users, AmountOf(FailToken), |users|);
  }

  /**
   * In every reachable state FAIL is backed until PASS wins and PASS is never scarcer than FAIL while undecided.
   * PASS is backed, until FAIL wins, if and only if every withdrawal made before the decision named an account that
   * held the PASS; then PASS, FAIL and the deposits are equal until the decision, and PASS and the deposits after it.
   */
  lemma BackingOfFreshRun(mintEnd: nat, decideEnd: nat, decider: nat, cash: seq<nat>, events: seq<Event>)
    requires Total(Fresh(mintEnd, decideEnd, decider, cash).users, Cash) <= U64_MAX
    ensures var s0 := Fresh(mintEnd, decideEnd, decider, cash);
            var s, given := Run(s0, events), Gifts(s0, events);
            && (!s.decision.Pass? ==> s.deposit == s.failSupply + given)
            && (s.decision.Undecided? ==> s.passSupply >= s.failSupply)
            && (!s.decision.Fail? ==> (s.deposit == s.passSupply + given <==> AllCareful(s0, events)))
            && (AllCareful(s0, events) && s.decision.Undecided? ==> s.passSupply == s.failSupply == s.deposit - given)
            && (AllCareful(s0, events) && s.decision.Pass? ==> s.passSupply == s.deposit - given)
  {
    var s0 := Fresh(mintEnd, decideEnd, decider, cash);
    FreshLedger(mintEnd, decideEnd, decider, cash);
    BackingOverRun(s0, events, 0, 0);
    CareAvoidsShortfall(s0, events);
  }

  /** While the decision is not PASS a FAIL holder can always redeem, outside the decision term, all it holds. */
  lemma FailIsRedeemable(s: Pool, gap: nat, gifts: nat, w: Withdrawal, slot: nat)
    requires Ledger(s) && Backed(s, gap, gifts) && Holders(s, w) && !s.decision.Pass?
    requires s.decision.Undecided? ==> OutsideDecisionTerm(s, slot)
    ensures Allowed(s, Event(slot, DoWithdraw(w))) <==> 0 < w.amount <= s.users[w.failFrom].fail
  {
    TotalAtLeast(s.users, FailToken, w.failFrom);
    WithdrawalsAllowed(s, w, slot);
  }

  /** After PASS wins a PASS holder can redeem all it holds, up to what the gap has left in the deposit account. */
  lemma PassIsRedeemable(s: Pool, gap: nat, gifts: nat, w: Withdrawal, slot: nat)
    requires Ledger(s) && Backed(s, gap, gifts) && Holders(s, w) && s.decision.Pass?
    ensures Allowed(s, Event(slot, DoWithdraw(w))) <==> 0 < w.amount <= s.users[w.passFrom].pass && w.amount + gap <= s.passSupply + gifts
    ensures gap <= gifts ==> (Allowed(s, Event(slot, DoWithdraw(w))) <==> 0 < w.amount <= s.users[w.passFrom].pass)
  {
    TotalAtLeast(s.users, PassToken, w.passFrom);
    WithdrawalsAllowed(s, w, slot);
  }

  lemma RunOfThree(s: Pool, e1: Event, e2: Event, e3: Event)
    ensures Run(s, [e1, e2, e3]) == Next(Next(Next(s, e1), e2), e3)
    ensures Shortfalls(s, [e1, e2, e3]) == Shortfall(s, e1) + Shortfall(Next(s, e1), e2) + Shortfall(Next(Next(s, e1), e2), e3)
  {
    var s1 := Next(s, e1);
    var s2 := Next(s1, e2);
    assert [e1, e2, e3] == [e1] + [e2, e3] && [e2, e3] == [e2] + [e3] && [e3] == [e3] + [];
    RunOfCons(s, e1, [e2, e3]);
    RunOfCons(s1, e2, [e3]);
    RunOfCons(s2, e3, []);
  }

  lemma RunOfCons(s: Pool, e: Event, rest: seq<Event>)
    ensures Run(s, [e] + rest) == Run(Next(s, e), rest)
    ensures Shortfalls(s, [e] + rest) == Shortfall(s, e) + Shortfalls(Next(s, e), rest)
  {
    assert ([e] + rest)[1..] == rest;
  }

  /** Redeeming FAIL without its PASS before the decision leaves PASS tokens that nothing backs once PASS wins. */
  lemma UnbackedExample(s0: Pool, n: nat)
    requires 0 < n <= U64_MAX && s0 == Pool(10, 20, Undecided, 7, 0, 0, 0, [Account(n, 0, 0), Account(0, 0, 0)])
    ensures var events := [Event(1, DoDeposit(Deposit(0, 1, 0, n))), Event(2, DoWithdraw(Withdrawal(0, 0, 0, n))), Event(10, DoDecide(7, true, true))];
            var s := Run(s0, events);
            s.decision == Pass && s.users == [Account(n, 0, 0), Account(0, n, 0)] && s.deposit == 0 && Shortfalls(s0, events) == n
  {
    var e1, e2 := Event(1, DoDeposit(Deposit(0, 1, 0, n))), Event(2, DoWithdraw(Withdrawal(0, 0, 0, n)));
    var s1 := Next(s0, e1);
    assert s1.users == [Account(0, 0, n), Account(0, n, 0)];
    var s2 := Next(s1, e2);
    assert s2.users == [Account(n, 0, 0), Account(0, n, 0)];
    RunOfThree(s0, e1, e2, Event(10, DoDecide(7, true, true)));
  }

  // ----- timeline -----

  predicate Ordered(events: seq<Event>)
  {
    forall i, j :: 0 <= i < j < |events| ==> events[i].slot <= events[j].slot
  }

  /** No cash leaves the deposit account, and no token is burned, in the decision term before the decision. */
  lemma {:induction false} NothingPaidInTerm(s: Pool, events: seq<Event>)
    requires Run(s, events).decision.Undecided?
    requires forall k :: 0 <= k < |events| ==> s.mintEnd <= events[k].slot <= s.decideEnd
    ensures s.deposit <= Run(s, events).deposit && s.passSupply <= Run(s, events).passSupply && s.failSupply <= Run(s, events).failSupply
    decreases |events|
  {
    if events != [] {
      var s' := Next(s, events[0]);
      if !s'.decision.Undecided? { DecisionIsFinal(s', events[1..]); }
      assert s.mintEnd <= events[0].slot <= s.decideEnd;
      NothingPaidInTerm(s', events[1..]);
    }
  }

  /** The terms of a new pool: who decides, when, and until when deposits are taken. */
  lemma FreshTerms(mintEnd: nat, decideEnd: nat, decider: nat, cash: seq<nat>, events: seq<Event>)
    ensures var s0 := Fresh(mintEnd, decideEnd, decider, cash);
            && s0.deposit == 0 && s0.passSupply == 0 && s0.failSupply == 0 && |s0.users| == |cash|
            && (forall i :: 0 <= i < |cash| ==> s0.users[i] == Account(cash[i], 0, 0))
            && (!Run(s0, events).decision.Undecided? <==>
                exists k :: 0 <= k < |events| && events[k].op.DoDecide? && events[k].op.key == decider && events[k].op.isSigner
                            && mintEnd <= events[k].slot <= decideEnd)
            && Run(s0, events).mintEnd == mintEnd && Run(s0, events).decideEnd == decideEnd && Run(s0, events).decider == decider
  {
    var s0 := Fresh(mintEnd, decideEnd, decider, cash);
    DecidedWithinTerm(s0, events);
    TermsAreFixed(s0, events);
    if !Run(s0, events).decision.Undecided? {
      var k :| 0 <= k < |events| && Decides(s0, events[k]);
      assert events[k].op.DoDecide?;
    }
    forall k | 0 <= k < |events| && events[k].op.DoDecide? && events[k].op.key == decider && events[k].op.isSigner
               && mintEnd <= events[k].slot <= decideEnd
      ensures Decides(s0, events[k])
    {
    }
  }

  /** A decision, once made, is never revised. */
  lemma {:induction false} DecisionIsFinal(s: Pool, events: seq<Event>)
    requires !s.decision.Undecided?
    ensures Run(s, events).decision == s.decision
    decreases |events|
  {
    if events != [] { DecisionIsFinal(Next(s, events[0]), events[1..]); }
  }

  /** Terms and decider never change. */
  lemma {:induction false} TermsAreFixed(s: Pool, events: seq<Event>)
    ensures Run(s, events).mintEnd == s.mintEnd && Run(s, events).decideEnd == s.decideEnd && Run(s, events).decider == s.decider
    decreases |events|
  {
    if events != [] { TermsAreFixed(Next(s, events[0]), events[1..]); }
  }

  /** A signed decision of the decider within the decision term. */
  predicate Decides(s: Pool, e: Event)
  {
    e.op.DoDecide? && e.op.key == s.decider && e.op.isSigner && s.mintEnd <= e.slot <= s.decideEnd
  }

  /** A run decides exactly when it holds such a decision, and then as the first of them says. */
  lemma {:induction false} DecidedWithinTerm(s: Pool, events: seq<Event>)
    requires s.decision.Undecided?
    ensures !Run(s, events).decision.Undecided? <==> exists k :: 0 <= k < |events| && Decides(s, events[k])
    ensures forall k :: 0 <= k < |events| && Decides(s, events[k]) && (forall j :: 0 <= j < k ==> !Decides(s, events[j])) ==>
                          Run(s, events).decision == if events[k].op.pass then Pass else Fail
    decreases |events|
  {
    if events != [] {
      var s', rest := Next(s, events[0]), events[1..];
      assert forall k :: 1 <= k < |events| ==> events[k] == rest[k - 1];
      assert forall e :: Decides(s', e) <==> Decides(s, e);
      if Decides(s, events[0]) {
        DecisionIsFinal(s', rest);
      } else {
        DecidedWithinTerm(s', rest);
        forall k | 0 <= k < |events| && Decides(s, events[k]) && (forall j :: 0 <= j < k ==> !Decides(s, events[j]))
          ensures Run(s, events).decision == if events[k].op.pass then Pass else Fail
        {
          assert Decides(s', rest[k - 1]);
          assert forall j :: 0 <= j < k - 1 ==> rest[j] == events[j + 1];
        }
      }
    }
  }

  /** Undecided when the decision term has passed, a pool stays undecided. */
  lemma UndecidedForever(s: Pool, events: seq<Event>)
    requires s.decision.Undecided? && Ordered(events) && (events != [] ==> events[0].slot > s.decideEnd)
    ensures Run(s, events).decision.Undecided?
  {
    DecidedWithinTerm(s, events);
    assert forall k :: 1 <= k < |events| ==> events[0].slot <= events[k].slot;
  }

  /** After the mint term no PASS and no FAIL token is minted. */
  lemma {:induction false} NoMintAfterTerm(s: Pool, events: seq<Event>)
    requires forall k :: 0 <= k < |events| ==> events[k].slot > s.mintEnd
    ensures Run(s, events).passSupply <= s.passSupply && Run(s, events).failSupply <= s.failSupply
    decreases |events|
  {
    if events != [] {
      assert events[0].slot > s.mintEnd;
      NoMintAfterTerm(Next(s, events[0]), events[1..]);
    }
  }
}
