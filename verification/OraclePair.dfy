/** The binary oracle pair: deposits minted as PASS and FAIL tokens, one decision, withdrawals (binary-oracle-pair/program/src/processor.rs). */
module OraclePair {
  import opened Basics
  import opened Sums

  datatype Decision = Undecided | Pass | Fail

  datatype Token = Cash | PassToken | FailToken

  /** The token accounts of one owner. */
  datatype Account = Account(cash: nat, pass: nat, fail: nat)

  /** The pool account together with the balances of the token program. */
  datatype Pool = Pool(
    mintEnd: nat, decideEnd: nat, decision: Decision, decider: nat,
    deposit: nat, passSupply: nat, failSupply: nat, users: seq<Account>)

  datatype Error =
    | InvalidAmount
    | InvalidSlotForDeposit
    | InvalidSlotForDecision
    | NoDecisionMadeYet
    | DecisionAlreadyMade
    | WrongDeciderAccount
    | SignatureMissing
    | UninitializedAccount
    | InsufficientFunds
    | Overflow

  datatype Outcome = Done | Failed(error: Error) {
    predicate IsFailure() { Failed? }
    function PropagateFailure(): Outcome
      requires Failed?
    {
      this
    }
  }

  // ----- the ledger -----

  function Amount(a: Account, token: Token): (n: nat)
  {
    match token case Cash => a.cash case PassToken => a.pass case FailToken => a.fail
  }

  function WithAmount(a: Account, token: Token, n: nat): (a': Account)
    ensures Amount(a', token) == n && forall other :: other != token ==> Amount(a', other) == Amount(a, other)
  {
    match token case Cash => a.(cash := n) case PassToken => a.(pass := n) case FailToken => a.(fail := n)
  }

  function AmountOf(token: Token): (f: Account -> nat)
  {
    (a: Account) => Amount(a, token)
  }

  function Total(users: seq<Account>, token: Token): (total: nat)
  {
    SumOf(users, AmountOf(token), |users|)
  }

  lemma TotalAtLeast(users: seq<Account>, token: Token, i: nat)
    requires i < |users|
    ensures Amount(users[i], token) <= Total(users, token)
  {
    SumAtLeast(users, AmountOf(token), |users|, i);
  }

  predicate CanTake(users: seq<Account>, i: nat, token: Token, n: nat)
  {
    i < |users| && n <= Amount(users[i], token)
  }

  function Take(users: seq<Account>, i: nat, token: Token, n: nat): (users': seq<Account>)
    requires CanTake(users, i, token, n)
  {
    users[i := WithAmount(users[i], token, Amount(users[i], token) - n)]
  }

  function Give(users: seq<Account>, i: nat, token: Token, n: nat): (users': seq<Account>)
    requires i < |users|
  {
    users[i := WithAmount(users[i], token, Amount(users[i], token) + n)]
  }

  lemma TakeTotal(users: seq<Account>, i: nat, token: Token, n: nat)
    requires CanTake(users, i, token, n)
    ensures forall other :: Total(Take(users, i, token, n), other) == Total(users, other) - if other == token then n else 0
  {
    forall other ensures Total(Take(users, i, token, n), other) == Total(users, other) - if other == token then n else 0 {
      SumUpdate(users, AmountOf(other), |users|, i, Take(users, i, token, n)[i]);
    }
  }

  lemma GiveTotal(users: seq<Account>, i: nat, token: Token, n: nat)
    requires i < |users|
    ensures forall other :: Total(Give(users, i, token, n), other) == Total(users, other) + if other == token then n else 0
  {
    forall other ensures Total(Give(users, i, token, n), other) == Total(users, other) + if other == token then n else 0 {
      SumUpdate(users, AmountOf(other), |users|, i, Give(users, i, token, n)[i]);
    }
  }

  // ----- the instructions -----

  /** Cash from one account, PASS and FAIL to two. */
  datatype Deposit = Deposit(payer: nat, passTo: nat, failTo: nat, amount: nat)

  /** PASS and FAIL from two accounts, cash to a third. */
  datatype Withdrawal = Withdrawal(passFrom: nat, failFrom: nat, cashTo: nat, amount: nat)

  ghost predicate Ledger(s: Pool)
  {
    && s.passSupply == Total(s.users, PassToken) && s.failSupply == Total(s.users, FailToken)
    && s.passSupply <= U64_MAX && s.failSupply <= U64_MAX && Total(s.users, Cash) + s.deposit <= U64_MAX
  }

  predicate DepositAllowed(s: Pool, d: Deposit, slot: nat)
  {
    && d.amount > 0 && slot <= s.mintEnd && CanTake(s.users, d.payer, Cash, d.amount)
    && d.passTo < |s.users| && d.failTo < |s.users|
    && s.passSupply + d.amount <= U64_MAX && s.failSupply + d.amount <= U64_MAX
  }

  function Deposited(s: Pool, d: Deposit): (s': Pool)
    requires CanTake(s.users, d.payer, Cash, d.amount) && d.passTo < |s.users| && d.failTo < |s.users|
  {
    s.(deposit := s.deposit + d.amount, passSupply := s.passSupply + d.amount, failSupply := s.failSupply + d.amount,
       users := Give(Give(Take(s.users, d.payer, Cash, d.amount), d.passTo, PassToken, d.amount), d.failTo, FailToken, d.amount))
  }

  /** PASS tokens a withdrawal burns. */
  function PassBurned(s: Pool, w: Withdrawal): (n: nat)
    requires w.passFrom < |s.users| && w.failFrom < |s.users|
  {
    match s.decision
    case Pass => w.amount
    case Fail => 0
    case Undecided => Min(Min(w.amount, s.users[w.passFrom].pass), s.users[w.failFrom].fail)
  }

  /** FAIL tokens a withdrawal burns. */
  function FailBurned(s: Pool, w: Withdrawal): (n: nat)
  {
    if s.decision.Pass? then 0 else w.amount
  }

  predicate OutsideDecisionTerm(s: Pool, slot: nat)
  {
    slot < s.mintEnd || slot > s.decideEnd
  }

  predicate Holders(s: Pool, w: Withdrawal)
  {
    w.passFrom < |s.users| && w.failFrom < |s.users| && w.cashTo < |s.users|
  }

  predicate WithdrawAllowed(s: Pool, w: Withdrawal, slot: nat)
  {
    && w.amount > 0 && Holders(s, w)
    && (s.decision.Undecided? ==> OutsideDecisionTerm(s, slot))
    && PassBurned(s, w) <= s.users[w.passFrom].pass && FailBurned(s, w) <= s.users[w.failFrom].fail
    && w.amount <= s.deposit
  }

  /** What a withdrawal may rely on; LedgerCovers gets it from the ledger. */
  predicate Covered(s: Pool, w: Withdrawal)
    requires Holders(s, w)
  {
    PassBurned(s, w) <= s.passSupply && FailBurned(s, w) <= s.failSupply && w.amount <= s.deposit
    && PassBurned(s, w) <= s.users[w.passFrom].pass && FailBurned(s, w) <= s.users[w.failFrom].fail
  }

  function Withdrawn(s: Pool, w: Withdrawal): (s': Pool)
    requires Holders(s, w) && Covered(s, w)
  {
    s.(deposit := s.deposit - w.amount,
       passSupply := s.passSupply - PassBurned(s, w), failSupply := s.failSupply - FailBurned(s, w),
       users := Give(Take(Take(s.users, w.passFrom, PassToken, PassBurned(s, w)), w.failFrom, FailToken, FailBurned(s, w)),
                     w.cashTo, Cash, w.amount))
  }

  lemma LedgerCovers(s: Pool, w: Withdrawal, slot: nat)
    requires Ledger(s) && WithdrawAllowed(s, w, slot)
    ensures Covered(s, w)
  {
    TotalAtLeast(s.users, PassToken, w.passFrom);
    TotalAtLeast(s.users, FailToken, w.failFrom);
  }

  predicate DecideAllowed(s: Pool, key: nat, isSigner: bool, slot: nat)
  {
    key == s.decider && isSigner && s.decision.Undecided? && !OutsideDecisionTerm(s, slot)
  }

  function Decided(s: Pool, pass: bool): (s': Pool)
  {
    s.(decision := if pass then Pass else Fail)
  }

  lemma DepositKeepsLedger(s: Pool, d: Deposit, slot: nat)
    requires Ledger(s) && DepositAllowed(s, d, slot)
    ensures Ledger(Deposited(s, d))
  {
    var u1 := Take(s.users, d.payer, Cash, d.amount);
    var u2 := Give(u1, d.passTo, PassToken, d.amount);
    TakeTotal(s.users, d.payer, Cash, d.amount);
    GiveTotal(u1, d.passTo, PassToken, d.amount);
    GiveTotal(u2, d.failTo, FailToken, d.amount);
  }

  lemma WithdrawKeepsLedger(s: Pool, w: Withdrawal)
    requires Ledger(s) && Holders(s, w) && Covered(s, w)
    ensures Ledger(Withdrawn(s, w))
  {
    var u1 := Take(s.users, w.passFrom, PassToken, PassBurned(s, w));
    var u2 := Take(u1, w.failFrom, FailToken, FailBurned(s, w));
    TakeTotal(s.users, w.passFrom, PassToken, PassBurned(s, w));
    TakeTotal(u1, w.failFrom, FailToken, FailBurned(s, w));
    GiveTotal(u2, w.cashTo, Cash, w.amount);
  }

  // ----- every balance, account by account -----

  /** A deposit takes cash from the payer and gives PASS and FAIL to the two accounts named; no other balance changes. */
  lemma DepositBalances(s: Pool, d: Deposit, i: nat)
    requires CanTake(s.users, d.payer, Cash, d.amount) && d.passTo < |s.users| && d.failTo < |s.users| && i < |s.users|
    ensures var s' := Deposited(s, d);
            && |s'.users| == |s.users| && s'.deposit == s.deposit + d.amount
            && s'.passSupply == s.passSupply + d.amount && s'.failSupply == s.failSupply + d.amount
            && s'.users[i].cash == s.users[i].cash - (if i == d.payer then d.amount else 0)
            && s'.users[i].pass == s.users[i].pass + (if i == d.passTo then d.amount else 0)
            && s'.users[i].fail == s.users[i].fail + (if i == d.failTo then d.amount else 0)
            && s'.mintEnd == s.mintEnd && s'.decideEnd == s.decideEnd && s'.decider == s.decider && s'.decision == s.decision
  {
  }

  /** How many PASS tokens a withdrawal burns: all of the amount, none, or as many of it as the account has. */
  function PassTaken(s: Pool, w: Withdrawal): (n: nat)
    requires Holders(s, w)
  {
    if s.decision.Pass? then w.amount
    else if s.decision.Fail? then 0
    else if w.amount <= s.users[w.passFrom].pass then w.amount
    else s.users[w.passFrom].pass
  }

  /** A withdrawal pays the account named and burns from the two others; no other balance changes. */
  lemma WithdrawBalances(s: Pool, w: Withdrawal, i: nat)
    requires Holders(s, w) && Covered(s, w) && i < |s.users|
    ensures var s', fails := Withdrawn(s, w), if s.decision.Pass? then 0 else w.amount;
            && |s'.users| == |s.users| && s'.deposit == s.deposit - w.amount
            && s'.passSupply == s.passSupply - PassTaken(s, w) && s'.failSupply == s.failSupply - fails
            && s'.users[i].cash == s.users[i].cash + (if i == w.cashTo then w.amount else 0)
            && s'.users[i].pass == s.users[i].pass - (if i == w.passFrom then PassTaken(s, w) else 0)
            && s'.users[i].fail == s.users[i].fail - (if i == w.failFrom then fails else 0)
            && s'.mintEnd == s.mintEnd && s'.decideEnd == s.decideEnd && s'.decider == s.decider && s'.decision == s.decision
  {
  }

  // ----- token movements outside the program -----

  /** A holder may send its own tokens to another holder, or cash to the deposit account. */
  datatype Move = ToHolder(source: nat, target: nat, token: Token, amount: nat) | ToDeposit(source: nat, amount: nat)

  predicate MoveAllowed(s: Pool, m: Move)
  {
    match m
    case ToHolder(source, target, token, amount) => CanTake(s.users, source, token, amount) && target < |s.users|
    case ToDeposit(source, amount) => CanTake(s.users, source, Cash, amount)
  }

  function Moved(s: Pool, m: Move): (s': Pool)
    requires MoveAllowed(s, m)
  {
    match m
    case ToHolder(source, target, token, amount) => s.(users := Give(Take(s.users, source, token, amount), target, token, amount))
    case ToDeposit(source, amount) => s.(deposit := s.deposit + amount, users := Take(s.users, source, Cash, amount))
  }

  /** A transfer takes from one account and gives to another, or to the deposit account; no other balance changes. */
  lemma MoveBalances(s: Pool, m: Move, i: nat, token: Token)
    requires MoveAllowed(s, m) && i < |s.users|
    ensures var s' := Moved(s, m);
            && |s'.users| == |s.users| && s'.deposit == s.deposit + (if m.ToDeposit? then m.amount else 0)
            && s'.passSupply == s.passSupply && s'.failSupply == s.failSupply
            && Amount(s'.users[i], token) == Amount(s.users[i], token)
               - (if i == m.source && token == (if m.ToHolder? then m.token else Cash) then m.amount else 0)
               + (if m.ToHolder? && i == m.target && token == m.token then m.amount else 0)
  {
  }

  lemma MovedKeepsLedger(s: Pool, m: Move)
    requires Ledger(s) && MoveAllowed(s, m)
    ensures Ledger(Moved(s, m))
  {
    match m
    case ToHolder(source, target, token, amount) =>
      TakeTotal(s.users, source, token, amount);
      GiveTotal(Take(s.users, source, token, amount), target, token, amount);
    case ToDeposit(source, amount) => TakeTotal(s.users, source, Cash, amount);
  }
}
