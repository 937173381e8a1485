/** Whole runs of a binary option pool: collateral, positions, collections and the final payoff. */
module OptionRuns {
  import opened Basics
  import opened Sums
  import opened OptionPool
  import opened OptionProgram

  datatype Op = DoTrade(t: Trade) | DoSettle(side: Side) | DoCollect(who: nat) | DoMove(m: Move)

  /** One step; an instruction that fails is rolled back and changes nothing. */
  function Next(s: Pool, op: Op): (s': Pool)
  {
    match op
    case DoTrade(t) => if TradeAllowed(s, t) && Tradable(s, t) then Netted(s, t) else s
    case DoSettle(side) => if s.settled then s else Settled(s, side)
    case DoCollect(who) => if CollectAllowed(s, who) && Collectable(s, who) then Collected(s, who) else s
    case DoMove(m) => if MoveAllowed(s, m) then MovedTokens(s, m) else s
  }

  function Run(s: Pool, ops: seq<Op>): (s': Pool)
    decreases |ops|
  {
    if ops == [] then s else Run(Next(s, ops[0]), ops[1..])
  }

  datatype Instruction = TradeIx(t: Trade) | SettleIx(signer: nat, isSigner: bool, mint: Option<Side>) | CollectIx(who: nat)

  /** The program's entry point: the runtime undoes every change of a failed instruction. */
  method Process(program: Program, ix: Instruction) returns (r: Outcome)
    requires Invariant(program.State()) && (ix.TradeIx? ==> ix.t.size <= U64_MAX)
    modifies program
    ensures Invariant(program.State()) && program.owner == old(program.owner)
    ensures r.Failed? ==> program.State() == old(program.State()) && Expected(r.error)
    ensures match ix
            case TradeIx(t) => program.State() == Next(old(program.State()), DoTrade(t)) && (r.Done? <==> TradeAllowed(old(program.State()), t))
            case CollectIx(who) => program.State() == Next(old(program.State()), DoCollect(who)) && (r.Done? <==> CollectAllowed(old(program.State()), who))
            case SettleIx(signer, isSigner, mint) =>
              && (r.Done? ==> mint.Some? && program.State() == Next(old(program.State()), DoSettle(mint.value)))
              && (r.Done? <==> isSigner && signer == program.owner && mint.Some? && !old(program.settled))
  {
    var circulation, escrow, longs, shorts, wallets :=
      program.circulation, program.escrow, program.longSupply, program.shortSupply, program.wallets;
    ghost var s := program.State();
    match ix {
      case TradeIx(t) =>
        r := program.ProcessTrade(t);
        if r.Done? { NettedKeepsInvariant(s, t); }
      case SettleIx(signer, isSigner, mint) =>
        r := program.ProcessSettle(signer, isSigner, mint);
      case CollectIx(who) =>
        r := program.ProcessCollect(who);
        if r.Done? { CollectedKeepsInvariant(s, who); }
    }
    if r.Failed? {
      program.circulation, program.escrow, program.longSupply, program.shortSupply, program.wallets :=
        circulation, escrow, longs, shorts, wallets;
    }
  }

  // ----- safety over every run -----

  lemma NextKeepsInvariant(s: Pool, op: Op)
    requires Invariant(s)
    ensures Invariant(Next(s, op))
    ensures Total(Next(s, op).wallets, Cash) + Next(s, op).escrow == Total(s.wallets, Cash) + s.escrow
    ensures Next(s, op).decimals == s.decimals && |Next(s, op).wallets| == |s.wallets|
    ensures s.settled ==> Next(s, op).settled && Next(s, op).winner == s.winner
  {
    match op
    case DoTrade(t) => if TradeAllowed(s, t) && Tradable(s, t) { NettedKeepsInvariant(s, t); }
    case DoSettle(side) =>
    case DoCollect(who) => if CollectAllowed(s, who) && Collectable(s, who) { CollectedKeepsInvariant(s, who); }
    case DoMove(m) => if MoveAllowed(s, m) { MovedKeepsInvariant(s, m); }
  }

  lemma {:induction false} RunKeepsInvariant(s: Pool, ops: seq<Op>)
    requires Invariant(s)
    ensures Invariant(Run(s, ops))
    ensures Total(Run(s, ops).wallets, Cash) + Run(s, ops).escrow == Total(s.wallets, Cash) + s.escrow
    ensures Run(s, ops).decimals == s.decimals && |Run(s, ops).wallets| == |s.wallets|
    ensures s.settled ==> Run(s, ops).settled && Run(s, ops).winner == s.winner
    decreases |ops|
  {
    if ops != [] {
      NextKeepsInvariant(s, ops[0]);
      RunKeepsInvariant(Next(s, ops[0]), ops[1..]);
    }
  }

  /** A pool just initialized, with the cash the participants bring. */
  function Fresh(decimals: nat, cash: seq<nat>): (s: Pool)
  {
    Pool(decimals, 0, false, None, 0, 0, 0, seq(|cash|, i requires 0 <= i < |cash| => Held(cash[i], 0, 0)))
  }

  lemma FreshInvariant(decimals: nat, cash: seq<nat>)
    requires Total(Fresh(decimals, cash).wallets, Cash) <= U64_MAX
    ensures Invariant(Fresh(decimals, cash)) && Exact(Fresh(decimals, cash))
  {
    var ws := Fresh(decimals, cash).wallets;
    SumOfZeros(ws, AmountOf(Position(Long)), |ws|);
    SumOfZeros(ws, AmountOf(Position(Short)), |ws|);
    NothingToPay(Pow10(decimals));
  }

  // ----- which trades are executed -----

  /** What the parties agree on: prices that add up to the payout of a contract, between two wallets of a pool that is not settled. */
  predicate Agreed(s: Pool, t: Trade)
  {
    && !s.settled && t.buyPrice + t.sellPrice == Pow10(s.decimals) <= U64_MAX
    && t.buyer < |s.wallets| && t.seller < |s.wallets| && t.buyer != t.seller && t.size <= U64_MAX
  }

  /** Each party has the price of the contracts that its opposite position does not cover. */
  predicate CanPay(s: Pool, t: Trade)
    requires t.buyer < |s.wallets| && t.seller < |s.wallets|
  {
    var b, c := s.wallets[t.buyer], s.wallets[t.seller];
    && (t.size <= b.short || (t.size - b.short) * t.buyPrice <= b.cash)
    && (t.size <= c.long || (t.size - c.long) * t.sellPrice <= c.cash)
  }

  /** A party's long tokens less its short tokens. */
  function NetPosition(s: Pool, who: nat): (n: int)
    requires who < |s.wallets|
  {
    s.wallets[who].long - s.wallets[who].short
  }

  /** The condition of the program, without its arithmetic. */
  lemma TradeAllowedMeans(s: Pool, t: Trade)
    ensures TradeAllowed(s, t) <==>
              && Agreed(s, t) && CanPay(s, t)
              && var nb, ns := s.wallets[t.buyer].short, s.wallets[t.seller].long;
                 t.size <= nb || t.size <= ns || nb + ns <= t.size
  {
    if t.buyer < |s.wallets| && t.seller < |s.wallets| {
      TimesIsProduct(t.size - BuyerCloses(s, t), t.buyPrice);
      TimesIsProduct(t.size - SellerCloses(s, t), t.sellPrice);
    }
  }

  /**
   * Exactly which trades of a nonzero size are executed: prices that add up, two parties that can pay for what they open,
   * and a size that one opposite position covers or that covers both together. A trade moves the net positions of both
   * parties by its size; otherwise nothing changes.
   */
  lemma TradeExecuted(s: Pool, t: Trade)
    requires Invariant(s) && t.size > 0
    ensures var s' := Next(s, DoTrade(t));
            var executed := && Agreed(s, t) && CanPay(s, t)
                            && var nb, ns := s.wallets[t.buyer].short, s.wallets[t.seller].long;
                               t.size <= nb || t.size <= ns || nb + ns <= t.size;
            && (executed <==> s' != s)
            && (executed ==> |s'.wallets| == |s.wallets|
                             && NetPosition(s', t.buyer) == NetPosition(s, t.buyer) + t.size
                             && NetPosition(s', t.seller) == NetPosition(s, t.seller) - t.size
                             && forall i :: 0 <= i < |s.wallets| && i != t.buyer && i != t.seller ==> s'.wallets[i] == s.wallets[i])
  {
    TradeAllowedMeans(s, t);
    if TradeAllowed(s, t) {
      InvariantTradable(s, t);
      NettingRule(s, t);
    }
  }

  // ----- who wins -----

  predicate IsFirstSettlement(ops: seq<Op>, k: nat)
  {
    k < |ops| && ops[k].DoSettle? && forall j :: 0 <= j < k ==> !ops[j].DoSettle?
  }

  lemma {:induction false} WinnerIsFinal(s: Pool, ops: seq<Op>)
    requires s.settled
    ensures Run(s, ops).settled && Run(s, ops).winner == s.winner
    decreases |ops|
  {
    if ops != [] { WinnerIsFinal(Next(s, ops[0]), ops[1..]); }
  }

  /** A run is settled exactly when it holds a settlement, and the side named first wins for good. */
  lemma {:induction false} FirstSettlementWins(s: Pool, ops: seq<Op>)
    requires !s.settled
    ensures Run(s, ops).settled <==> exists k: nat :: IsFirstSettlement(ops, k)
    ensures forall k: nat :: IsFirstSettlement(ops, k) ==> Run(s, ops).winner == Some(ops[k].side)
    decreases |ops|
  {
    if ops != [] {
      var rest := ops[1..];
      if ops[0].DoSettle? {
        WinnerIsFinal(Next(s, ops[0]), rest);
        assert IsFirstSettlement(ops, 0);
      } else {
        FirstSettlementWins(Next(s, ops[0]), rest);
        forall k: nat | IsFirstSettlement(ops, k) ensures k > 0 && IsFirstSettlement(rest, k - 1) {
          forall j | 0 <= j < k - 1 ensures !rest[j].DoSettle? { assert rest[j] == ops[j + 1]; }
        }
        forall k: nat | IsFirstSettlement(rest, k) ensures IsFirstSettlement(ops, k + 1) {
          forall j | 0 <= j < k + 1 ensures !ops[j].DoSettle? { if j > 0 { assert ops[j] == rest[j - 1]; } }
        }
      }
    }
  }

  // ----- gifts to the escrow -----

  /** Cash one step adds to the escrow without a contract. */
  function Gift(s: Pool, op: Op): (n: nat)
  {
    if op.DoMove? && op.m.ToEscrow? && MoveAllowed(s, op.m) then op.m.amount else 0
  }

  function Gifts(s: Pool, ops: seq<Op>): (n: nat)
    decreases |ops|
  {
    if ops == [] then 0 else Gift(s, ops[0]) + Gifts(Next(s, ops[0]), ops[1..])
  }

  predicate Collects(s: Pool, op: Op)
  {
    op.DoCollect? && CollectAllowed(s, op.who) && Collectable(s, op.who)
  }

  /** Some step of the run is a collection that succeeds. */
  predicate AnyCollected(s: Pool, ops: seq<Op>)
    decreases |ops|
  {
    ops != [] && (Collects(s, ops[0]) || AnyCollected(Next(s, ops[0]), ops[1..]))
  }

  /** What the escrow holds beyond the payouts of the contracts in circulation. */
  function Surplus(s: Pool): (n: int)
  {
    s.escrow - Times(s.circulation, Payout(s))
  }

  /** Only a gift adds to the surplus and only a collection can take from it; from an exact escrow it takes nothing. */
  lemma NextSurplus(s: Pool, op: Op)
    requires Invariant(s)
    ensures !Collects(s, op) ==> Surplus(Next(s, op)) == Surplus(s) + Gift(s, op)
    ensures Exact(s) && Gift(s, op) == 0 ==> Exact(Next(s, op))
  {
    match op
    case DoTrade(t) => if TradeAllowed(s, t) && Tradable(s, t) { TimesSum(s.circulation, NewContracts(s, t), Payout(s)); }
    case DoSettle(side) =>
    case DoCollect(who) => if Collects(s, op) { CollectedKeepsInvariant(s, who); }
    case DoMove(m) => if MoveAllowed(s, m) { MovedKeepsInvariant(s, m); }
  }

  lemma {:induction false} RunSurplus(s: Pool, ops: seq<Op>)
    requires Invariant(s)
    ensures !AnyCollected(s, ops) ==> Surplus(Run(s, ops)) == Surplus(s) + Gifts(s, ops)
    ensures Exact(s) && Gifts(s, ops) == 0 ==> Exact(Run(s, ops))
    decreases |ops|
  {
    if ops != [] {
      NextKeepsInvariant(s, ops[0]);
      NextSurplus(s, ops[0]);
      RunSurplus(Next(s, ops[0]), ops[1..]);
    }
  }

  lemma {:induction false} NothingCollectedUnsettled(s: Pool, ops: seq<Op>)
    requires Invariant(s) && !Run(s, ops).settled
    ensures !AnyCollected(s, ops)
    decreases |ops|
  {
    if ops != [] {
      NextKeepsInvariant(s, ops[0]);
      RunKeepsInvariant(Next(s, ops[0]), ops[1..]);
      NothingCollectedUnsettled(Next(s, ops[0]), ops[1..]);
    }
  }

  /** In every reachable state the pool is fully collateralized and the token supplies agree with circulation. */
  lemma AlwaysCollateralized(decimals: nat, cash: seq<nat>, ops: seq<Op>)
    requires Total(Fresh(decimals, cash).wallets, Cash) <= U64_MAX
    ensures var s := Run(Fresh(decimals, cash), ops);
            && s.escrow >= s.circulation * Pow10(decimals)
            && s.longSupply == Total(s.wallets, Position(Long)) && s.shortSupply == Total(s.wallets, Position(Short))
            && (!s.settled ==> s.longSupply == s.circulation == s.shortSupply)
            && (s.settled ==> s.winner.Some? && Supply(s, s.winner.value) == s.circulation)
  {
    FreshInvariant(decimals, cash);
    RunKeepsInvariant(Fresh(decimals, cash), ops);
    var s := Run(Fresh(decimals, cash), ops);
    TimesIsProduct(s.circulation, Pow10(decimals));
  }

  /**
   * In every reachable state the escrow is exactly the collateral unless cash was given to it: without gifts, whatever
   * was traded, collected and moved between holders; and, while nothing is collected, up to exactly the sum of the gifts.
   */
  lemma ExactlyCollateralized(decimals: nat, cash: seq<nat>, ops: seq<Op>)
    requires Total(Fresh(decimals, cash).wallets, Cash) <= U64_MAX
    ensures var s, given := Run(Fresh(decimals, cash), ops), Gifts(Fresh(decimals, cash), ops);
            && (given == 0 ==> s.escrow == s.circulation * Pow10(decimals))
            && (!AnyCollected(Fresh(decimals, cash), ops) ==> s.escrow == s.circulation * Pow10(decimals) + given)
            && (!s.settled ==> (s.escrow == s.circulation * Pow10(decimals) <==> given == 0))
  {
    var s0 := Fresh(decimals, cash);
    FreshInvariant(decimals, cash);
    RunKeepsInvariant(s0, ops);
    RunSurplus(s0, ops);
    if !Run(s0, ops).settled { NothingCollectedUnsettled(s0, ops); }
    TimesIsProduct(Run(s0, ops).circulation, Pow10(decimals));
  }

  // ----- runs without outside token movements -----

  predicate Closed(ops: seq<Op>)
  {
    forall k :: 0 <= k < |ops| ==> !ops[k].DoMove?
  }

  lemma {:induction false} ClosedHasNoGifts(s: Pool, ops: seq<Op>)
    requires Closed(ops)
    ensures Gifts(s, ops) == 0
    decreases |ops|
  {
    if ops != [] {
      assert !ops[0].DoMove?;
      ClosedHasNoGifts(Next(s, ops[0]), ops[1..]);
    }
  }

  /** The pool may burn exactly what the wallet holds, and the wallet is on one side only. */
  predicate Tidy(w: Wallet)
  {
    w.longDelegated == w.long && w.shortDelegated == w.short && (w.long == 0 || w.short == 0)
  }

  ghost predicate AllTidy(s: Pool)
  {
    forall i :: 0 <= i < |s.wallets| ==> Tidy(s.wallets[i])
  }

  lemma {:induction false} RunKeepsTidy(s: Pool, ops: seq<Op>)
    requires Invariant(s) && AllTidy(s) && Closed(ops)
    ensures AllTidy(Run(s, ops))
    decreases |ops|
  {
    if ops != [] {
      assert !ops[0].DoMove?;
      NextKeepsInvariant(s, ops[0]);
      assert AllTidy(Next(s, ops[0]));
      RunKeepsTidy(Next(s, ops[0]), ops[1..]);
    }
  }

  /** In every state of a closed run no wallet holds both sides and the pool may burn all that each wallet holds. */
  lemma ClosedRunsAreTidy(decimals: nat, cash: seq<nat>, ops: seq<Op>)
    requires Total(Fresh(decimals, cash).wallets, Cash) <= U64_MAX && Closed(ops)
    ensures AllTidy(Run(Fresh(decimals, cash), ops))
  {
    FreshInvariant(decimals, cash);
    RunKeepsTidy(Fresh(decimals, cash), ops);
  }

  /** In a closed run a collection fails, once settled, only by overflow of the product in the share. */
  lemma CollectFailsOnlyByOverflow(decimals: nat, cash: seq<nat>, ops: seq<Op>, who: nat)
    requires Total(Fresh(decimals, cash).wallets, Cash) <= U64_MAX && Closed(ops) && who < |cash|
    ensures var s := Run(Fresh(decimals, cash), ops);
            s.settled ==> s.winner.Some? && who < |s.wallets|
                          && (CollectAllowed(s, who) <==> Reward(s, who) * s.escrow <= U64_MAX)
                          && Pay(s, who) == Reward(s, who) * Pow10(decimals)
  {
    var s0 := Fresh(decimals, cash);
    FreshInvariant(decimals, cash);
    RunKeepsInvariant(s0, ops);
    RunKeepsTidy(s0, ops);
    ClosedHasNoGifts(s0, ops);
    RunSurplus(s0, ops);
    var s := Run(s0, ops);
    if s.settled {
      assert Tidy(s.wallets[who]);
      InvariantCollectable(s, who);
      CollateralAfterPay(s, who);
      TimesIsProduct(Reward(s, who), s.escrow);
      TimesIsProduct(Reward(s, who), Pow10(decimals));
    }
  }

  // ----- the final payoff -----

  /** What a wallet is worth if `side` wins: its cash and the payout of its winning tokens. */
  function Worth(s: Pool, side: Side, who: nat): (v: int)
    requires who < |s.wallets|
  {
    s.wallets[who].cash + Times(Holding(s.wallets[who], side), Payout(s))
  }

  /** What one trade earns a participant if `side` wins: the payout of each contract on its side, less its price. */
  function TradeGain(t: Trade, payout: nat, side: Side, who: nat): (v: int)
  {
    (if t.buyer == who then (if side.Long? then Times(t.size, payout) else 0) - Times(t.size, t.buyPrice) else 0)
    + (if t.seller == who then (if side.Short? then Times(t.size, payout) else 0) - Times(t.size, t.sellPrice) else 0)
  }

  /** The gain of a trade as the product it is. */
  lemma GainInFigures(t: Trade, payout: nat, side: Side, who: nat)
    requires t.buyer != t.seller
    ensures TradeGain(t, payout, side, who)
            == if who == t.buyer then t.size * ((if side.Long? then payout else 0) - t.buyPrice)
               else if who == t.seller then t.size * ((if side.Short? then payout else 0) - t.sellPrice)
               else 0
  {
    TimesIsProduct(t.size, payout);
    TimesIsProduct(t.size, t.buyPrice);
    TimesIsProduct(t.size, t.sellPrice);
  }

  /** The gain of one step, zero unless it is a trade that is executed. */
  function Gain(s: Pool, op: Op, side: Side, who: nat): (v: int)
  {
    if op.DoTrade? && TradeAllowed(s, op.t) && Tradable(s, op.t) then TradeGain(op.t, Payout(s), side, who) else 0
  }

  function Gains(s: Pool, ops: seq<Op>, side: Side, who: nat): (v: int)
    decreases |ops|
  {
    if ops == [] then 0 else Gain(s, ops[0], side, who) + Gains(Next(s, ops[0]), ops[1..], side, who)
  }

  lemma TradeWorth(s: Pool, t: Trade, side: Side, who: nat)
    requires Tradable(s, t) && TradeAllowed(s, t) && who < |s.wallets|
    ensures Worth(Netted(s, t), side, who) == Worth(s, side, who) + TradeGain(t, Payout(s), side, who)
  {
    var n, p := t.size, Payout(s);
    if who == t.buyer {
      var m := BuyerCloses(s, t);
      var w := s.wallets[who];
      TimesSum(w.long, n - m, p);
      TimesSum(w.short - m, m, p);
      TimesSum(n - m, m, p);
    } else if who == t.seller {
      var m := SellerCloses(s, t);
      var w := s.wallets[who];
      TimesSum(w.short, n - m, p);
      TimesSum(w.long - m, m, p);
      TimesSum(n - m, m, p);
    }
  }

  lemma CollectWorth(s: Pool, collector: nat, who: nat)
    requires Invariant(s) && Exact(s) && CollectAllowed(s, collector) && Collectable(s, collector) && who < |s.wallets|
    ensures Worth(Collected(s, collector), s.winner.value, who) == Worth(s, s.winner.value, who)
  {
    CollateralAfterPay(s, collector);
    NothingToPay(Payout(s));
  }

  /** What an amount of a token is worth if `side` wins. */
  function TokenWorth(token: Token, amount: nat, payout: nat, side: Side): (v: int)
  {
    if token.Cash? then amount else if token.side == side then Times(amount, payout) else 0
  }

  /** What one step brings a participant from other holders, less what it sends them. */
  function Received(s: Pool, op: Op, side: Side, who: nat): (v: int)
  {
    if op.DoMove? && op.m.ToHolder? && MoveAllowed(s, op.m) then
      (if op.m.target == who then TokenWorth(op.m.token, op.m.amount, Payout(s), side) else 0)
      - (if op.m.source == who then TokenWorth(op.m.token, op.m.amount, Payout(s), side) else 0)
    else 0
  }

  function Transfers(s: Pool, ops: seq<Op>, side: Side, who: nat): (v: int)
    decreases |ops|
  {
    if ops == [] then 0 else Received(s, ops[0], side, who) + Transfers(Next(s, ops[0]), ops[1..], side, who)
  }

  lemma MoveWorth(s: Pool, m: Move, side: Side, who: nat)
    requires MoveAllowed(s, m) && m.ToHolder? && who < |s.wallets|
    ensures Worth(MovedTokens(s, m), side, who) == Worth(s, side, who) + Received(s, DoMove(m), side, who)
  {
    if m.token == Position(side) {
      TimesSum(Holding(s.wallets[m.source], side) - m.amount, m.amount, Payout(s));
      TimesSum(Holding(s.wallets[m.target], side), m.amount, Payout(s));
    }
  }

  lemma NextWorth(s: Pool, op: Op, side: Side, who: nat)
    requires Invariant(s) && Exact(s) && Gift(s, op) == 0 && who < |s.wallets|
    requires Next(s, op).settled ==> Next(s, op).winner == Some(side)
    ensures who < |Next(s, op).wallets|
    ensures Worth(Next(s, op), side, who) == Worth(s, side, who) + Gain(s, op, side, who) + Received(s, op, side, who)
  {
    match op
    case DoTrade(t) => if TradeAllowed(s, t) && Tradable(s, t) { TradeWorth(s, t, side, who); }
    case DoSettle(_) =>
    case DoCollect(c) => if CollectAllowed(s, c) && Collectable(s, c) { CollectWorth(s, c, who); }
    case DoMove(m) => if MoveAllowed(s, m) && m.ToHolder? { MoveWorth(s, m, side, who); }
  }

  /** Worth at the end is worth at the start plus gains and transfers, whatever was netted or collected on the way. */
  lemma {:induction false} WorthOverRun(s: Pool, ops: seq<Op>, side: Side, who: nat)
    requires Invariant(s) && Exact(s) && Gifts(s, ops) == 0 && who < |s.wallets|
    requires Run(s, ops).settled ==> Run(s, ops).winner == Some(side)
    ensures who < |Run(s, ops).wallets|
    ensures Worth(Run(s, ops), side, who) == Worth(s, side, who) + Gains(s, ops, side, who) + Transfers(s, ops, side, who)
    decreases |ops|
  {
    if ops != [] {
      var s' := Next(s, ops[0]);
      NextKeepsInvariant(s, ops[0]);
      NextSurplus(s, ops[0]);
      RunKeepsInvariant(s', ops[1..]);
      NextWorth(s, ops[0], side, who);
      WorthOverRun(s', ops[1..], side, who);
    }
  }

  /**
   * The whole-run payoff. From no positions, over any run that ends settled and gives nothing to the escrow, the winner is
   * the side named by the first settlement, and a participant's cash and uncollected payout are its starting cash plus, for
   * each executed trade, size * (payout if its side won - price), plus what other holders sent it less what it sent them.
   */
  lemma FinalPayoff(decimals: nat, cash: seq<nat>, ops: seq<Op>, who: nat)
    requires Total(Fresh(decimals, cash).wallets, Cash) <= U64_MAX && who < |cash|
    requires Gifts(Fresh(decimals, cash), ops) == 0 && Run(Fresh(decimals, cash), ops).settled
    ensures var s0, s := Fresh(decimals, cash), Run(Fresh(decimals, cash), ops);
            && (exists k: nat :: IsFirstSettlement(ops, k)) && (forall k: nat :: IsFirstSettlement(ops, k) ==> s.winner == Some(ops[k].side))
            && s.winner.Some? && who < |s.wallets|
            && s.wallets[who].cash + Reward(s, who) * Pow10(decimals)
               == cash[who] + Gains(s0, ops, s.winner.value, who) + Transfers(s0, ops, s.winner.value, who)
  {
    var s0 := Fresh(decimals, cash);
    FreshInvariant(decimals, cash);
    RunKeepsInvariant(s0, ops);
    FirstSettlementWins(s0, ops);
    var s := Run(s0, ops);
    WorthOverRun(s0, ops, s.winner.value, who);
    TimesIsProduct(Reward(s, who), Pow10(decimals));
    NothingToPay(Pow10(decimals));
  }

  /** Once settled, a wallet that has collected stays empty of positions, so its cash is final. */
  lemma {:induction false} CollectedStaysEmpty(s: Pool, ops: seq<Op>, who: nat)
    requires Invariant(s) && s.settled && who < |s.wallets| && Closed(ops)
    requires s.wallets[who].long == 0 && s.wallets[who].short == 0
    ensures who < |Run(s, ops).wallets| && Run(s, ops).wallets[who].long == 0 && Run(s, ops).wallets[who].short == 0
    decreases |ops|
  {
    if ops != [] {
      assert !ops[0].DoMove?;
      NextKeepsInvariant(s, ops[0]);
      CollectedStaysEmpty(Next(s, ops[0]), ops[1..], who);
    }
  }

  /** When no winning token is left after a run without gifts, nothing is left in escrow: the gains of all add up to zero. */
  lemma NothingLeftOver(decimals: nat, cash: seq<nat>, ops: seq<Op>)
    requires Total(Fresh(decimals, cash).wallets, Cash) <= U64_MAX && Gifts(Fresh(decimals, cash), ops) == 0
    requires var s := Run(Fresh(decimals, cash), ops);
             s.settled && s.winner.Some? && forall i :: 0 <= i < |s.wallets| ==> Holding(s.wallets[i], s.winner.value) == 0
    ensures var s := Run(Fresh(decimals, cash), ops);
            s.escrow == 0 && Total(s.wallets, Cash) == Total(Fresh(decimals, cash).wallets, Cash)
  {
    var s0 := Fresh(decimals, cash);
    FreshInvariant(decimals, cash);
    RunKeepsInvariant(s0, ops);
    RunSurplus(s0, ops);
    var s := Run(s0, ops);
    SumOfZeros(s.wallets, AmountOf(Position(s.winner.value)), |s.wallets|);
    NothingToPay(Payout(s));
  }

  // ----- collections with a surplus in escrow -----

  /** A collection in plain figures, whatever the escrow holds: the rounded-down share is paid and all positions are burned. */
  lemma CollectionInFigures(s: Pool, who: nat)
    requires Invariant(s) && CollectAllowed(s, who)
    ensures var s', w := Next(s, DoCollect(who)), s.wallets[who];
            && |s'.wallets| == |s.wallets|
            && var pay := s'.wallets[who].cash - w.cash;
               && (s.circulation > 0 ==> pay * s.circulation <= Reward(s, who) * s.escrow < (pay + 1) * s.circulation)
               && (s.circulation == 0 ==> pay == 0)
               && s'.escrow == s.escrow - pay && s'.circulation == s.circulation - Reward(s, who)
               && s'.wallets[who].long == 0 && s'.wallets[who].short == 0
               && s'.longSupply == s.longSupply - w.long && s'.shortSupply == s.shortSupply - w.short
               && forall i :: 0 <= i < |s.wallets| && i != who ==> s'.wallets[i] == s.wallets[i]
  {
    InvariantCollectable(s, who);
    if s.circulation > 0 && Reward(s, who) > 0 { ShareMeans(Reward(s, who), s.escrow, s.circulation); }
  }

  /** One collection does not lower the escrow per remaining winning token, and the last one empties the escrow. */
  lemma CollectionKeepsClaim(s: Pool, who: nat)
    requires Invariant(s) && CollectAllowed(s, who) && Collectable(s, who)
    ensures Collected(s, who).escrow * s.circulation >= s.escrow * Collected(s, who).circulation
    ensures 0 < Reward(s, who) == s.circulation ==> Collected(s, who).escrow == 0
  {
    if Reward(s, who) > 0 {
      ShareBounds(Reward(s, who), s.escrow, s.circulation);
    }
  }

  /** Each winning token of the later pool can claim no less than each of the earlier. */
  predicate ClaimKept(before: Pool, after: Pool)
  {
    after.escrow * before.circulation >= before.escrow * after.circulation
  }

  lemma NextKeepsClaim(s: Pool, op: Op)
    requires Invariant(s) && s.settled
    ensures ClaimKept(s, Next(s, op)) && Next(s, op).circulation <= s.circulation
  {
    if Collects(s, op) {
      CollectionKeepsClaim(s, op.who);
    } else {
      Scale(s.escrow, Next(s, op).escrow, s.circulation);
    }
  }

  /** After settlement, over any run, the escrow per remaining winning token never drops, whoever collects in what order. */
  lemma {:induction false} ClaimNeverDrops(s: Pool, ops: seq<Op>)
    requires Invariant(s) && s.settled
    ensures Run(s, ops).escrow * s.circulation >= s.escrow * Run(s, ops).circulation
    ensures Run(s, ops).circulation <= s.circulation
    decreases |ops|
  {
    if ops != [] {
      NextKeepsInvariant(s, ops[0]);
      NextKeepsClaim(s, ops[0]);
      ClaimNeverDrops(Next(s, ops[0]), ops[1..]);
      ClaimsCompose(s, Next(s, ops[0]), Run(s, ops));
    }
  }

  /** Ratios compare transitively. */
  lemma ClaimsCompose(a: Pool, b: Pool, c: Pool)
    requires ClaimKept(a, b) && ClaimKept(b, c) && c.circulation <= b.circulation
    ensures ClaimKept(a, c)
  {
    if b.circulation > 0 {
      RatiosCompose(a.escrow, a.circulation, b.escrow, b.circulation, c.escrow, c.circulation);
    }
  }

  lemma RatiosCompose(e0: nat, c0: nat, e1: nat, c1: nat, e2: nat, c2: nat)
    requires c1 > 0 && e1 * c0 >= e0 * c1 && e2 * c1 >= e1 * c2
    ensures e2 * c0 >= e0 * c2
  {
    Scale(e0 * c1, e1 * c0, c2);
    Scale(e1 * c2, e2 * c1, c0);
    assert (e0 * c2) * c1 == (e0 * c1) * c2;
    assert (e1 * c0) * c2 == (e1 * c2) * c0;
    assert (e2 * c0) * c1 == (e2 * c1) * c0;
    assert (e2 * c0 + 1) * c1 == (e2 * c0) * c1 + c1;
    Cancel(e0 * c2, e2 * c0, c1);
  }

  // ----- what the program refuses although the pool could do it -----

  /** Whatever the pool, a funded trade in the gap is refused although netting it would keep the pool collateralized. */
  lemma GapIsRefused(s: Pool, t: Trade)
    requires Invariant(s) && Tradable(s, t) && Funded(s, t) && InGap(s, t)
    ensures Next(s, DoTrade(t)) == s
    ensures Invariant(Netted(s, t))
    ensures Netted(s, t).circulation == s.circulation - (s.wallets[t.buyer].short + s.wallets[t.seller].long - t.size)
  {
    NettedKeepsInvariant(s, t);
  }

  lemma RunOfTwo(s: Pool, a: Op, b: Op)
    ensures Run(s, [a]) == Next(s, a) && Run(s, [a, b]) == Next(Next(s, a), b)
  {
    assert [a, b][1..] == [b] && [b][1..] == [] && [a][1..] == [];
    assert Run(Next(s, a), [b]) == Run(Next(Next(s, a), b), []);
  }

  lemma TotalOfTwo(ws: seq<Wallet>, token: Token)
    requires |ws| == 2
    ensures Total(ws, token) == Amount(ws[0], token) + Amount(ws[1], token)
  {
    var f := AmountOf(token);
    assert SumOf(ws, f, 2) == SumOf(ws, f, 1) + f(ws[1]);
    assert SumOf(ws, f, 1) == SumOf(ws, f, 0) + f(ws[0]);
  }

  /** The first trade of a fresh pool opens its contracts for both parties. */
  lemma FirstTrade(decimals: nat, cash: seq<nat>, t: Trade)
    requires Total(Fresh(decimals, cash).wallets, Cash) <= U64_MAX
    requires t.buyPrice + t.sellPrice == Pow10(decimals) <= U64_MAX && t.size <= U64_MAX
    requires t.buyer < |cash| && t.seller < |cash| && t.buyer != t.seller
    requires Times(t.size, t.buyPrice) <= cash[t.buyer] && Times(t.size, t.sellPrice) <= cash[t.seller]
    ensures var s := Next(Fresh(decimals, cash), DoTrade(t));
            && Invariant(s) && Exact(s) && !s.settled && s.circulation == t.size && s.decimals == decimals
            && s.wallets == Fresh(decimals, cash).wallets
                              [t.buyer := Held(cash[t.buyer] - Times(t.size, t.buyPrice), t.size, 0)]
                              [t.seller := Held(cash[t.seller] - Times(t.size, t.sellPrice), 0, t.size)]
  {
    var s := Fresh(decimals, cash);
    FreshInvariant(decimals, cash);
    InvariantTradable(s, t);
    NettedKeepsInvariant(s, t);
    NothingToPay(Pow10(decimals));
  }

  /** A reachable pool with a trade in the gap: two parties with `k` contracts against each other cannot trade `k + 1`. */
  lemma GapExample(k: nat)
    requires 2 <= k && 3 * k <= U64_MAX
    ensures var s := Run(Fresh(0, [k, 2 * k]), [DoTrade(Trade(1, 0, k, 1, 0))]);
            var t := Trade(0, 1, k + 1, 1, 0);
            Invariant(s) && Tradable(s, t) && Funded(s, t) && InGap(s, t) && Next(s, DoTrade(t)) == s
  {
    var s0, first := Fresh(0, [k, 2 * k]), Trade(1, 0, k, 1, 0);
    TotalOfTwo(s0.wallets, Cash);
    TimesIsProduct(k, 1);
    TimesIsProduct(k, 0);
    FirstTrade(0, [k, 2 * k], first);
    RunOfTwo(s0, DoTrade(first), DoTrade(first));
    var s, t := Next(s0, DoTrade(first)), Trade(0, 1, k + 1, 1, 0);
    assert s.wallets == [Held(k, 0, k), Held(k, k, 0)];
    InvariantTradable(s, t);
    TimesIsProduct(1, 1);
    TimesIsProduct(1, 0);
  }

  // ----- collections that overflow -----

  /** One step of a closed run does not help the holder of all winning tokens whose share overflows. */
  lemma NextStaysLocked(s: Pool, op: Op, who: nat)
    requires Invariant(s) && s.settled && who < |s.wallets| && !op.DoMove?
    requires Reward(s, who) == s.circulation && Times(Reward(s, who), s.escrow) > U64_MAX
    ensures who < |Next(s, op).wallets| && Next(s, op).wallets[who] == s.wallets[who]
    ensures Next(s, op).escrow == s.escrow && Next(s, op).circulation == s.circulation
  {
    if Collects(s, op) {
      PositionBounds(s, s.winner.value, who, op.who);
    }
  }

  /** Without outside token movements the sole winner whose share overflows never collects. */
  lemma {:induction false} LockedForever(s: Pool, ops: seq<Op>, who: nat)
    requires Invariant(s) && s.settled && who < |s.wallets| && Closed(ops)
    requires Reward(s, who) == s.circulation && Times(Reward(s, who), s.escrow) > U64_MAX
    ensures !CollectAllowed(Run(s, ops), who)
    ensures who < |Run(s, ops).wallets| && Run(s, ops).wallets[who] == s.wallets[who] && Run(s, ops).escrow == s.escrow
    decreases |ops|
  {
    if ops != [] {
      assert !ops[0].DoMove?;
      NextKeepsInvariant(s, ops[0]);
      NextStaysLocked(s, ops[0], who);
      LockedForever(Next(s, ops[0]), ops[1..], who);
    }
  }

  /** The way out: a holder that sends some of its winning tokens away can collect for the rest, if that share fits. */
  lemma SplitUnlocks(s: Pool, who: nat, other: nat, amount: nat)
    requires Invariant(s) && s.settled && who < |s.wallets| && other < |s.wallets| && who != other
    requires s.wallets[who].long <= s.wallets[who].longDelegated && s.wallets[who].short <= s.wallets[who].shortDelegated
    requires amount <= Reward(s, who)
    ensures CollectAllowed(Next(s, DoMove(ToHolder(who, other, Position(s.winner.value), amount))), who)
            <==> (Reward(s, who) - amount) * s.escrow <= U64_MAX
  {
    TimesIsProduct(Reward(s, who) - amount, s.escrow);
  }

  // ----- what the delegations allow -----

  function Delegated(w: Wallet, side: Side): (n: nat)
  {
    if side.Long? then w.longDelegated else w.shortDelegated
  }

  /** How far a wallet's tokens of one side exceed what the pool may burn of them. */
  function Excess(s: Pool, who: nat, side: Side): (n: int)
    requires who < |s.wallets|
  {
    Holding(s.wallets[who], side) - Delegated(s.wallets[who], side)
  }

  /** Tokens of one side that a step brings a wallet from other holders, less what it sends them. */
  function Net(s: Pool, op: Op, who: nat, side: Side): (n: int)
  {
    if op.DoMove? && op.m.ToHolder? && op.m.token == Position(side) && MoveAllowed(s, op.m) then
      (if op.m.target == who then op.m.amount else 0) - (if op.m.source == who then op.m.amount else 0)
    else 0
  }

  function NetReceived(s: Pool, ops: seq<Op>, who: nat, side: Side): (n: int)
    decreases |ops|
  {
    if ops == [] then 0 else Net(s, ops[0], who, side) + NetReceived(Next(s, ops[0]), ops[1..], who, side)
  }

  lemma NextExcess(s: Pool, op: Op, who: nat, side: Side)
    requires Invariant(s) && s.settled && who < |s.wallets|
    ensures who < |Next(s, op).wallets| && Excess(Next(s, op), who, side) == Excess(s, who, side) + Net(s, op, who, side)
  {
  }

  /** After settlement nothing but transfers changes a wallet's excess: a collection burns and uses up delegation alike. */
  lemma {:induction false} ExcessOverRun(s: Pool, ops: seq<Op>, who: nat, side: Side)
    requires Invariant(s) && s.settled && who < |s.wallets|
    ensures who < |Run(s, ops).wallets|
    ensures Excess(Run(s, ops), who, side) == Excess(s, who, side) + NetReceived(s, ops, who, side)
    decreases |ops|
  {
    if ops != [] {
      NextExcess(s, ops[0], who, side);
      NextKeepsInvariant(s, ops[0]);
      ExcessOverRun(Next(s, ops[0]), ops[1..], who, side);
    }
  }

  /**
   * Exactly who can collect after any run from a settled pool: a wallet that has received, of each side, no more than it
   * sent and the pool may still burn, and whose product of tokens and escrow fits in 64 bits.
   */
  lemma CollectableAfterRun(s: Pool, ops: seq<Op>, who: nat)
    requires Invariant(s) && s.settled && who < |s.wallets|
    ensures var s' := Run(s, ops);
            && s'.winner.Some? && who < |s'.wallets|
            && (CollectAllowed(s', who) <==>
                && Excess(s, who, Long) + NetReceived(s, ops, who, Long) <= 0
                && Excess(s, who, Short) + NetReceived(s, ops, who, Short) <= 0
                && Reward(s', who) * s'.escrow <= U64_MAX)
  {
    RunKeepsInvariant(s, ops);
    ExcessOverRun(s, ops, who, Long);
    ExcessOverRun(s, ops, who, Short);
    TimesIsProduct(Reward(Run(s, ops), who), Run(s, ops).escrow);
  }

  /** Whoever has received more of a side than it sent since its tokens were all delegated cannot collect, at any later time. */
  lemma ReceivedIsNotCollectable(s: Pool, ops: seq<Op>, who: nat, side: Side)
    requires Invariant(s) && s.settled && who < |s.wallets|
    requires Excess(s, who, side) >= 0 && NetReceived(s, ops, who, side) > 0
    ensures !CollectAllowed(Run(s, ops), who)
  {
    ExcessOverRun(s, ops, who, side);
  }

  /** Sending winning tokens to another holder, collecting for the rest, getting them back and collecting again. */
  function Detour(s: Pool, who: nat, other: nat, amount: nat): (ops: seq<Op>)
    requires s.winner.Some?
  {
    [DoMove(ToHolder(who, other, Position(s.winner.value), amount)), DoCollect(who),
     DoMove(ToHolder(other, who, Position(s.winner.value), amount)), DoCollect(who)]
  }

  /** The full way out of an overflow: two collections in place of one pay everything, if each product fits. */
  lemma Recovery(s: Pool, who: nat, other: nat, amount: nat)
    requires Invariant(s) && Exact(s) && s.settled && who < |s.wallets| && other < |s.wallets| && who != other
    requires Excess(s, who, Long) <= 0 && Excess(s, who, Short) <= 0 && amount <= Reward(s, who)
    requires (Reward(s, who) - amount) * s.escrow <= U64_MAX
    requires amount * (s.escrow - (Reward(s, who) - amount) * Payout(s)) <= U64_MAX
    ensures var s', w := Run(s, Detour(s, who, other, amount)), s.wallets[who];
            && who < |s'.wallets| && s'.wallets[who].cash == w.cash + Reward(s, who) * Payout(s)
            && s'.wallets[who].long == 0 && s'.wallets[who].short == 0
  {
    var side, r, p := s.winner.value, Reward(s, who), Payout(s);
    var send, back := DoMove(ToHolder(who, other, Position(side), amount)), DoMove(ToHolder(other, who, Position(side), amount));
    var s1 := Next(s, send);
    var s2 := Next(s1, DoCollect(who));
    SendAndCollect(s, who, other, amount);
    BackAgain(s, s1, s2, who, other, amount);
    var s3 := Next(s2, back);
    InvariantCollectable(s3, who);
    CollectsAll(s3, who);
    RunOfFour(s, send, DoCollect(who), back, DoCollect(who));
    TimesIsProduct(amount, p);
    InTwoParts(r, amount, p);
  }

  lemma InTwoParts(r: nat, amount: nat, p: nat)
    requires amount <= r
    ensures (r - amount) * p + amount * p == r * p
  {
  }

  lemma SendAndCollect(s: Pool, who: nat, other: nat, amount: nat)
    requires Invariant(s) && Exact(s) && s.settled && who < |s.wallets| && other < |s.wallets| && who != other
    requires Excess(s, who, Long) <= 0 && Excess(s, who, Short) <= 0 && amount <= Reward(s, who)
    requires (Reward(s, who) - amount) * s.escrow <= U64_MAX
    ensures var s1 := Next(s, DoMove(ToHolder(who, other, Position(s.winner.value), amount)));
            var s2 := Next(s1, DoCollect(who));
            && Invariant(s2) && Exact(s2) && s2.settled && s2.winner == s.winner && |s1.wallets| == |s2.wallets| == |s.wallets|
            && Payout(s2) == Payout(s) && s2.wallets[other] == s1.wallets[other]
            && s2.wallets[who].long == 0 && s2.wallets[who].short == 0
            && (forall side :: Excess(s2, who, side) == Excess(s1, who, side))
            && s2.escrow == s.escrow - (Reward(s, who) - amount) * Payout(s)
            && s2.wallets[who].cash == s.wallets[who].cash + (Reward(s, who) - amount) * Payout(s)
  {
    var send := DoMove(ToHolder(who, other, Position(s.winner.value), amount));
    var s1 := Next(s, send);
    NextKeepsInvariant(s, send);
    NextSurplus(s, send);
    SplitUnlocks(s, who, other, amount);
    InvariantCollectable(s1, who);
    CollectsAll(s1, who);
    TimesIsProduct(Reward(s, who) - amount, Payout(s));
  }

  /** What a collection leaves of an exactly collateralized pool. */
  lemma CollectsAll(s: Pool, who: nat)
    requires Invariant(s) && Exact(s) && CollectAllowed(s, who) && Collectable(s, who)
    ensures var s' := Next(s, DoCollect(who));
            && Invariant(s') && Exact(s') && s'.settled && s'.winner == s.winner && Payout(s') == Payout(s) && |s'.wallets| == |s.wallets|
            && s'.wallets[who].cash == s.wallets[who].cash + Times(Reward(s, who), Payout(s))
            && s'.wallets[who].long == 0 && s'.wallets[who].short == 0
            && s'.escrow == s.escrow - Times(Reward(s, who), Payout(s))
            && (forall i :: 0 <= i < |s.wallets| && i != who ==> s'.wallets[i] == s.wallets[i])
            && Excess(s', who, Long) == Excess(s, who, Long) && Excess(s', who, Short) == Excess(s, who, Short)
  {
    CollectedKeepsInvariant(s, who);
  }

  /** The tokens sent away come back within what the pool may still burn. */
  lemma BackAgain(s: Pool, s1: Pool, s2: Pool, who: nat, other: nat, amount: nat)
    requires Invariant(s) && s.settled && who < |s.wallets| && other < |s.wallets| && who != other && amount <= Reward(s, who)
    requires Excess(s, who, Long) <= 0 && Excess(s, who, Short) <= 0
    requires s1 == Next(s, DoMove(ToHolder(who, other, Position(s.winner.value), amount)))
    requires Invariant(s2) && Exact(s2) && s2.settled && s2.winner == s.winner && |s2.wallets| == |s.wallets| && Payout(s2) == Payout(s)
    requires s2.wallets[other] == s1.wallets[other] && s2.wallets[who].long == 0 && s2.wallets[who].short == 0
    requires forall side :: Excess(s2, who, side) == Excess(s1, who, side)
    requires amount * s2.escrow <= U64_MAX
    ensures var s3 := Next(s2, DoMove(ToHolder(other, who, Position(s.winner.value), amount)));
            && Invariant(s3) && Exact(s3) && s3.settled && s3.winner == s.winner && Payout(s3) == Payout(s)
            && who < |s3.wallets| && CollectAllowed(s3, who) && Reward(s3, who) == amount
            && s3.wallets[who].cash == s2.wallets[who].cash
  {
    var op := DoMove(ToHolder(other, who, Position(s.winner.value), amount));
    NextKeepsInvariant(s2, op);
    NextSurplus(s2, op);
    NextExcess(s, DoMove(ToHolder(who, other, Position(s.winner.value), amount)), who, Long);
    NextExcess(s, DoMove(ToHolder(who, other, Position(s.winner.value), amount)), who, Short);
    NextExcess(s2, op, who, Long);
    NextExcess(s2, op, who, Short);
    TimesIsProduct(amount, s2.escrow);
  }

  lemma RunOfFour(s: Pool, a: Op, b: Op, c: Op, d: Op)
    ensures Run(s, [a, b, c, d]) == Next(Next(Next(Next(s, a), b), c), d)
  {
    assert [a, b, c, d][1..] == [b, c, d] && [b, c, d][1..] == [c, d];
    RunOfTwo(Next(Next(s, a), b), c, d);
    assert Run(Next(s, a), [b, c, d]) == Run(Next(Next(s, a), b), [c, d]);
  }

  /** Two parties put all their cash into `n` contracts and long wins: the pool is exact and the winner holds everything. */
  lemma SoleWinner(decimals: nat, n: nat, p: nat, q: nat)
    requires p + q == Pow10(decimals) <= U64_MAX && n <= U64_MAX && n * p + n * q <= U64_MAX
    ensures var s := Run(Fresh(decimals, [n * p, n * q]), [DoTrade(Trade(0, 1, n, p, q)), DoSettle(Long)]);
            && Invariant(s) && Exact(s) && s.settled && s.winner == Some(Long) && s.decimals == decimals
            && s.wallets == [Held(0, n, 0), Held(0, 0, n)] && Reward(s, 0) == s.circulation == n
  {
    var s0, t := Fresh(decimals, [n * p, n * q]), Trade(0, 1, n, p, q);
    TotalOfTwo(s0.wallets, Cash);
    TimesIsProduct(n, p);
    TimesIsProduct(n, q);
    FirstTrade(decimals, [n * p, n * q], t);
    RunOfTwo(s0, DoTrade(t), DoSettle(Long));
    assert Next(s0, DoTrade(t)).wallets == [Held(0, n, 0), Held(0, 0, n)];
  }

  /**
   * A reachable, settled, exactly collateralized pool whose only winner stays locked out in every closed continuation.
   * After it sends half of its tokens away it can collect for the other half, but the receiver cannot; after the detour
   * it has everything.
   */
  lemma LockedExample(ops: seq<Op>)
    requires Closed(ops)
    ensures var cash := 25000 * Pow10(10);
            var s := Run(Fresh(10, [cash, cash]), [DoTrade(Trade(0, 1, 50000, 50000_00000, 50000_00000)), DoSettle(Long)]);
            && Invariant(s) && Exact(s) && AllTidy(s) && s.winner == Some(Long) && Reward(s, 0) == s.circulation == 50000
            && !CollectAllowed(Run(s, ops), 0)
            && CollectAllowed(Run(s, Detour(s, 0, 1, 25000)[..1]), 0) && !CollectAllowed(Run(s, Detour(s, 0, 1, 25000)[..1]), 1)
            && |Run(s, Detour(s, 0, 1, 25000)).wallets| == 2
            && Run(s, Detour(s, 0, 1, 25000)).wallets[0].cash == 50000 * Pow10(10)
  {
    var half := 50000_00000;
    Pow10Of10();
    SoleWinner(10, 50000, half, half);
    var cash := 25000 * Pow10(10);
    var s := Run(Fresh(10, [cash, cash]), [DoTrade(Trade(0, 1, 50000, half, half)), DoSettle(Long)]);
    TimesIsProduct(50000, Pow10(10));
    TimesIsProduct(50000, s.escrow);
    LockedForever(s, ops, 0);
    UnlockedByDetour(s);
  }

  lemma UnlockedByDetour(s: Pool)
    requires Invariant(s) && Exact(s) && s.settled && s.winner == Some(Long) && s.decimals == 10
    requires s.wallets == [Held(0, 50000, 0), Held(0, 0, 50000)] && s.escrow == 50000_00000_00000
    ensures var ops := Detour(s, 0, 1, 25000);
            && CollectAllowed(Run(s, ops[..1]), 0) && !CollectAllowed(Run(s, ops[..1]), 1)
            && |Run(s, ops).wallets| == 2 && Run(s, ops).wallets[0].cash == 50000 * Pow10(10)
  {
    var send := DoMove(ToHolder(0, 1, Position(Long), 25000));
    assert Detour(s, 0, 1, 25000)[..1] == [send];
    RunOfTwo(s, send, send);
    SplitUnlocks(s, 0, 1, 25000);
    assert NetReceived(s, [send], 1, Long) == 25000 by { assert [send][1..] == []; }
    ReceivedIsNotCollectable(s, [send], 1, Long);
    Pow10Of10();
    Recovery(s, 0, 1, 25000);
    RunKeepsInvariant(s, Detour(s, 0, 1, 25000));
  }

  lemma Pow10Of10()
    ensures Pow10(10) == 1_00000_00000
  {
    assert Pow10(2) == 100;
    assert Pow10(4) == 100 * Pow10(2);
    assert Pow10(6) == 100 * Pow10(4);
    assert Pow10(8) == 100 * Pow10(6);
  }
}
