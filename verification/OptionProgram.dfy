/** The binary option program, instruction by instruction (binary-option/program/src/processor.rs, state.rs, spl_utils.rs). */
module OptionProgram {
  import opened Basics
  import opened OptionPool

  datatype Source = Escrow | Owner(who: nat)

  datatype Error =
    | PublicKeyMismatch
    | MissingRequiredSignature
    | InvalidSupply
    | InvalidWinner
    | UninitializedAccount
    | AlreadySettled
    | BetNotSettled
    | PublicKeysShouldBeUnique
    | TradePricesIncorrect
    | InsufficientFunds(source: Source)
    | NotDelegated
    | Overflow

  /** An instruction or a step of it is done, or has failed. */
  datatype Outcome = Done | Failed(error: Error) {
    predicate IsFailure() { Failed? }
    function PropagateFailure(): Outcome
      requires Failed?
    {
      this
    }
  }

  datatype Checked = Value(value: nat) | Broken {
    predicate IsFailure() { Broken? }
    function PropagateFailure(): Outcome
      requires Broken?
    {
      Failed(Overflow)
    }
    function Extract(): nat
      requires Value?
    {
      value
    }
  }

  /** Checked 64-bit arithmetic. */
  function Fit(v: int): (r: Checked)
    ensures r.Value? <==> 0 <= v <= U64_MAX
  {
    if 0 <= v <= U64_MAX then Value(v) else Broken
  }

  method CheckedMul(a: nat, b: nat) returns (r: Checked)
    ensures r == Fit(Times(a, b))
  {
    TimesIsProduct(a, b);
    r := Fit(a * b);
  }

  method CheckedPow10(k: nat) returns (r: Checked)
    ensures r == Fit(Pow10(k))
  {
    r := Fit(Pow10(k));
  }

  function Adjusted(w: Wallet, side: Side, n: nat): (w': Wallet)
  {
    if side.Long? then w.(long := n) else w.(short := n)
  }

  class Program {
    var decimals: nat
    var circulation: nat
    var settled: bool
    var winner: Option<Side>
    var owner: nat
    var escrow: nat
    var longSupply: nat
    var shortSupply: nat
    var wallets: seq<Wallet>

    ghost function State(): (s: Pool)
      reads this
    {
      Pool(decimals, circulation, settled, winner, escrow, longSupply, shortSupply, wallets)
    }

    /** A fresh pool: nothing in circulation, nothing in escrow, no positions. */
    constructor (decimals: nat, owner: nat, cash: seq<nat>)
      ensures State() == Pool(decimals, 0, false, None, 0, 0, 0, seq(|cash|, i requires 0 <= i < |cash| => Held(cash[i], 0, 0)))
      ensures this.owner == owner
    {
      this.decimals, this.owner := decimals, owner;
      circulation, settled, winner := 0, false, None;
      escrow, longSupply, shortSupply := 0, 0, 0;
      wallets := seq(|cash|, i requires 0 <= i < |cash| => Held(cash[i], 0, 0));
    }

    // ----- state.rs -----

    method IncrementSupply(n: nat) returns (r: Outcome)
      modifies this`circulation
      ensures r.Done? <==> old(circulation) + n <= U64_MAX
      ensures circulation == if r.Done? then old(circulation) + n else old(circulation)
      ensures r.Failed? ==> r.error == Overflow
    {
      var c :- Fit(circulation + n);
      circulation := c;
      return Done;
    }

    method DecrementSupply(n: nat) returns (r: Outcome)
      modifies this`circulation
      ensures r.Done? <==> n <= old(circulation)
      ensures circulation == if r.Done? then old(circulation) - n else old(circulation)
      ensures r.Failed? ==> r.error == InvalidSupply
    {
      if circulation < n {
        return Failed(InvalidSupply);
      }
      circulation := circulation - n;
      return Done;
    }

    // ----- spl_utils.rs, over the ledger of the token program -----

    method SplBurn(who: nat, side: Side, amount: nat) returns (r: Outcome)
      requires who < |wallets|
      modifies this`wallets, this`longSupply, this`shortSupply
      ensures r.Done? <==> amount == 0 || (amount <= Holding(old(wallets)[who], side) && amount <= Supply(old(State()), side))
      ensures r.Done? ==> amount <= Holding(old(wallets)[who], side)
                          && wallets == old(wallets)[who := Adjusted(old(wallets)[who], side, Holding(old(wallets)[who], side) - amount)]
                          && longSupply == old(longSupply) - (if side.Long? then amount else 0)
                          && shortSupply == old(shortSupply) - (if side.Short? then amount else 0)
      ensures r.Failed? ==> State() == old(State()) && r.error in {InsufficientFunds(Owner(who)), Overflow}
    {
      if amount > 0 {
        var held := Holding(wallets[who], side);
        if held < amount {
          return Failed(InsufficientFunds(Owner(who)));
        }
        var supply := if side.Long? then longSupply else shortSupply;
        if supply < amount {
          return Failed(Overflow);
        }
        wallets := wallets[who := Adjusted(wallets[who], side, held - amount)];
        if side.Long? { longSupply := supply - amount; } else { shortSupply := supply - amount; }
      } else {
        assert Adjusted(wallets[who], side, Holding(wallets[who], side)) == wallets[who];
        assert wallets == wallets[who := wallets[who]];
      }
      return Done;
    }

    /** Burns on the pool's own authority, which needs and uses up the delegated amount. */
    method SplBurnSigned(who: nat, side: Side, amount: nat) returns (r: Outcome)
      requires who < |wallets|
      modifies this`wallets, this`longSupply, this`shortSupply
      ensures r.Done? <==> amount == 0 || (amount <= Holding(old(wallets)[who], side) && amount <= Delegated(old(wallets)[who], side)
                                           && amount <= Supply(old(State()), side))
      ensures r.Done? ==> amount <= Holding(old(wallets)[who], side)
                          && wallets == old(wallets)[who := Burned(old(wallets)[who], side, amount)]
                          && longSupply == old(longSupply) - (if side.Long? then amount else 0)
                          && shortSupply == old(shortSupply) - (if side.Short? then amount else 0)
      ensures r.Failed? ==> State() == old(State()) && r.error in {InsufficientFunds(Owner(who)), NotDelegated, Overflow}
    {
      if amount > 0 {
        if Holding(wallets[who], side) < amount {
          return Failed(InsufficientFunds(Owner(who)));
        }
        if Delegated(wallets[who], side) < amount {
          return Failed(NotDelegated);
        }
        var supply := if side.Long? then longSupply else shortSupply;
        if supply < amount {
          return Failed(Overflow);
        }
        wallets := wallets[who := Burned(wallets[who], side, amount)];
        if side.Long? { longSupply := supply - amount; } else { shortSupply := supply - amount; }
      } else {
        assert wallets == wallets[who := Burned(wallets[who], side, amount)];
      }
      return Done;
    }

    method SplMintTo(who: nat, side: Side, amount: nat) returns (r: Outcome)
      requires who < |wallets|
      modifies this`wallets, this`longSupply, this`shortSupply
      ensures r.Done? <==> Holding(old(wallets)[who], side) + amount <= U64_MAX && Supply(old(State()), side) + amount <= U64_MAX
      ensures r.Done? ==> wallets == old(wallets)[who := Adjusted(old(wallets)[who], side, Holding(old(wallets)[who], side) + amount)]
                          && longSupply == old(longSupply) + (if side.Long? then amount else 0)
                          && shortSupply == old(shortSupply) + (if side.Short? then amount else 0)
      ensures r.Failed? ==> State() == old(State()) && r.error == Overflow
    {
      var held :- Fit(Holding(wallets[who], side) + amount);
      var supply :- Fit((if side.Long? then longSupply else shortSupply) + amount);
      wallets := wallets[who := Adjusted(wallets[who], side, held)];
      if side.Long? { longSupply := supply; } else { shortSupply := supply; }
      return Done;
    }

    /** From an owner's account into the escrow account. */
    method SplTokenTransfer(who: nat, amount: nat) returns (r: Outcome)
      requires who < |wallets|
      modifies this`wallets, this`escrow
      ensures r.Done? <==> amount == 0 || (amount <= old(wallets)[who].cash && old(escrow) + amount <= U64_MAX)
      ensures r.Done? ==> amount <= old(wallets)[who].cash && escrow == old(escrow) + amount
                          && wallets == old(wallets)[who := old(wallets)[who].(cash := old(wallets)[who].cash - amount)]
      ensures r.Failed? ==> State() == old(State()) && r.error in {InsufficientFunds(Owner(who)), Overflow}
    {
      if amount > 0 {
        if wallets[who].cash < amount {
          return Failed(InsufficientFunds(Owner(who)));
        }
        var e :- Fit(escrow + amount);
        wallets := wallets[who := wallets[who].(cash := wallets[who].cash - amount)];
        escrow := e;
      } else {
        assert wallets == wallets[who := wallets[who].(cash := wallets[who].cash - amount)];
      }
      return Done;
    }

    /** From the escrow account to an owner's account, on the pool's authority. */
    method SplTokenTransferSigned(who: nat, amount: nat) returns (r: Outcome)
      requires who < |wallets|
      modifies this`wallets, this`escrow
      ensures r.Done? <==> amount == 0 || (amount <= old(escrow) && old(wallets)[who].cash + amount <= U64_MAX)
      ensures r.Done? ==> amount <= old(escrow) && escrow == old(escrow) - amount
                          && wallets == old(wallets)[who := old(wallets)[who].(cash := old(wallets)[who].cash + amount)]
      ensures r.Failed? ==> State() == old(State()) && r.error in {InsufficientFunds(Escrow), Overflow}
      ensures amount <= old(escrow) ==> r != Failed(InsufficientFunds(Escrow))
    {
      if amount > 0 {
        if escrow < amount {
          return Failed(InsufficientFunds(Escrow));
        }
        var cash :- Fit(wallets[who].cash + amount);
        wallets := wallets[who := wallets[who].(cash := cash)];
        escrow := escrow - amount;
      } else {
        assert wallets == wallets[who := wallets[who].(cash := wallets[who].cash + amount)];
      }
      return Done;
    }

    method SplApprove(who: nat, side: Side, amount: nat)
      requires who < |wallets|
      modifies this`wallets
      ensures wallets == old(wallets)[who := Approved(old(wallets)[who], side, amount)]
    {
      wallets := wallets[who := Approved(wallets[who], side, amount)];
    }

    // ----- processor.rs: trade -----

    /** Burns the tokens both parties close; neither burn can fail. */
    method BurnClosed(t: Trade, x: nat, y: nat)
      requires Parties(State(), t) && x <= wallets[t.buyer].short && y <= wallets[t.seller].long && x <= shortSupply && y <= longSupply
      modifies this`wallets, this`longSupply, this`shortSupply
      ensures wallets == Both(old(wallets), t, old(wallets)[t.buyer].(short := old(wallets)[t.buyer].short - x),
                              old(wallets)[t.seller].(long := old(wallets)[t.seller].long - y))
      ensures shortSupply == old(shortSupply) - x && longSupply == old(longSupply) - y
    {
      var _ := SplBurn(t.buyer, Short, x);
      var _ := SplBurn(t.seller, Long, y);
    }

    /** Pays both parties out of the escrow for the contracts they close; neither payment can fail. */
    method PayClosed(t: Trade, x: nat, y: nat)
      requires Parties(State(), t)
      requires 0 <= Times(x, t.sellPrice) && 0 <= Times(y, t.buyPrice) && Times(x, t.sellPrice) + Times(y, t.buyPrice) <= escrow <= U64_MAX
      requires wallets[t.buyer].cash + Times(x, t.sellPrice) <= U64_MAX && wallets[t.seller].cash + Times(y, t.buyPrice) <= U64_MAX
      modifies this`wallets, this`escrow
      ensures wallets == Both(old(wallets), t,
                              old(wallets)[t.buyer].(cash := old(wallets)[t.buyer].cash + Times(x, t.sellPrice)),
                              old(wallets)[t.seller].(cash := old(wallets)[t.seller].cash + Times(y, t.buyPrice)))
      ensures escrow == old(escrow) - Times(x, t.sellPrice) - Times(y, t.buyPrice)
    {
      var toBuyer := CheckedMul(x, t.sellPrice);
      var _ := SplTokenTransferSigned(t.buyer, toBuyer.value);
      var toSeller := CheckedMul(y, t.buyPrice);
      var _ := SplTokenTransferSigned(t.seller, toSeller.value);
    }

    /** Mints `x` contracts of one side to a party, who pays for them. */
    method Open(who: nat, side: Side, x: nat, price: nat) returns (r: Outcome)
      requires who < |wallets| && 0 <= Times(x, price)
      modifies this`wallets, this`longSupply, this`shortSupply, this`escrow
      ensures r.Done? <==> Holding(old(wallets)[who], side) + x <= U64_MAX && Supply(old(State()), side) + x <= U64_MAX
                           && Times(x, price) <= U64_MAX
                           && (Times(x, price) == 0 || (Times(x, price) <= old(wallets)[who].cash && old(escrow) + Times(x, price) <= U64_MAX))
      ensures r.Done? ==> Times(x, price) <= old(wallets)[who].cash
                          && wallets == old(wallets)[who := Opened(old(wallets)[who], side, x, Times(x, price))]
                          && longSupply == old(longSupply) + (if side.Long? then x else 0)
                          && shortSupply == old(shortSupply) + (if side.Short? then x else 0)
                          && escrow == old(escrow) + Times(x, price)
      ensures r.Failed? ==> Expected(r.error)
    {
      r := SplMintTo(who, side, x);
      if r.Failed? {
        return;
      }
      var cost :- CheckedMul(x, price);
      :- SplTokenTransfer(who, cost);
      return Done;
    }

    /** Case 1: both parties only reduce what they hold. */
    method CloseBoth(t: Trade, ghost f: Figures)
      requires Sound(State(), t, f) && Fitting(State(), t, f) && f.payB == 0 && f.payS == 0
      requires f == Figures(t.size, t.size, 0, 0, Times(t.size, t.sellPrice), Times(t.size, t.buyPrice))
      modifies this`wallets, this`escrow, this`longSupply, this`shortSupply, this`circulation
      ensures State() == Rebalanced(old(State()), t, f)
    {
      BurnClosed(t, t.size, t.size);
      PayClosed(t, t.size, t.size);
      var _ := DecrementSupply(t.size);
    }

    /** Case 3: the buyer only reduces, the seller closes and opens. */
    method OpenSeller(t: Trade, ghost f: Figures) returns (r: Outcome)
      requires Sound(State(), t, f) && (Affordable(State(), t, f) ==> Fitting(State(), t, f))
      requires wallets[t.seller].long < t.size
      requires var ns := wallets[t.seller].long;
               f == Figures(t.size, ns, 0, Times(t.size - ns, t.sellPrice), Times(t.size, t.sellPrice), Times(ns, t.buyPrice))
      modifies this`wallets, this`escrow, this`longSupply, this`shortSupply, this`circulation
      ensures r.Done? <==> Affordable(old(State()), t, f)
      ensures r.Done? ==> State() == Rebalanced(old(State()), t, f)
      ensures r.Failed? ==> Expected(r.error)
    {
      var n, ns := t.size, wallets[t.seller].long;
      BurnClosed(t, n, ns);
      :- Open(t.seller, Short, n - ns, t.sellPrice);
      PayClosed(t, n, ns);
      var _ := DecrementSupply(ns);
      return Done;
    }

    /** Case 4: the seller only reduces, the buyer closes and opens. */
    method OpenBuyer(t: Trade, ghost f: Figures) returns (r: Outcome)
      requires Sound(State(), t, f) && (Affordable(State(), t, f) ==> Fitting(State(), t, f))
      requires wallets[t.buyer].short < t.size
      requires var nb := wallets[t.buyer].short;
               f == Figures(nb, t.size, Times(t.size - nb, t.buyPrice), 0, Times(nb, t.sellPrice), Times(t.size, t.buyPrice))
      modifies this`wallets, this`escrow, this`longSupply, this`shortSupply, this`circulation
      ensures r.Done? <==> Affordable(old(State()), t, f)
      ensures r.Done? ==> State() == Rebalanced(old(State()), t, f)
      ensures r.Failed? ==> Expected(r.error)
    {
      var n, nb := t.size, wallets[t.buyer].short;
      BurnClosed(t, nb, n);
      :- Open(t.buyer, Long, n - nb, t.buyPrice);
      PayClosed(t, nb, n);
      var _ := DecrementSupply(nb);
      return Done;
    }

    /** Mints to both parties what they open. */
    method MintOpened(t: Trade, x: nat, y: nat) returns (r: Outcome)
      requires Parties(State(), t)
      modifies this`wallets, this`longSupply, this`shortSupply
      ensures r.Done? <==> MintFits(old(State()), t, x, y)
      ensures r.Done? ==> wallets == Both(old(wallets), t, old(wallets)[t.buyer].(long := old(wallets)[t.buyer].long + x),
                                          old(wallets)[t.seller].(short := old(wallets)[t.seller].short + y))
                          && longSupply == old(longSupply) + x && shortSupply == old(shortSupply) + y
      ensures r.Failed? ==> r.error == Overflow
    {
      r := SplMintTo(t.buyer, Long, x);
      if r.Failed? {
        return;
      }
      r := SplMintTo(t.seller, Short, y);
    }

    /** Takes from both parties what they pay for it. */
    method DepositOpened(t: Trade, x: nat, y: nat) returns (r: Outcome)
      requires Parties(State(), t) && 0 <= Times(x, t.buyPrice) && 0 <= Times(y, t.sellPrice)
      requires Times(x, t.buyPrice) <= wallets[t.buyer].cash && Times(y, t.sellPrice) <= wallets[t.seller].cash ==>
                 Times(x, t.buyPrice) <= U64_MAX && Times(y, t.sellPrice) <= U64_MAX
                 && escrow + Times(x, t.buyPrice) + Times(y, t.sellPrice) <= U64_MAX
      modifies this`wallets, this`escrow
      ensures r.Done? <==> Times(x, t.buyPrice) <= old(wallets)[t.buyer].cash && Times(y, t.sellPrice) <= old(wallets)[t.seller].cash
      ensures r.Done? ==> wallets == Both(old(wallets), t,
                                          old(wallets)[t.buyer].(cash := old(wallets)[t.buyer].cash - Times(x, t.buyPrice)),
                                          old(wallets)[t.seller].(cash := old(wallets)[t.seller].cash - Times(y, t.sellPrice)))
                          && escrow == old(escrow) + Times(x, t.buyPrice) + Times(y, t.sellPrice)
      ensures r.Failed? ==> Expected(r.error)
    {
      var fromBuyer :- CheckedMul(x, t.buyPrice);
      :- SplTokenTransfer(t.buyer, fromBuyer);
      var fromSeller :- CheckedMul(y, t.sellPrice);
      :- SplTokenTransfer(t.seller, fromSeller);
      return Done;
    }

    /** Case 2: both parties close what they hold and open the rest. */
    method OpenBoth(t: Trade, ghost f: Figures) returns (r: Outcome)
      requires Sound(State(), t, f) && (Affordable(State(), t, f) ==> Fitting(State(), t, f))
      requires wallets[t.buyer].short < t.size && wallets[t.seller].long < t.size
      requires var nb, ns := wallets[t.buyer].short, wallets[t.seller].long;
               f == Figures(nb, ns, Times(t.size - nb, t.buyPrice), Times(t.size - ns, t.sellPrice), Times(nb, t.sellPrice), Times(ns, t.buyPrice))
      modifies this`wallets, this`escrow, this`longSupply, this`shortSupply, this`circulation
      ensures r.Done? <==> Affordable(old(State()), t, f) && !InGap(old(State()), t)
      ensures r.Done? ==> State() == Rebalanced(old(State()), t, f)
      ensures r.Failed? ==> Expected(r.error)
    {
      var n, nb, ns := t.size, wallets[t.buyer].short, wallets[t.seller].long;
      BurnClosed(t, nb, ns);
      :- MintOpened(t, n - nb, n - ns);
      :- DepositOpened(t, n - nb, n - ns);
      PayClosed(t, nb, ns);
      r := CountOpened(n, nb, ns);
    }

    /** Circulation after case 2. The difference is taken unsigned in both branches, so only a growth gets through. */
    method CountOpened(n: int, nb: nat, ns: nat) returns (r: Outcome)
      requires n <= U64_MAX && circulation + n - nb - ns <= U64_MAX
      modifies this`circulation
      ensures r.Done? <==> nb + ns <= n
      ensures r.Done? ==> circulation == old(circulation) + n - nb - ns
      ensures r.Failed? ==> r.error == Overflow
    {
      var both :- Fit(nb + ns);
      if n > both {
        var _ := IncrementSupply(n - nb - ns);
      } else {
        var less :- Fit(n - nb - ns);
        var _ := DecrementSupply(less);
      }
      return Done;
    }

    /** Delegates exactly the new balances of both parties to the pool. */
    method Delegate(t: Trade, bl: nat, bs: nat, sl: nat, ss: nat)
      requires Parties(State(), t)
      modifies this`wallets
      ensures wallets == Both(old(wallets), t, old(wallets)[t.buyer].(longDelegated := bl, shortDelegated := bs),
                              old(wallets)[t.seller].(longDelegated := sl, shortDelegated := ss))
    {
      SplApprove(t.buyer, Long, bl);
      SplApprove(t.seller, Short, ss);
      SplApprove(t.buyer, Short, bs);
      SplApprove(t.seller, Long, sl);
    }

    /** The four cases, with the positions both parties hold afterwards. */
    method MovePositions(t: Trade, ghost f: Figures) returns (r: Outcome, bl: nat, bs: nat, sl: nat, ss: nat)
      requires Tradable(State(), t) && f == TradeFigures(State(), t)
      requires Sound(State(), t, f) && (Affordable(State(), t, f) ==> Fitting(State(), t, f))
      requires (f.closeB == t.size ==> f.payB == 0) && (f.closeS == t.size ==> f.payS == 0)
      modifies this`wallets, this`escrow, this`longSupply, this`shortSupply, this`circulation
      ensures r.Done? <==> Affordable(old(State()), t, f) && !InGap(old(State()), t)
      ensures r.Done? ==> State() == Rebalanced(old(State()), t, f)
      ensures r.Done? ==> bl == wallets[t.buyer].long && bs == wallets[t.buyer].short
                          && sl == wallets[t.seller].long && ss == wallets[t.seller].short
      ensures r.Failed? ==> Expected(r.error)
    {
      var n, nb, ns := t.size, wallets[t.buyer].short, wallets[t.seller].long;
      bl, bs, sl, ss := wallets[t.buyer].long, nb, ns, wallets[t.seller].short;
      if nb >= n && ns >= n {
        CloseBoth(t, f);
        r, bs, sl := Done, bs - n, sl - n;
      } else if nb < n && ns < n {
        r := OpenBoth(t, f);
        bs, sl, bl, ss := bs - nb, sl - ns, bl + (n - nb), ss + (n - ns);
      } else if nb >= n {
        r := OpenSeller(t, f);
        bs, sl, ss := bs - n, sl - ns, ss + (n - ns);
      } else {
        r := OpenBuyer(t, f);
        bs, sl, bl := bs - nb, sl - n, bl + (n - nb);
      }
    }

    /** The four cases and the new delegations. */
    method TradePositions(t: Trade) returns (r: Outcome)
      requires Tradable(State(), t)
      modifies this`wallets, this`escrow, this`longSupply, this`shortSupply, this`circulation
      ensures r.Done? <==> Funded(old(State()), t) && !InGap(old(State()), t)
      ensures r.Done? ==> State() == Netted(old(State()), t)
      ensures r.Failed? ==> Expected(r.error)
    {
      ghost var s := State();
      FiguresSound(s, t);
      var bl, bs, sl, ss;
      r, bl, bs, sl, ss := MovePositions(t, TradeFigures(s, t));
      if r.Failed? {
        return;
      }
      RebalancedIsNetted(s, t);
      Delegate(t, bl, bs, sl, ss);
    }

    /** A trade; a failure leaves its steps half done, see Process. */
    method ProcessTrade(t: Trade) returns (r: Outcome)
      requires Invariant(State()) && t.size <= U64_MAX
      modifies this`wallets, this`escrow, this`longSupply, this`shortSupply, this`circulation
      ensures r.Done? <==> TradeAllowed(old(State()), t)
      ensures r.Done? ==> Tradable(old(State()), t) && State() == Netted(old(State()), t)
      ensures r.Failed? ==> Expected(r.error)
      ensures t.buyer < |old(wallets)| && t.seller < |old(wallets)| && t.buyPrice + t.sellPrice <= U64_MAX && Pow10(decimals) <= U64_MAX ==>
                && (t.buyPrice + t.sellPrice != Pow10(decimals) ==> r == Failed(TradePricesIncorrect))
                && (t.buyPrice + t.sellPrice == Pow10(decimals) && settled ==> r == Failed(AlreadySettled))
                && (t.buyPrice + t.sellPrice == Pow10(decimals) && !settled && t.buyer == t.seller ==> r == Failed(PublicKeysShouldBeUnique))
    {
      if t.buyer >= |wallets| || t.seller >= |wallets| {
        return Failed(UninitializedAccount);
      }
      var prices :- Fit(t.buyPrice + t.sellPrice);
      var payout :- CheckedPow10(decimals);
      if prices != payout {
        return Failed(TradePricesIncorrect);
      }
      if settled {
        return Failed(AlreadySettled);
      }
      if t.buyer == t.seller {
        return Failed(PublicKeysShouldBeUnique);
      }
      InvariantTradable(State(), t);
      r := TradePositions(t);
    }

    // ----- processor.rs: settle and collect -----

    /** `mint` is the side of the winning mint, if it is one of the pool's two mints. */
    method ProcessSettle(signer: nat, isSigner: bool, mint: Option<Side>) returns (r: Outcome)
      modifies this`settled, this`winner
      ensures r.Done? <==> isSigner && !old(settled) && signer == owner && mint.Some?
      ensures State() == if r.Done? then Settled(old(State()), mint.value) else old(State())
      ensures r.Done? ==> settled && winner == mint
      ensures r.Failed? ==> r.error == if !isSigner then MissingRequiredSignature else if old(settled) then AlreadySettled
                                       else if signer != owner then PublicKeyMismatch else InvalidWinner
    {
      if !isSigner {
        return Failed(MissingRequiredSignature);
      }
      if settled {
        return Failed(AlreadySettled);
      }
      if signer != owner {
        return Failed(PublicKeyMismatch);
      }
      if mint.Some? {
        winner := mint;
      } else {
        return Failed(InvalidWinner);
      }
      settled := true;
      return Done;
    }

    /** Pays a collector its share of the escrow. */
    method PayReward(who: nat, reward: nat) returns (r: Outcome)
      requires who < |wallets| && 0 < reward <= circulation && wallets[who].cash + escrow <= U64_MAX
      requires Share(reward, escrow, circulation) <= escrow
      modifies this`wallets, this`escrow, this`circulation
      ensures r.Done? <==> Times(reward, old(escrow)) <= U64_MAX
      ensures var pay := Share(reward, old(escrow), old(circulation));
              r.Done? ==> circulation == old(circulation) - reward && escrow == old(escrow) - pay
                          && wallets == old(wallets)[who := old(wallets)[who].(cash := old(wallets)[who].cash + pay)]
      ensures r.Failed? ==> Expected(r.error)
    {
      TimesIsProduct(reward, escrow);
      TimesMonotone(0, reward, escrow);
      var product :- CheckedMul(reward, escrow);
      var amount := product / circulation;
      var _ := SplTokenTransferSigned(who, amount);
      var _ := DecrementSupply(reward);
      return Done;
    }

    /** A collection; a failure leaves its steps half done, see Process. A settled pool always has a winning side. */
    method ProcessCollect(who: nat) returns (r: Outcome)
      requires Invariant(State())
      modifies this`wallets, this`escrow, this`longSupply, this`shortSupply, this`circulation
      ensures r.Done? <==> CollectAllowed(old(State()), who)
      ensures r.Done? ==> Collectable(old(State()), who) && State() == Collected(old(State()), who)
      ensures r.Failed? ==> Expected(r.error)
      ensures who < |old(wallets)| && !settled ==> r == Failed(BetNotSettled)
    {
      if who >= |wallets| {
        return Failed(UninitializedAccount);
      }
      if !settled {
        return Failed(BetNotSettled);
      }
      InvariantCollectable(State(), who);
      NothingToPay(escrow);
      var w := wallets[who];
      var reward := Holding(w, winner.value);
      :- SplBurnSigned(who, Long, w.long);
      :- SplBurnSigned(who, Short, w.short);
      if reward > 0 {
        :- PayReward(who, reward);
      }
      return Done;
    }
  }

  /** Minted contracts stay in range, in the accounts and in the supplies. */
  predicate MintFits(s: Pool, t: Trade, x: nat, y: nat)
    requires Parties(s, t)
  {
    && s.wallets[t.buyer].long + x <= U64_MAX && s.longSupply + x <= U64_MAX
    && s.wallets[t.seller].short + y <= U64_MAX && s.shortSupply + y <= U64_MAX
  }

  /** The wallets with those of both parties replaced. */
  function Both(ws: seq<Wallet>, t: Trade, b: Wallet, c: Wallet): (ws': seq<Wallet>)
    requires t.buyer < |ws| && t.seller < |ws|
  {
    ws[t.buyer := b][t.seller := c]
  }

  function Opened(w: Wallet, side: Side, x: nat, cost: nat): (w': Wallet)
    requires cost <= w.cash
  {
    Adjusted(w, side, Holding(w, side) + x).(cash := w.cash - cost)
  }

  /** The errors a trade can end in: never an empty escrow, never an invalid supply. */
  predicate Expected(e: Error)
  {
    e != InsufficientFunds(Escrow) && e != InvalidSupply
  }

  /** New balances with the delegations as they were. */
  function Undelegated(w: Wallet, before: Wallet): (w': Wallet)
  {
    w.(longDelegated := before.longDelegated, shortDelegated := before.shortDelegated)
  }

  /** A trade in figures: contracts each party closes, what it pays for the rest and what it is paid for those it closes. */
  datatype Figures = Figures(closeB: nat, closeS: nat, payB: int, payS: int, getB: int, getS: int)

  function TradeFigures(s: Pool, t: Trade): (f: Figures)
    requires Parties(s, t)
  {
    var mb, ms := BuyerCloses(s, t), SellerCloses(s, t);
    Figures(mb, ms, Times(t.size - mb, t.buyPrice), Times(t.size - ms, t.sellPrice), Times(mb, t.sellPrice), Times(ms, t.buyPrice))
  }

  /** The positions to close exist, and nothing is negative. */
  predicate Sound(s: Pool, t: Trade, f: Figures)
  {
    && Parties(s, t) && f.closeB <= t.size && f.closeS <= t.size
    && f.closeB <= s.wallets[t.buyer].short <= s.shortSupply && f.closeS <= s.wallets[t.seller].long <= s.longSupply
    && 0 <= f.payB && 0 <= f.payS && 0 <= f.getB && 0 <= f.getS
    && s.longSupply == s.circulation && s.shortSupply == s.circulation && s.escrow <= U64_MAX
  }

  predicate Affordable(s: Pool, t: Trade, f: Figures)
    requires Parties(s, t)
  {
    f.payB <= s.wallets[t.buyer].cash && f.payS <= s.wallets[t.seller].cash
  }

  /** No balance leaves the 64-bit range and the escrow covers both payments. */
  predicate Fitting(s: Pool, t: Trade, f: Figures)
    requires Parties(s, t)
  {
    && f.getB + f.getS <= s.escrow && s.escrow + f.payB + f.payS <= U64_MAX
    && s.wallets[t.buyer].cash + f.getB <= U64_MAX && s.wallets[t.seller].cash + f.getS <= U64_MAX
    && f.payB <= U64_MAX && f.payS <= U64_MAX
    && s.wallets[t.buyer].long + (t.size - f.closeB) <= s.circulation - f.closeS + t.size - f.closeB <= U64_MAX
    && s.wallets[t.seller].short + (t.size - f.closeS) <= s.circulation - f.closeB + t.size - f.closeS <= U64_MAX
    && f.closeB + f.closeS <= s.circulation + t.size
  }

  /** The pool after the transfers, in figures. */
  function Rebalanced(s: Pool, t: Trade, f: Figures): (s': Pool)
    requires Sound(s, t, f) && Affordable(s, t, f) && Fitting(s, t, f)
  {
    var b, c, d := s.wallets[t.buyer], s.wallets[t.seller], t.size - f.closeB - f.closeS;
    s.(circulation := s.circulation + d, longSupply := s.longSupply + d, shortSupply := s.shortSupply + d,
       escrow := s.escrow + f.payB + f.payS - f.getB - f.getS,
       wallets := Both(s.wallets, t,
                       b.(cash := b.cash - f.payB + f.getB, long := b.long + (t.size - f.closeB), short := b.short - f.closeB),
                       c.(cash := c.cash - f.payS + f.getS, long := c.long - f.closeS, short := c.short + (t.size - f.closeS))))
  }

  /** The figures of any trade the invariant allows: sound always, in range whenever the parties can pay. */
  lemma FiguresSound(s: Pool, t: Trade)
    requires Tradable(s, t)
    ensures var f := TradeFigures(s, t);
            && Sound(s, t, f)
            && (Affordable(s, t, f) <==> Funded(s, t))
            && (Affordable(s, t, f) ==> Fitting(s, t, f))
            && (f.closeB == t.size ==> f.payB == 0) && (f.closeS == t.size ==> f.payS == 0)
  {
    var f := TradeFigures(s, t);
    NothingToPay(t.buyPrice);
    NothingToPay(t.sellPrice);
    TimesMonotone(0, t.size - f.closeB, t.buyPrice);
    TimesMonotone(0, t.size - f.closeS, t.sellPrice);
    TimesMonotone(0, f.closeB, t.sellPrice);
    TimesMonotone(0, f.closeS, t.buyPrice);
    if Affordable(s, t, f) { FiguresFit(s, t); }
  }

  lemma FiguresFit(s: Pool, t: Trade)
    requires Tradable(s, t) && Funded(s, t)
    ensures Fitting(s, t, TradeFigures(s, t))
  {
    var f := TradeFigures(s, t);
    TimesMonotone(f.closeB, s.circulation, t.sellPrice);
    TimesMonotone(f.closeS, s.circulation, t.buyPrice);
    TimesPrices(s.circulation, t.buyPrice, t.sellPrice);
    EscrowMoved(s, t);
    CirculationAfter(s, t);
    AtLeastOne(s.circulation + NewContracts(s, t), Payout(s));
  }

  /** The escrow's change, by what comes in and goes out or by the contracts added. */
  lemma EscrowMoved(s: Pool, t: Trade)
    requires Tradable(s, t) && Funded(s, t)
    ensures var f := TradeFigures(s, t);
            && Times(NewContracts(s, t), Payout(s)) == f.payB + f.payS - f.getB - f.getS
            && BuyerAfter(s, t).cash == s.wallets[t.buyer].cash - f.payB + f.getB
            && SellerAfter(s, t).cash == s.wallets[t.seller].cash - f.payS + f.getS
  {
    var f := TradeFigures(s, t);
    CashAfter(s.wallets[t.buyer].cash, t.size, f.closeB, t.buyPrice, t.sellPrice);
    CashAfter(s.wallets[t.seller].cash, t.size, f.closeS, t.sellPrice, t.buyPrice);
    CashMoved(s, t);
  }

  /** In figures or by the netting rule: the four cases lead to the same balances. */
  lemma RebalancedIsNetted(s: Pool, t: Trade)
    requires Tradable(s, t) && Funded(s, t)
    requires Sound(s, t, TradeFigures(s, t)) && Affordable(s, t, TradeFigures(s, t)) && Fitting(s, t, TradeFigures(s, t))
    ensures Rebalanced(s, t, TradeFigures(s, t))
            == Netted(s, t).(wallets := Both(s.wallets, t, Undelegated(BuyerAfter(s, t), s.wallets[t.buyer]),
                                             Undelegated(SellerAfter(s, t), s.wallets[t.seller])))
  {
    EscrowMoved(s, t);
  }

  /** A party that closes all of its side of a trade deposits nothing. */
  lemma NothingToPay(price: nat)
    ensures Times(0, price) == 0
  {
    TimesIsProduct(0, price);
  }

  lemma AtLeastOne(n: nat, price: nat)
    requires price >= 1
    ensures n <= Times(n, price)
  {
    TimesPrices(n, 1, price - 1);
    TimesMonotone(0, n, price - 1);
    assert Times(n, 1) == Times(n, 0) + n;
  }

  function Delegated(w: Wallet, side: Side): (n: nat)
  {
    if side.Long? then w.longDelegated else w.shortDelegated
  }

  function Approved(w: Wallet, side: Side, n: nat): (w': Wallet)
  {
    if side.Long? then w.(longDelegated := n) else w.(shortDelegated := n)
  }

  /** A wallet after the pool burns delegated tokens; without an amount nothing is done. */
  function Burned(w: Wallet, side: Side, amount: nat): (w': Wallet)
    requires amount == 0 || (amount <= Holding(w, side) && amount <= Delegated(w, side))
  {
    if amount == 0 then w
    else Approved(Adjusted(w, side, Holding(w, side) - amount), side, Delegated(w, side) - amount)
  }
}
