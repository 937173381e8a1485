/** A binary option pool as a value: its ledger, its invariant and the netting rule of a trade. */
module OptionPool {
  import opened Basics
  import opened Sums

  /** What the token accounts of one owner hold; the delegated amounts are what the pool may burn. */
  datatype Wallet = Wallet(cash: nat, long: nat, short: nat, longDelegated: nat, shortDelegated: nat)

  datatype Side = Long | Short

  datatype Token = Cash | Position(side: Side)

  /** The option account together with the balances of the token program. */
  datatype Pool = Pool(
    decimals: nat, circulation: nat, settled: bool, winner: Option<Side>,
    escrow: nat, longSupply: nat, shortSupply: nat, wallets: seq<Wallet>)

  function Pow10(k: nat): (p: nat)
    ensures p >= 1
  {
    if k == 0 then 1 else 10 * Pow10(k - 1)
  }

  /** The product `n * price`, unrolled so that proofs about sums of products stay linear; see TimesIsProduct. */
  function Times(n: int, price: nat): (v: int)
  {
    if price == 0 then 0 else Times(n, price - 1) + n
  }

  lemma {:induction false} TimesIsProduct(n: int, price: nat)
    ensures Times(n, price) == n * price
  {
    if price > 0 {
      TimesIsProduct(n, price - 1);
      assert n * price == n * (price - 1) + n;
    }
  }

  lemma {:induction false} TimesSum(a: int, b: int, price: nat)
    ensures Times(a + b, price) == Times(a, price) + Times(b, price)
  {
    if price > 0 { TimesSum(a, b, price - 1); }
  }

  lemma {:induction false} TimesPrices(n: int, p: nat, q: nat)
    ensures Times(n, p + q) == Times(n, p) + Times(n, q)
  {
    if q > 0 {
      TimesPrices(n, p, q - 1);
    }
  }

  lemma {:induction false} TimesMonotone(a: int, b: int, price: nat)
    requires a <= b
    ensures Times(a, price) <= Times(b, price)
    ensures 0 <= a ==> 0 <= Times(a, price)
  {
    if price > 0 { TimesMonotone(a, b, price - 1); }
  }

  /** What one contract pays. */
  function Payout(s: Pool): (p: nat)
    ensures p >= 1
  {
    Pow10(s.decimals)
  }

  function Holding(w: Wallet, side: Side): (n: nat)
  {
    if side.Long? then w.long else w.short
  }

  function Supply(s: Pool, side: Side): (n: nat)
  {
    if side.Long? then s.longSupply else s.shortSupply
  }

  function Amount(w: Wallet, token: Token): (n: nat)
  {
    if token.Cash? then w.cash else Holding(w, token.side)
  }

  // ----- sums over wallets -----

  function AmountOf(token: Token): (f: Wallet -> nat)
  {
    (w: Wallet) => Amount(w, token)
  }

  function Total(ws: seq<Wallet>, token: Token): (total: nat)
  {
    SumOf(ws, AmountOf(token), |ws|)
  }

  lemma TotalUpdate(ws: seq<Wallet>, i: nat, w: Wallet)
    requires i < |ws|
    ensures forall token :: Total(ws[i := w], token) == Total(ws, token) + Amount(w, token) - Amount(ws[i], token)
  {
    forall token ensures Total(ws[i := w], token) == Total(ws, token) + Amount(w, token) - Amount(ws[i], token) {
      SumUpdate(ws, AmountOf(token), |ws|, i, w);
    }
  }

  lemma TotalAtLeast(ws: seq<Wallet>, token: Token, i: nat)
    requires i < |ws|
    ensures Amount(ws[i], token) <= Total(ws, token)
  {
    SumAtLeast(ws, AmountOf(token), |ws|, i);
  }

  lemma TotalAtLeastTwo(ws: seq<Wallet>, token: Token, i: nat, j: nat)
    requires i < |ws| && j < |ws| && i != j
    ensures Amount(ws[i], token) + Amount(ws[j], token) <= Total(ws, token)
  {
    SumAtLeastTwo(ws, AmountOf(token), |ws|, i, j);
  }

  // ----- the invariant -----

  /** Full collateralization, with the ledger it rests on. */
  ghost predicate Invariant(s: Pool)
  {
    && s.longSupply == Total(s.wallets, Position(Long))
    && s.shortSupply == Total(s.wallets, Position(Short))
    && Total(s.wallets, Cash) + s.escrow <= U64_MAX
    && s.escrow >= Times(s.circulation, Payout(s))
    && (!s.settled ==> s.longSupply == s.circulation && s.shortSupply == s.circulation)
    && (s.settled ==> s.winner.Some? && Supply(s, s.winner.value) == s.circulation)
  }

  /** The escrow holds the collateral and not a unit more. */
  predicate Exact(s: Pool) { s.escrow == Times(s.circulation, Payout(s)) }

  /** A wallet's position never exceeds what is in circulation, nor do the positions of two wallets together. */
  lemma PositionBounds(s: Pool, side: Side, i: nat, j: nat)
    requires Invariant(s) && i < |s.wallets| && j < |s.wallets| && i != j
    ensures Holding(s.wallets[i], side) + Holding(s.wallets[j], side) <= Supply(s, side)
  {
    TotalAtLeastTwo(s.wallets, Position(side), i, j);
  }

  lemma CashBounds(s: Pool, i: nat, j: nat)
    requires Invariant(s) && i < |s.wallets| && j < |s.wallets| && i != j
    ensures s.wallets[i].cash + s.wallets[j].cash + s.escrow <= U64_MAX
  {
    TotalAtLeastTwo(s.wallets, Cash, i, j);
  }

  // ----- the netting rule -----

  datatype Trade = Trade(buyer: nat, seller: nat, size: nat, buyPrice: nat, sellPrice: nat)

  /** Contracts the buyer closes: short tokens set against the trade. */
  function BuyerCloses(s: Pool, t: Trade): (m: nat)
    requires t.buyer < |s.wallets|
  {
    Min(t.size, s.wallets[t.buyer].short)
  }

  /** Contracts the seller closes: long tokens set against the trade. */
  function SellerCloses(s: Pool, t: Trade): (m: nat)
    requires t.seller < |s.wallets|
  {
    Min(t.size, s.wallets[t.seller].long)
  }

  predicate Parties(s: Pool, t: Trade)
  {
    t.buyer < |s.wallets| && t.seller < |s.wallets| && t.buyer != t.seller && t.size <= U64_MAX
  }

  /** Both parties close positions, the trade is larger than each of them but smaller than both together. */
  predicate InGap(s: Pool, t: Trade)
    requires t.buyer < |s.wallets| && t.seller < |s.wallets|
  {
    var nb, ns := s.wallets[t.buyer].short, s.wallets[t.seller].long;
    nb < t.size && ns < t.size && t.size < nb + ns
  }

  /** Each party can pay for the contracts it opens. */
  predicate Funded(s: Pool, t: Trade)
    requires t.buyer < |s.wallets| && t.seller < |s.wallets|
  {
    && Times(t.size - BuyerCloses(s, t), t.buyPrice) <= s.wallets[t.buyer].cash
    && Times(t.size - SellerCloses(s, t), t.sellPrice) <= s.wallets[t.seller].cash
  }

  predicate PricesAgree(s: Pool, t: Trade)
  {
    t.buyPrice + t.sellPrice == Payout(s) <= U64_MAX
  }

  predicate TradeAllowed(s: Pool, t: Trade)
  {
    !s.settled && PricesAgree(s, t) && Parties(s, t) && Funded(s, t) && !InGap(s, t)
  }

  /** A wallet after its cash and positions change; the pool may burn exactly what it then holds. */
  function Held(cash: nat, long: nat, short: nat): (w: Wallet)
  {
    Wallet(cash, long, short, long, short)
  }

  /** The buyer pays for every contract and is paid out for the ones it closes. */
  function BuyerAfter(s: Pool, t: Trade): (w: Wallet)
    requires t.buyer < |s.wallets| && PricesAgree(s, t) && t.seller < |s.wallets| && Funded(s, t)
  {
    var w, m := s.wallets[t.buyer], BuyerCloses(s, t);
    CashAfter(w.cash, t.size, m, t.buyPrice, t.sellPrice);
    Held(w.cash + Times(m, Payout(s)) - Times(t.size, t.buyPrice), w.long + (t.size - m), w.short - m)
  }

  function SellerAfter(s: Pool, t: Trade): (w: Wallet)
    requires t.seller < |s.wallets| && PricesAgree(s, t) && t.buyer < |s.wallets| && Funded(s, t)
  {
    var w, m := s.wallets[t.seller], SellerCloses(s, t);
    CashAfter(w.cash, t.size, m, t.sellPrice, t.buyPrice);
    Held(w.cash + Times(m, Payout(s)) - Times(t.size, t.sellPrice), w.long - m, w.short + (t.size - m))
  }

  /** Contracts added to circulation; negative when the trade closes more than it opens. */
  function NewContracts(s: Pool, t: Trade): (d: int)
    requires t.buyer < |s.wallets| && t.seller < |s.wallets|
  {
    t.size - BuyerCloses(s, t) - SellerCloses(s, t)
  }

  /** What a trade instruction may rely on once its checks have passed; InvariantTradable gets it from the invariant. */
  predicate Tradable(s: Pool, t: Trade)
  {
    && !s.settled && PricesAgree(s, t) && Parties(s, t)
    && s.longSupply == s.circulation && s.shortSupply == s.circulation
    && s.escrow >= Times(s.circulation, Payout(s))
    && s.wallets[t.buyer].short + s.wallets[t.seller].short <= s.circulation
    && s.wallets[t.buyer].long + s.wallets[t.seller].long <= s.circulation
    && s.wallets[t.buyer].cash + s.wallets[t.seller].cash + s.escrow <= U64_MAX
  }

  lemma InvariantTradable(s: Pool, t: Trade)
    requires Invariant(s) && !s.settled && PricesAgree(s, t) && Parties(s, t)
    ensures Tradable(s, t)
  {
    PositionBounds(s, Short, t.buyer, t.seller);
    PositionBounds(s, Long, t.buyer, t.seller);
    CashBounds(s, t.buyer, t.seller);
  }

  /** One rule for every trade: contracts are netted against what each party can close. */
  function Netted(s: Pool, t: Trade): (s': Pool)
    requires Tradable(s, t) && Funded(s, t)
  {
    CirculationAfter(s, t);
    var d := NewContracts(s, t);
    s.(circulation := s.circulation + d,
       longSupply := s.longSupply + d,
       shortSupply := s.shortSupply + d,
       escrow := s.escrow + Times(d, Payout(s)),
       wallets := s.wallets[t.buyer := BuyerAfter(s, t)][t.seller := SellerAfter(s, t)])
  }

  /** Paying for the opened contracts and being paid for the closed ones, in one sum. */
  lemma CashAfter(cash: nat, n: nat, m: nat, price: nat, other: nat)
    requires m <= n && Times(n - m, price) <= cash
    ensures cash + Times(m, price + other) - Times(n, price) == cash - Times(n - m, price) + Times(m, other) >= 0
  {
    TimesSum(n - m, m, price);
    TimesPrices(m, price, other);
    TimesMonotone(0, m, other);
  }

  lemma CirculationAfter(s: Pool, t: Trade)
    requires Tradable(s, t)
    ensures s.circulation + NewContracts(s, t) >= 0
    ensures s.escrow + Times(NewContracts(s, t), Payout(s)) >= Times(s.circulation + NewContracts(s, t), Payout(s)) >= 0
  {
    TimesSum(s.circulation, NewContracts(s, t), Payout(s));
    TimesMonotone(0, s.circulation + NewContracts(s, t), Payout(s));
    assert Times(0, Payout(s)) == 0 by { TimesIsProduct(0, Payout(s)); }
  }

  /** The netting rule in plain figures, with `mb` and `ms` the contracts the buyer and the seller close. */
  lemma NettingRule(s: Pool, t: Trade)
    requires Tradable(s, t) && Funded(s, t)
    ensures var mb, ms, p := BuyerCloses(s, t), SellerCloses(s, t), Payout(s);
            var (b, c, s') := (s.wallets[t.buyer], s.wallets[t.seller], Netted(s, t));
            var (b', c') := (s'.wallets[t.buyer], s'.wallets[t.seller]);
            && b'.cash == b.cash + mb * p - t.size * t.buyPrice
            && c'.cash == c.cash + ms * p - t.size * t.sellPrice
            && b'.long == b.long + t.size - mb && b'.short == b.short - mb
            && c'.long == c.long - ms && c'.short == c.short + t.size - ms
            && b'.longDelegated == b'.long && b'.shortDelegated == b'.short
            && c'.longDelegated == c'.long && c'.shortDelegated == c'.short
            && s'.circulation == s.circulation + t.size - mb - ms
            && s'.escrow == s.escrow + (t.size - mb - ms) * p
            && forall i :: 0 <= i < |s.wallets| && i != t.buyer && i != t.seller ==> s'.wallets[i] == s.wallets[i]
  {
    TimesIsProduct(BuyerCloses(s, t), Payout(s));
    TimesIsProduct(SellerCloses(s, t), Payout(s));
    TimesIsProduct(t.size, t.buyPrice);
    TimesIsProduct(t.size, t.sellPrice);
    TimesIsProduct(NewContracts(s, t), Payout(s));
  }

  /** A trade keeps the pool fully collateralized, whatever the parties held before. */
  lemma NettedKeepsInvariant(s: Pool, t: Trade)
    requires Invariant(s) && Tradable(s, t) && Funded(s, t)
    ensures Invariant(Netted(s, t))
    ensures Exact(s) ==> Exact(Netted(s, t))
    ensures Total(Netted(s, t).wallets, Cash) + Netted(s, t).escrow == Total(s.wallets, Cash) + s.escrow
  {
    var b, c := BuyerAfter(s, t), SellerAfter(s, t);
    CirculationAfter(s, t);
    TotalUpdate(s.wallets, t.buyer, b);
    TotalUpdate(s.wallets[t.buyer := b], t.seller, c);
    CashMoved(s, t);
    TimesSum(s.circulation, NewContracts(s, t), Payout(s));
  }

  /** What the parties pay and are paid is what the escrow gains and loses. */
  lemma CashMoved(s: Pool, t: Trade)
    requires PricesAgree(s, t) && Parties(s, t) && Funded(s, t)
    ensures BuyerAfter(s, t).cash + SellerAfter(s, t).cash + Times(NewContracts(s, t), Payout(s))
            == s.wallets[t.buyer].cash + s.wallets[t.seller].cash
  {
    var n: int, mb: int, ms: int, p := t.size, BuyerCloses(s, t), SellerCloses(s, t), Payout(s);
    TimesPrices(n, t.buyPrice, t.sellPrice);
    TimesSum(n - mb - ms, mb, p);
    TimesSum(n - ms, ms, p);
  }

  // ----- settlement and collection -----

  function Settled(s: Pool, winner: Side): (s': Pool)
  {
    s.(settled := true, winner := Some(winner))
  }

  /** The rounded-down share of the escrow for `r` of `c` winning tokens. */
  function Share(r: nat, e: nat, c: nat): (pay: nat)
    requires c > 0
  {
    r * e / c
  }

  lemma ShareMeans(r: nat, e: nat, c: nat)
    requires c > 0
    ensures Share(r, e, c) * c <= r * e < (Share(r, e, c) + 1) * c
  {
    var pay, rest := r * e / c, r * e % c;
    assert r * e == pay * c + rest;
    assert (pay + 1) * c == pay * c + c;
  }

  lemma Cancel(a: nat, b: nat, c: nat)
    requires a * c < (b + 1) * c
    ensures a <= b
  {
    if a > b { Scale(b + 1, a, c); }
  }

  lemma Scale(a: nat, b: nat, c: nat)
    requires a <= b
    ensures a * c <= b * c
  {
    assert b * c == a * c + (b - a) * c;
  }

  /** Rounding down never lowers what each remaining token can claim; the last tokens take everything left. */
  lemma ShareBounds(r: nat, e: nat, c: nat)
    requires 0 < r <= c
    ensures Share(r, e, c) <= e
    ensures (e - Share(r, e, c)) * c >= e * (c - r)
    ensures r == c ==> Share(r, e, c) == e
  {
    ShareMeans(r, e, c);
    PayBounds(r, e, c, Share(r, e, c));
  }

  lemma PayBounds(r: nat, e: nat, c: nat, pay: nat)
    requires 0 < r <= c && pay * c <= r * e < (pay + 1) * c
    ensures pay <= e
    ensures (e - pay) * c >= e * (c - r)
    ensures r == c ==> pay == e
  {
    Scale(r, c, e);
    assert c * e == e * c && (e + 1) * c == e * c + c;
    Cancel(pay, e, c);
    assert (e - pay) * c == e * c - pay * c;
    assert e * (c - r) == e * c - r * e;
    if r == c { Cancel(e, pay, c); }
  }

  /** With exact collateral the share is exactly the payout of each contract. */
  lemma ShareOfExact(r: nat, c: nat, p: nat)
    requires 0 < c
    ensures Share(r, c * p, c) == r * p
  {
    var pay := Share(r, c * p, c);
    ShareMeans(r, c * p, c);
    assert r * (c * p) == (r * p) * c;
    Cancel(r * p, pay, c);
    assert (r * p + 1) * c == (r * p) * c + c;
    Cancel(pay, r * p, c);
  }

  /** What is left still covers every remaining winning token. */
  lemma ShareKeepsCollateral(r: nat, e: nat, c: nat, p: nat)
    requires 0 < r <= c && e >= c * p
    ensures Share(r, e, c) <= e
    ensures e - Share(r, e, c) >= (c - r) * p
  {
    ShareBounds(r, e, c);
    LeftCovers(r, e, c, p, e - Share(r, e, c));
  }

  lemma LeftCovers(r: nat, e: nat, c: nat, p: nat, left: nat)
    requires 0 < r <= c && e >= c * p && left * c >= e * (c - r)
    ensures left >= (c - r) * p
  {
    Scale(c * p, e, c - r);
    assert (c * p) * (c - r) == ((c - r) * p) * c;
    assert (left + 1) * c == left * c + c;
    Cancel((c - r) * p, left, c);
  }

  /** Winning tokens of a wallet. */
  function Reward(s: Pool, who: nat): (r: nat)
    requires who < |s.wallets| && s.winner.Some?
  {
    Holding(s.wallets[who], s.winner.value)
  }

  /** What a collector is paid. */
  function Pay(s: Pool, who: nat): (pay: nat)
    requires who < |s.wallets| && s.winner.Some?
  {
    if Reward(s, who) == 0 || s.circulation == 0 then 0 else Share(Reward(s, who), s.escrow, s.circulation)
  }

  /** The pool may burn all the collector holds, and the product in the share fits in 64 bits. */
  predicate CollectAllowed(s: Pool, who: nat)
  {
    && who < |s.wallets| && s.settled && s.winner.Some?
    && s.wallets[who].long <= s.wallets[who].longDelegated && s.wallets[who].short <= s.wallets[who].shortDelegated
    && Times(Reward(s, who), s.escrow) <= U64_MAX
  }

  /** What a collection may rely on; InvariantCollectable gets it from the invariant. */
  predicate Collectable(s: Pool, who: nat)
  {
    && who < |s.wallets| && s.settled && s.winner.Some?
    && s.wallets[who].long <= s.longSupply && s.wallets[who].short <= s.shortSupply
    && Reward(s, who) <= s.circulation && Pay(s, who) <= s.escrow && s.wallets[who].cash + s.escrow <= U64_MAX
  }

  lemma InvariantCollectable(s: Pool, who: nat)
    requires Invariant(s) && who < |s.wallets| && s.settled
    ensures Collectable(s, who)
  {
    TotalAtLeast(s.wallets, Position(Long), who);
    TotalAtLeast(s.wallets, Position(Short), who);
    TotalAtLeast(s.wallets, Cash, who);
    if Reward(s, who) > 0 { ShareBounds(Reward(s, who), s.escrow, s.circulation); }
  }

  function Collected(s: Pool, who: nat): (s': Pool)
    requires Collectable(s, who) && s.wallets[who].long <= s.wallets[who].longDelegated && s.wallets[who].short <= s.wallets[who].shortDelegated
  {
    var w := s.wallets[who];
    s.(circulation := s.circulation - Reward(s, who),
       escrow := s.escrow - Pay(s, who),
       longSupply := s.longSupply - w.long,
       shortSupply := s.shortSupply - w.short,
       wallets := s.wallets[who := Wallet(w.cash + Pay(s, who), 0, 0, w.longDelegated - w.long, w.shortDelegated - w.short)])
  }

  /** A collection keeps the remaining winning tokens fully collateralized. */
  lemma CollectedKeepsInvariant(s: Pool, who: nat)
    requires Invariant(s) && CollectAllowed(s, who) && Collectable(s, who)
    ensures Invariant(Collected(s, who))
    ensures Exact(s) ==> Exact(Collected(s, who)) && Pay(s, who) == Times(Reward(s, who), Payout(s))
    ensures Total(Collected(s, who).wallets, Cash) + Collected(s, who).escrow == Total(s.wallets, Cash) + s.escrow
  {
    var s' := Collected(s, who);
    TotalUpdate(s.wallets, who, s'.wallets[who]);
    CollateralAfterPay(s, who);
  }

  lemma CollateralAfterPay(s: Pool, who: nat)
    requires Collectable(s, who) && s.escrow >= Times(s.circulation, Payout(s))
    ensures s.escrow - Pay(s, who) >= Times(s.circulation - Reward(s, who), Payout(s))
    ensures Exact(s) ==> Pay(s, who) == Times(Reward(s, who), Payout(s))
                         && s.escrow - Pay(s, who) == Times(s.circulation - Reward(s, who), Payout(s))
  {
    var r, c, p := Reward(s, who), s.circulation, Payout(s);
    TimesIsProduct(c, p);
    TimesIsProduct(c - r, p);
    TimesIsProduct(r, p);
    TimesSum(c - r, r, p);
    if r > 0 {
      ShareKeepsCollateral(r, s.escrow, c, p);
      ShareOfExact(r, c, p);
    }
  }

  // ----- token movements outside the program -----

  /** A holder may send its own tokens to another holder, or cash to the escrow account. */
  datatype Move = ToHolder(source: nat, target: nat, token: Token, amount: nat) | ToEscrow(source: nat, amount: nat)

  predicate MoveAllowed(s: Pool, m: Move)
  {
    match m
    case ToHolder(source, target, token, amount) =>
      source < |s.wallets| && target < |s.wallets| && source != target && amount <= Amount(s.wallets[source], token)
    case ToEscrow(source, amount) => source < |s.wallets| && amount <= s.wallets[source].cash
  }

  function WithAmount(w: Wallet, token: Token, n: nat): (w': Wallet)
    ensures Amount(w', token) == n && forall other :: other != token ==> Amount(w', other) == Amount(w, other)
  {
    match token
    case Cash => w.(cash := n)
    case Position(Long) => w.(long := n)
    case Position(Short) => w.(short := n)
  }

  function MovedTokens(s: Pool, m: Move): (s': Pool)
    requires MoveAllowed(s, m)
  {
    match m
    case ToHolder(source, target, token, amount) =>
      var a, b := s.wallets[source], s.wallets[target];
      s.(wallets := s.wallets[source := WithAmount(a, token, Amount(a, token) - amount)]
           [target := WithAmount(b, token, Amount(b, token) + amount)])
    case ToEscrow(source, amount) =>
      var a := s.wallets[source];
      s.(escrow := s.escrow + amount, wallets := s.wallets[source := a.(cash := a.cash - amount)])
  }

  /** What a transfer does to every balance: the amount leaves one holder and reaches the other, or the escrow. */
  lemma MoveBalances(s: Pool, m: Move, i: nat, token: Token)
    requires MoveAllowed(s, m) && i < |s.wallets|
    ensures var s' := MovedTokens(s, m);
            && |s'.wallets| == |s.wallets|
            && Amount(s'.wallets[i], token) == Amount(s.wallets[i], token)
               - (if i == m.source && token == (if m.ToHolder? then m.token else Cash) then m.amount else 0)
               + (if m.ToHolder? && i == m.target && token == m.token then m.amount else 0)
            && s'.escrow == s.escrow + (if m.ToEscrow? then m.amount else 0)
            && s'.longSupply == s.longSupply && s'.shortSupply == s.shortSupply && s'.circulation == s.circulation
  {
  }

  /** A transfer keeps the pool collateralized; between holders it keeps the escrow exact too. */
  lemma MovedKeepsInvariant(s: Pool, m: Move)
    requires Invariant(s) && MoveAllowed(s, m)
    ensures Invariant(MovedTokens(s, m))
    ensures Exact(s) && m.ToHolder? ==> Exact(MovedTokens(s, m))
    ensures Total(MovedTokens(s, m).wallets, Cash) + MovedTokens(s, m).escrow == Total(s.wallets, Cash) + s.escrow
  {
    match m
    case ToHolder(_, _, _, _) => HolderMoveTotals(s, m);
    case ToEscrow(source, amount) => TotalUpdate(s.wallets, source, MovedTokens(s, m).wallets[source]);
  }

  /** A transfer between holders keeps every total. */
  lemma HolderMoveTotals(s: Pool, m: Move)
    requires MoveAllowed(s, m) && m.ToHolder?
    ensures forall token :: Total(MovedTokens(s, m).wallets, token) == Total(s.wallets, token)
  {
    var ws := s.wallets[m.source := WithAmount(s.wallets[m.source], m.token, Amount(s.wallets[m.source], m.token) - m.amount)];
    TotalUpdate(s.wallets, m.source, ws[m.source]);
    TotalUpdate(ws, m.target, MovedTokens(s, m).wallets[m.target]);
  }
}
