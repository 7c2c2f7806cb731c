/** Reverse auctions over their whole life up to the escrow hold: offers (clients/views/b2b_views.py),
    the watchdog (clients/apps.py), the award task (clients/tasks.py) and trigger_escrow_hold
    (clients/models/marketplace_b2b.py). */
module Bidding {
  import opened AwardScoring
  import opened Options

  const EXTENSION: int := 300     // seconds

  datatype OfferRow = OfferRow(price: real, isWinner: bool)

  datatype BidStatus = Open | Awarding | EscrowHeld | Cancelled

  datatype Bid = Bid(
    buyer: nat, quantity: int, target: Option<real>, autoAward: bool, expiresAt: int,
    status: BidStatus, offers: map<nat, OfferRow>, winner: Option<nat>, winningPrice: real)

  datatype Account = Account(balance: real, held: real)

  datatype Hold = Hold(bid: nat, client: nat, amount: real)

  datatype Market = Market(
    bids: map<nat, Bid>, accounts: map<nat, Account>, ledger: seq<Hold>, trust: map<nat, int>)

  // ---------- the operations ----------

  function AccountOf(m: Market, client: nat): Account {
    if client in m.accounts then m.accounts[client] else Account(0.0, 0.0)
  }

  function GoodsTotal(b: Bid): real {
    b.winningPrice * (if b.quantity < 1 then 1 else b.quantity) as real
  }

  /** trigger_escrow_hold: refused outside open and awarding, without a price, or when the buyer
      cannot pay; a refusal changes nothing. */
  predicate CanHold(m: Market, b: Bid) {
    b.status in {Open, Awarding} && b.winningPrice != 0.0 && AccountOf(m, b.buyer).balance >= GoodsTotal(b)
  }

  function AfterHold(m: Market, id: nat): Market
    requires id in m.bids
  {
    var b := m.bids[id];
    if !CanHold(m, b) then m
    else
      var a, amount := AccountOf(m, b.buyer), GoodsTotal(b);
      m.(ledger := m.ledger + [Hold(id, b.buyer, amount)],
         accounts := m.accounts[b.buyer := Account(a.balance - amount, a.held + amount)],
         bids := m.bids[id := b.(status := EscrowHeld)])
  }

  /** The rows of the offers with the winner's flag set and all others cleared. */
  function Flagged(offers: map<nat, OfferRow>, winner: nat): map<nat, OfferRow> {
    map s | s in offers :: OfferRow(offers[s].price, s == winner)
  }

  /** The database returns the offers of a bid cheapest first, in some order. */
  predicate ByPriceOrder(offers: map<nat, OfferRow>, order: seq<nat>) {
    && (forall s :: s in offers ==> s in order)
    && (forall i :: 0 <= i < |order| ==> order[i] in offers)
    && (forall i, j :: 0 <= i < j < |order| ==>
          order[i] != order[j] && offers[order[i]].price <= offers[order[j]].price)
  }

  function Candidates(m: Market, offers: map<nat, OfferRow>, order: seq<nat>): (r: seq<Offer>)
    requires ByPriceOrder(offers, order)
    ensures |r| == |order|
  {
    seq(|order|, i requires 0 <= i < |order| =>
      Offer(order[i], offers[order[i]].price, if order[i] in m.trust then m.trust[order[i]] else 50))
  }

  function Awarded(m: Market, b: Bid, order: seq<nat>): Bid
    requires ByPriceOrder(b.offers, order) && order != []
  {
    var w := Best(Candidates(m, b.offers, order));
    b.(status := Awarding, winner := Some(w.seller), winningPrice := w.price,
       offers := Flagged(b.offers, w.seller))
  }

  /** One delivery of the award task. */
  function AfterAward(m: Market, id: nat, order: seq<nat>): Market {
    if id !in m.bids || m.bids[id].status !in {Awarding, Open} then m
    else if m.bids[id].offers == map[] then m.(bids := m.bids[id := m.bids[id].(status := Cancelled)])
    else if !ByPriceOrder(m.bids[id].offers, order) || order == [] then m
    else AfterHold(m.(bids := m.bids[id := Awarded(m, m.bids[id], order)]), id)
  }

  predicate OfferAccepted(m: Market, id: nat, seller: nat, price: real, now: int) {
    price > 0.0 && id in m.bids && m.bids[id].status == Open && m.bids[id].expiresAt > now
    && m.bids[id].buyer != seller
  }

  /** An offer replaces the seller's earlier one; it may be awarded on the spot. */
  function AfterOffer(m: Market, id: nat, seller: nat, price: real, now: int): Market {
    if !OfferAccepted(m, id, seller, price, now) then m
    else
      var b := m.bids[id];
      var flag := seller in b.offers && b.offers[seller].isWinner;
      var b1 := b.(offers := b.offers[seller := OfferRow(price, flag)]);
      var b2 := b1.(winner := Some(seller), winningPrice := price,
                    offers := b.offers[seller := OfferRow(price, true)]);
      if b.autoAward && b.target.Some? && b.target.value != 0.0 && price <= b.target.value
         && AccountOf(m, b.buyer).balance >= GoodsTotal(b2)
      then AfterHold(m.(bids := m.bids[id := b2]), id)
      else m.(bids := m.bids[id := b1])
  }

  predicate Expired(b: Bid, now: int) { b.status == Open && b.expiresAt <= now }

  /** What the watchdog does to one expired bid; `sent` says whether the task could be queued. */
  function Watched(b: Bid, now: int, sent: bool): Bid {
    if |b.offers| > 0 then
      if sent then b.(status := Awarding) else b.(status := Open, expiresAt := now + EXTENSION)
    else b.(status := Cancelled)
  }

  function AfterCycle(m: Market, now: int, unsent: set<nat>): Market {
    m.(bids := map id | id in m.bids ::
      if Expired(m.bids[id], now) then Watched(m.bids[id], now, id !in unsent) else m.bids[id])
  }

  /** The tables and the code. */
  class AuctionHouse {
    var market: Market

    constructor ()
      ensures market == Market(map[], map[], [], map[])
    {
      market := Market(map[], map[], [], map[]);
    }

    /** One cycle of the watchdog that holds the lock. */
    method WatchdogCycle(now: int, unsent: set<nat>)
      modifies this
      ensures market == AfterCycle(old(market), now, unsent)
    {
      var before := market.bids;
      var expired := set id | id in before && Expired(before[id], now);
      var left := expired;
      while left != {}
        invariant left <= expired
        invariant market == old(market).(bids := market.bids)
        invariant market.bids.Keys == before.Keys
        invariant forall id :: id in before ==>
          (market.bids[id] == if id in expired && id !in left
                              then Watched(before[id], now, id !in unsent) else before[id])
        decreases left
      {
        var id :| id in left;
        var bid := market.bids[id];
        if |bid.offers| > 0 {
          bid := bid.(status := Awarding);
          if id in unsent {
            bid := bid.(status := Open, expiresAt := now + EXTENSION);
          }
        } else {
          bid := bid.(status := Cancelled);
        }
        market := market.(bids := market.bids[id := bid]);
        left := left - {id};
      }
    }

    method TriggerEscrowHold(id: nat) returns (ok: bool)
      requires id in market.bids
      modifies this
      ensures ok == CanHold(old(market), old(market).bids[id])
      ensures market == AfterHold(old(market), id)
      ensures var b := old(market).bids[id];
        ok ==> |market.ledger| == |old(market).ledger| + 1 &&
               market.ledger[|old(market).ledger|].amount ==
                 if b.quantity > 1 then b.winningPrice * b.quantity as real else b.winningPrice
    {
      var b := market.bids[id];
      ok := CanHold(market, b);
      if ok {
        var a, amount := AccountOf(market, b.buyer), GoodsTotal(b);
        SeveralPieces(b);
        market := market.(ledger := market.ledger + [Hold(id, b.buyer, amount)]);
        market := market.(accounts := market.accounts[b.buyer := Account(a.balance - amount, a.held + amount)]);
        market := market.(bids := market.bids[id := b.(status := EscrowHeld)]);
      }
    }

    method ProcessAward(id: nat, order: seq<nat>)
      requires id in market.bids && ByPriceOrder(market.bids[id].offers, order)
      modifies this
      ensures market == AfterAward(old(market), id, order)
    {
      var bid := market.bids[id];
      if bid.status != Awarding && bid.status != Open { return; }
      if bid.offers == map[] {
        market := market.(bids := market.bids[id := bid.(status := Cancelled)]);
        return;
      }
      assert order != [] by { var s :| s in bid.offers; assert s in order; }
      var winner := PickWinner(Candidates(market, bid.offers, order));
      bid := bid.(status := Awarding, winner := Some(winner.seller), winningPrice := winner.price);
      bid := bid.(offers := Flagged(bid.offers, winner.seller));
      market := market.(bids := market.bids[id := bid]);
      var _ := TriggerEscrowHold(id);
    }
  }

  lemma SeveralPieces(b: Bid)
    ensures b.quantity > 1 ==> GoodsTotal(b) == b.winningPrice * b.quantity as real
  {
  }

  // ---------- what every run keeps ----------

  predicate NoFlag(b: Bid) {
    forall s :: s in b.offers ==> !b.offers[s].isWinner
  }

  /** Exactly one offer is flagged, and it is the bid's winner at the bid's price. */
  predicate OneWinner(b: Bid) {
    && b.winner.Some? && b.winner.value in b.offers
    && b.winningPrice == b.offers[b.winner.value].price
    && (forall s :: s in b.offers ==> (b.offers[s].isWinner <==> s == b.winner.value))
  }

  predicate Priced(b: Bid) {
    forall s :: s in b.offers ==> b.offers[s].price > 0.0
  }

  predicate BidOk(b: Bid) {
    && Priced(b)
    && match b.status
       case Open => b.winner == None && NoFlag(b)
       case Awarding => (b.winner == None && NoFlag(b)) || OneWinner(b)
       case EscrowHeld => OneWinner(b)
       case Cancelled => b.offers == map[]
  }

  function HoldsOf(ledger: seq<Hold>, id: nat): nat {
    if ledger == [] then 0
    else HoldsOf(ledger[..|ledger| - 1], id) + if ledger[|ledger| - 1].bid == id then 1 else 0
  }

  function HeldFor(ledger: seq<Hold>, client: nat): real {
    if ledger == [] then 0.0
    else HeldFor(ledger[..|ledger| - 1], client)
         + if ledger[|ledger| - 1].client == client then ledger[|ledger| - 1].amount else 0.0
  }

  /** No bid with offers is cancelled; an awarded bid has exactly one flagged offer, its winner. */
  predicate BidsOk(bids: map<nat, Bid>) {
    forall id :: id in bids ==> BidOk(bids[id])
  }

  predicate IsHeld(bids: map<nat, Bid>, id: nat) {
    id in bids && bids[id].status == EscrowHeld
  }

  /** A held bid has one hold in the ledger, and no other bid has any. */
  ghost predicate HoldsOk(ledger: seq<Hold>, bids: map<nat, Bid>) {
    forall id :: HoldsOf(ledger, id) == if IsHeld(bids, id) then 1 else 0
  }

  /** Nobody is overdrawn, and held money is the sum of the holds. */
  ghost predicate AccountsOk(m: Market) {
    forall c :: AccountOf(m, c).balance >= 0.0 && AccountOf(m, c).held == HeldFor(m.ledger, c)
  }

  ghost predicate Sound(m: Market) {
    BidsOk(m.bids) && HoldsOk(m.ledger, m.bids) && AccountsOk(m)
  }

  datatype Step =
    | NewBid(id: nat, buyer: nat, quantity: int, target: Option<real>, autoAward: bool, expiresAt: int)
    | MakeOffer(id: nat, seller: nat, price: real, now: int)
    | Cycle(now: int, unsent: set<nat>)
    | DeliverAward(id: nat, order: seq<nat>)
    | Deposit(client: nat, amount: real)
    | SetTrust(client: nat, score: int)

  function Do(m: Market, s: Step): Market {
    match s
    case NewBid(id, buyer, quantity, target, auto, expires) =>
      if id in m.bids then m
      else m.(bids := m.bids[id := Bid(buyer, quantity, target, auto, expires, Open, map[], None, 0.0)])
    case MakeOffer(id, seller, price, now) => AfterOffer(m, id, seller, price, now)
    case Cycle(now, unsent) => AfterCycle(m, now, unsent)
    case DeliverAward(id, order) => AfterAward(m, id, order)
    case Deposit(c, amount) =>
      if amount < 0.0 then m
      else m.(accounts := m.accounts[c := AccountOf(m, c).(balance := AccountOf(m, c).balance + amount)])
    case SetTrust(c, score) => m.(trust := m.trust[c := score])
  }

  function DoAll(steps: seq<Step>): Market {
    if steps == [] then Market(map[], map[], [], map[])
    else Do(DoAll(steps[..|steps| - 1]), steps[|steps| - 1])
  }

  lemma LedgerGrows(ledger: seq<Hold>, h: Hold)
    ensures forall id :: HoldsOf(ledger + [h], id) == HoldsOf(ledger, id) + if h.bid == id then 1 else 0
    ensures forall c :: HeldFor(ledger + [h], c) == HeldFor(ledger, c) + if h.client == c then h.amount else 0.0
  {
    assert (ledger + [h])[..|ledger|] == ledger;
  }

  /** A hold for a properly awarded bid: it changes nothing, or it adds the bid's only hold; and it
      never changes what a client owns in total. */
  lemma HoldKeeps(m: Market, id: nat)
    requires id in m.bids && m.bids[id].status != EscrowHeld
    requires OneWinner(m.bids[id]) && Priced(m.bids[id])
    requires BidsOk(m.bids - {id}) && HoldsOk(m.ledger, m.bids) && AccountsOk(m)
    requires !CanHold(m, m.bids[id]) ==> BidOk(m.bids[id])
    ensures Sound(AfterHold(m, id)) && SameTotals(m, AfterHold(m, id))
  {
    var b, m' := m.bids[id], AfterHold(m, id);
    if CanHold(m, b) {
      PayKeeps(m, m', Hold(id, b.buyer, GoodsTotal(b)));
      LedgerGrows(m.ledger, Hold(id, b.buyer, GoodsTotal(b)));
      assert forall i :: i != id ==> IsHeld(m'.bids, i) == IsHeld(m.bids, i);
    }
    BidsPut(m.bids, id, m'.bids[id]);
    assert m'.bids == m.bids[id := m'.bids[id]];
  }

  lemma PayKeeps(m: Market, m': Market, h: Hold)
    requires AccountsOk(m) && AccountOf(m, h.client).balance >= h.amount
    requires m'.ledger == m.ledger + [h]
    requires var a := AccountOf(m, h.client);
      m'.accounts == m.accounts[h.client := Account(a.balance - h.amount, a.held + h.amount)]
    ensures AccountsOk(m') && SameTotals(m, m')
  {
    LedgerGrows(m.ledger, h);
    forall c ensures AccountOf(m', c).balance >= 0.0 && AccountOf(m', c).held == HeldFor(m'.ledger, c)
      && AccountOf(m, c).balance + AccountOf(m, c).held == AccountOf(m', c).balance + AccountOf(m', c).held
    {
      assert AccountOf(m, c).balance >= 0.0;
      if c != h.client { assert AccountOf(m', c) == AccountOf(m, c); }
    }
  }

  lemma BidsPut(bids: map<nat, Bid>, id: nat, b: Bid)
    requires BidsOk(bids - {id}) && BidOk(b)
    ensures BidsOk(bids[id := b])
  {
    forall i | i in bids && i != id ensures BidOk(bids[i]) {
      assert i in bids - {id};
    }
  }

  lemma BidsWithout(bids: map<nat, Bid>, id: nat)
    requires BidsOk(bids)
    ensures BidsOk(bids - {id})
  {
    forall i | i in bids - {id} ensures BidOk((bids - {id})[i]) {
      assert BidOk(bids[i]);
    }
  }

  ghost predicate SameTotals(m: Market, m': Market) {
    forall c :: AccountOf(m, c).balance + AccountOf(m, c).held
             == AccountOf(m', c).balance + AccountOf(m', c).held
  }

  lemma AwardedIsOk(m: Market, b: Bid, order: seq<nat>)
    requires BidOk(b) && ByPriceOrder(b.offers, order) && order != []
    ensures OneWinner(Awarded(m, b, order)) && BidOk(Awarded(m, b, order))
    ensures exists i :: Wins(Candidates(m, b.offers, order), i)
              && Awarded(m, b, order).winner == Some(order[i])
  {
    var offers := Candidates(m, b.offers, order);
    var i := BestWins(offers);
    assert offers[i].seller == order[i] && order[i] in b.offers;
  }

  /** Replacing one bid by a proper one; neither may hold money. */
  lemma SetBid(m: Market, id: nat, b: Bid)
    requires Sound(m) && BidOk(b) && b.status != EscrowHeld && !IsHeld(m.bids, id)
    ensures Sound(m.(bids := m.bids[id := b]))
  {
    var m' := m.(bids := m.bids[id := b]);
    BidsWithout(m.bids, id);
    BidsPut(m.bids, id, b);
    assert forall i :: IsHeld(m'.bids, i) == IsHeld(m.bids, i);
    assert forall c :: AccountOf(m', c) == AccountOf(m, c);
  }

  /** Replacing one bid by an awarded one, and holding the money for it. */
  lemma SetAndHold(m: Market, id: nat, b: Bid)
    requires Sound(m) && id in m.bids && !IsHeld(m.bids, id)
    requires b.status != EscrowHeld && OneWinner(b) && Priced(b)
    requires !CanHold(m, b) ==> BidOk(b)
    ensures var m' := AfterHold(m.(bids := m.bids[id := b]), id);
      Sound(m') && SameTotals(m, m')
  {
    var m1 := m.(bids := m.bids[id := b]);
    BidsWithout(m.bids, id);
    assert m1.bids - {id} == m.bids - {id};
    assert forall i :: IsHeld(m1.bids, i) == IsHeld(m.bids, i);
    assert forall c :: AccountOf(m1, c) == AccountOf(m, c);
    HoldKeeps(m1, id);
  }

  lemma AwardKeeps(m: Market, id: nat, order: seq<nat>)
    requires Sound(m)
    ensures Sound(AfterAward(m, id, order)) && SameTotals(m, AfterAward(m, id, order))
  {
    if id in m.bids && m.bids[id].status in {Awarding, Open} {
      var b := m.bids[id];
      assert BidOk(b);
      if b.offers == map[] {
        SetBid(m, id, b.(status := Cancelled));
      } else if ByPriceOrder(b.offers, order) && order != [] {
        AwardedIsOk(m, b, order);
        SetAndHold(m, id, Awarded(m, b, order));
      }
    }
  }

  lemma OfferKeeps(m: Market, id: nat, seller: nat, price: real, now: int)
    requires Sound(m)
    ensures Sound(AfterOffer(m, id, seller, price, now)) && SameTotals(m, AfterOffer(m, id, seller, price, now))
  {
    if OfferAccepted(m, id, seller, price, now) {
      var b := m.bids[id];
      assert BidOk(b);
      var b1 := b.(offers := b.offers[seller := OfferRow(price, false)]);
      var b2 := b.(winner := Some(seller), winningPrice := price, offers := b.offers[seller := OfferRow(price, true)]);
      if b.autoAward && b.target.Some? && b.target.value != 0.0 && price <= b.target.value
         && AccountOf(m, b.buyer).balance >= GoodsTotal(b2) {
        SetAndHold(m, id, b2);
      } else {
        SetBid(m, id, b1);
      }
    }
  }

  lemma CycleKeeps(m: Market, now: int, unsent: set<nat>)
    requires Sound(m)
    ensures Sound(AfterCycle(m, now, unsent))
  {
    var m' := AfterCycle(m, now, unsent);
    forall id | id in m'.bids ensures BidOk(m'.bids[id]) {
      WatchedIsOk(m.bids[id], now, id !in unsent);
    }
    assert forall i :: IsHeld(m'.bids, i) == IsHeld(m.bids, i);
    assert forall c :: AccountOf(m', c) == AccountOf(m, c);
  }

  lemma WatchedIsOk(b: Bid, now: int, sent: bool)
    requires BidOk(b)
    ensures Expired(b, now) ==> BidOk(Watched(b, now, sent))
  {
  }

  /** After a cycle no bid is open with an expiry at or before the time of the cycle. */
  lemma CycleClearsExpired(m: Market, now: int, unsent: set<nat>, id: nat)
    requires id in m.bids
    ensures !Expired(AfterCycle(m, now, unsent).bids[id], now)
  {
  }

  lemma DepositKeeps(m: Market, client: nat, amount: real)
    requires Sound(m)
    ensures Sound(Do(m, Deposit(client, amount)))
  {
    var n := Do(m, Deposit(client, amount));
    forall x ensures AccountOf(n, x).balance >= 0.0 && AccountOf(n, x).held == HeldFor(m.ledger, x) {
      if x != client { assert AccountOf(n, x) == AccountOf(m, x); }
    }
  }

  lemma StepKeeps(m: Market, s: Step)
    requires Sound(m)
    ensures Sound(Do(m, s))
  {
    match s
    case NewBid(id, buyer, quantity, target, auto, expires) =>
      if id !in m.bids {
        SetBid(m, id, Bid(buyer, quantity, target, auto, expires, Open, map[], None, 0.0));
      }
    case MakeOffer(id, seller, price, now) => OfferKeeps(m, id, seller, price, now);
    case Cycle(now, unsent) => CycleKeeps(m, now, unsent);
    case DeliverAward(id, order) => AwardKeeps(m, id, order);
    case Deposit(client, amount) => DepositKeeps(m, client, amount);
    case SetTrust(_, _) => assert forall c :: AccountOf(Do(m, s), c) == AccountOf(m, c);
  }

  /** Over every run: bids are proper (no bid with offers is cancelled, and an awarded bid has
      exactly one flagged offer, its winner at its price), each held bid has one hold in the ledger
      and no other bid has any, and every account's held amount is the sum of its holds. */
  lemma {:induction false} EveryRunIsSound(steps: seq<Step>)
    ensures Sound(DoAll(steps))
  {
    if steps != [] {
      EveryRunIsSound(steps[..|steps| - 1]);
      StepKeeps(DoAll(steps[..|steps| - 1]), steps[|steps| - 1]);
    }
  }

  lemma HeldStays(m: Market, s: Step, id: nat)
    requires IsHeld(m.bids, id)
    ensures id in Do(m, s).bids && Do(m, s).bids[id] == m.bids[id]
  {
  }

  /** Once a bid's money is held, nothing that these operations do changes the bid, and its money is
      not held a second time, however often the award is delivered again. */
  lemma {:induction false} HeldIsFinal(steps: seq<Step>, more: seq<Step>, id: nat)
    requires IsHeld(DoAll(steps).bids, id)
    ensures var m := DoAll(steps + more);
      id in m.bids && m.bids[id] == DoAll(steps).bids[id] && HoldsOf(m.ledger, id) == 1
  {
    if more == [] {
      assert steps + more == steps;
    } else {
      var last := |more| - 1;
      HeldIsFinal(steps, more[..last], id);
      assert (steps + more)[..|steps + more| - 1] == steps + more[..last];
      HeldStays(DoAll(steps + more[..last]), more[last], id);
    }
    EveryRunIsSound(steps + more);
  }

  /** Only a deposit changes what a client owns, balance and held money together. */
  lemma MoneyIsConserved(m: Market, s: Step)
    requires Sound(m)
    ensures s.Deposit? || SameTotals(m, Do(m, s))
  {
    match s
    case MakeOffer(id, seller, price, now) => OfferKeeps(m, id, seller, price, now);
    case DeliverAward(id, order) => AwardKeeps(m, id, order);
    case _ =>
  }
}
