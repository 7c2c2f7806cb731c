/** What the auctions of Bidding come to: who wins, how much is held and when, which offer counts, and
    what an expiry means. */
module AwardOutcomes {
  import opened AwardScoring
  import opened Options
  import opened Bidding

  /** The goods of a bid at the price of one seller: at least one piece. */
  function Due(b: Bid, seller: nat): real
    requires seller in b.offers
  {
    b.offers[seller].price * (if b.quantity > 1 then b.quantity else 1) as real
  }

  // ---------- how much is held ----------

  /** The hold names a held bid, its buyer, and its goods at the winner's price. */
  predicate Backed(bids: map<nat, Bid>, h: Hold) {
    h.bid in bids &&
    var b := bids[h.bid];
    b.status == EscrowHeld && b.winner.Some? && b.winner.value in b.offers &&
    h.client == b.buyer && h.amount == Due(b, b.winner.value)
  }

  ghost predicate AllBacked(m: Market) { forall i :: 0 <= i < |m.ledger| ==> Backed(m.bids, m.ledger[i]) }

  lemma HoldIsDue(b: Bid)
    requires OneWinner(b)
    ensures GoodsTotal(b) == Due(b, b.winner.value)
  {
  }

  lemma HoldBacks(m: Market, id: nat)
    requires id in m.bids && OneWinner(m.bids[id]) && m.bids[id].status != EscrowHeld && AllBacked(m)
    ensures AllBacked(AfterHold(m, id))
  {
    var n := AfterHold(m, id);
    HoldIsDue(m.bids[id]);
    forall i | 0 <= i < |n.ledger| ensures Backed(n.bids, n.ledger[i]) {
      if i < |m.ledger| { assert Backed(m.bids, m.ledger[i]); }
    }
  }

  /** Replacing a bid that is not held. */
  lemma PutBacks(m: Market, id: nat, b: Bid)
    requires AllBacked(m) && (id in m.bids ==> m.bids[id].status != EscrowHeld)
    ensures AllBacked(m.(bids := m.bids[id := b]))
  {
    forall i | 0 <= i < |m.ledger| ensures Backed(m.bids[id := b], m.ledger[i]) {
      assert Backed(m.bids, m.ledger[i]);
    }
  }

  lemma OfferBacks(m: Market, id: nat, seller: nat, price: real, now: int)
    requires Sound(m) && AllBacked(m)
    ensures AllBacked(AfterOffer(m, id, seller, price, now))
  {
    if OfferAccepted(m, id, seller, price, now) {
      var b := m.bids[id];
      assert BidOk(b);
      var b1 := b.(offers := b.offers[seller := OfferRow(price, false)]);
      var b2 := b.(winner := Some(seller), winningPrice := price, offers := b.offers[seller := OfferRow(price, true)]);
      PutBacks(m, id, b1);
      PutBacks(m, id, b2);
      HoldBacks(m.(bids := m.bids[id := b2]), id);
    }
  }

  lemma AwardBacks(m: Market, id: nat, order: seq<nat>)
    requires Sound(m) && AllBacked(m)
    ensures AllBacked(AfterAward(m, id, order))
  {
    if id in m.bids && m.bids[id].status in {Awarding, Open} {
      var b := m.bids[id];
      assert BidOk(b);
      if b.offers == map[] {
        PutBacks(m, id, b.(status := Cancelled));
      } else if ByPriceOrder(b.offers, order) && order != [] {
        AwardedIsOk(m, b, order);
        PutBacks(m, id, Awarded(m, b, order));
        HoldBacks(m.(bids := m.bids[id := Awarded(m, b, order)]), id);
      }
    }
  }

  lemma StepBacks(m: Market, s: Step)
    requires Sound(m) && AllBacked(m)
    ensures AllBacked(Do(m, s))
  {
    var n := Do(m, s);
    match s
    case MakeOffer(id, seller, price, now) => OfferBacks(m, id, seller, price, now);
    case DeliverAward(id, order) => AwardBacks(m, id, order);
    case _ =>
      forall i | 0 <= i < |n.ledger| ensures Backed(n.bids, n.ledger[i]) {
        assert Backed(m.bids, m.ledger[i]);
      }
  }

  lemma {:induction false} RunBacks(steps: seq<Step>)
    ensures AllBacked(DoAll(steps))
  {
    if steps != [] {
      EveryRunIsSound(steps[..|steps| - 1]);
      RunBacks(steps[..|steps| - 1]);
      StepBacks(DoAll(steps[..|steps| - 1]), steps[|steps| - 1]);
    }
  }

  lemma {:induction false} NoHolds(ledger: seq<Hold>, id: nat)
    requires HoldsOf(ledger, id) == 0
    ensures forall i :: 0 <= i < |ledger| ==> ledger[i].bid != id
  {
    if ledger != [] { NoHolds(ledger[..|ledger| - 1], id); }
  }

  lemma {:induction false} OneHold(ledger: seq<Hold>, id: nat) returns (i: nat)
    requires HoldsOf(ledger, id) == 1
    ensures i < |ledger| && forall j :: 0 <= j < |ledger| ==> (ledger[j].bid == id <==> j == i)
  {
    var n := |ledger| - 1;
    if ledger[n].bid == id {
      NoHolds(ledger[..n], id);
      i := n;
    } else {
      i := OneHold(ledger[..n], id);
    }
  }

  /** Over every run each held bid has exactly one hold, in the name of its buyer, for the winner's price
      times the quantity. */
  lemma HeldAmount(steps: seq<Step>, id: nat) returns (i: nat)
    requires IsHeld(DoAll(steps).bids, id)
    ensures var m := DoAll(steps);
      var b := m.bids[id];
      && b.winner.Some? && b.winner.value in b.offers
      && i < |m.ledger| && m.ledger[i] == Hold(id, b.buyer, Due(b, b.winner.value))
      && forall j :: 0 <= j < |m.ledger| && j != i ==> m.ledger[j].bid != id
  {
    EveryRunIsSound(steps);
    RunBacks(steps);
    i := OneHold(DoAll(steps).ledger, id);
    assert Backed(DoAll(steps).bids, DoAll(steps).ledger[i]);
  }

  // ---------- whose money it is ----------

  /** What a client has paid in. */
  function PaidIn(steps: seq<Step>, client: nat): real {
    if steps == [] then 0.0
    else
      var s := steps[|steps| - 1];
      PaidIn(steps[..|steps| - 1], client)
      + if s.Deposit? && s.client == client && s.amount >= 0.0 then s.amount else 0.0
  }

  /** Over every run what a client owns, balance and held money together, is what it has paid in. */
  lemma {:induction false} OwnsWhatItPaid(steps: seq<Step>, client: nat)
    ensures var a := AccountOf(DoAll(steps), client);
      a.balance + a.held == PaidIn(steps, client)
  {
    if steps != [] {
      var before, s := steps[..|steps| - 1], steps[|steps| - 1];
      OwnsWhatItPaid(before, client);
      EveryRunIsSound(before);
      if !s.Deposit? { MoneyIsConserved(DoAll(before), s); }
    }
  }

  // ---------- who wins ----------

  /** The trust score of a seller; 50 when none is stored. */
  function TrustOf(m: Market, seller: nat): int { if seller in m.trust then m.trust[seller] else 50 }

  /** The score stored last. */
  function LastTrust(steps: seq<Step>, seller: nat): int {
    if steps == [] then 50
    else
      var s := steps[|steps| - 1];
      if s.SetTrust? && s.client == seller then s.score else LastTrust(steps[..|steps| - 1], seller)
  }

  lemma {:induction false} TrustTold(steps: seq<Step>, seller: nat)
    ensures TrustOf(DoAll(steps), seller) == LastTrust(steps, seller)
  {
    if steps != [] { TrustTold(steps[..|steps| - 1], seller); }
  }

  predicate Cheapest(offers: map<nat, OfferRow>, c: nat) {
    c in offers && forall s :: s in offers ==> offers[c].price <= offers[s].price
  }

  /** No offer outdoes the winner's: a point of trust weighs as much as one percent of the cheapest price,
      or of one pound if that is more. */
  predicate Outdoes(m: Market, offers: map<nat, OfferRow>, base: real, s: nat, w: nat)
    requires s in offers && w in offers
  {
    100.0 * (offers[w].price - offers[s].price) > (TrustOf(m, w) - TrustOf(m, s)) as real * base
  }

  lemma CheapestFirst(offers: map<nat, OfferRow>, order: seq<nat>, c: nat)
    requires ByPriceOrder(offers, order) && order != [] && Cheapest(offers, c)
    ensures offers[order[0]].price == offers[c].price
  {
    var k :| 0 <= k < |order| && order[k] == c;
    assert k > 0 ==> offers[order[0]].price <= offers[order[k]].price;
  }

  lemma NotOutdone(m: Market, offers: map<nat, OfferRow>, order: seq<nat>, i: nat, j: nat)
    requires ByPriceOrder(offers, order) && i < |order| && j < |order|
    requires Score(Candidates(m, offers, order)[i], offers[order[0]].price) >=
             Score(Candidates(m, offers, order)[j], offers[order[0]].price)
    ensures !Outdoes(m, offers, Base(offers[order[0]].price), order[j], order[i])
  {
    ScoreGap(Candidates(m, offers, order)[i], Candidates(m, offers, order)[j], offers[order[0]].price);
  }

  lemma WinnerIsBest(m: Market, b: Bid, order: seq<nat>, c: nat, s: nat)
    requires BidOk(b) && ByPriceOrder(b.offers, order) && order != []
    requires Cheapest(b.offers, c) && s in b.offers
    ensures var w := Awarded(m, b, order).winner;
      w.Some? && w.value in b.offers &&
      !Outdoes(m, b.offers, if b.offers[c].price > 1.0 then b.offers[c].price else 1.0, s, w.value)
  {
    AwardedIsOk(m, b, order);
    var i :| Wins(Candidates(m, b.offers, order), i) && Awarded(m, b, order).winner == Some(order[i]);
    var j :| 0 <= j < |order| && order[j] == s;
    CheapestFirst(b.offers, order, c);
    NotOutdone(m, b.offers, order, i, j);
  }

  // ---------- what one delivery does ----------

  /** Holding the goods of a bid with a winner: all or nothing. */
  predicate HeldOrWaits(m: Market, n: Market, id: nat, b: Bid, due: real) {
    var a := AccountOf(m, b.buyer);
    if a.balance >= due
    then n == m.(ledger := m.ledger + [Hold(id, b.buyer, due)],
                 accounts := m.accounts[b.buyer := Account(a.balance - due, a.held + due)],
                 bids := m.bids[id := b.(status := EscrowHeld)])
    else n == m.(bids := m.bids[id := b])
  }

  lemma HoldOutcome(m: Market, id: nat, b: Bid)
    requires OneWinner(b) && Priced(b) && b.status in {Open, Awarding}
    ensures HeldOrWaits(m, AfterHold(m.(bids := m.bids[id := b]), id), id, b, Due(b, b.winner.value))
  {
    var m1 := m.(bids := m.bids[id := b]);
    HoldIsDue(b);
    assert m1.bids[id := b.(status := EscrowHeld)] == m.bids[id := b.(status := EscrowHeld)];
  }

  lemma DeliveryIsHold(m: Market, id: nat, order: seq<nat>)
    requires Sound(m) && id in m.bids && m.bids[id].status in {Open, Awarding} && m.bids[id].offers != map[]
    requires ByPriceOrder(m.bids[id].offers, order)
    ensures order != [] &&
            AfterAward(m, id, order) == AfterHold(m.(bids := m.bids[id := Awarded(m, m.bids[id], order)]), id)
  {
    var s :| s in m.bids[id].offers;
    assert s in order;
  }

  lemma AwardedFields(m: Market, b: Bid, order: seq<nat>)
    requires BidOk(b) && ByPriceOrder(b.offers, order) && order != []
    ensures var w := Awarded(m, b, order);
      && OneWinner(w) && Priced(w) && w.status == Awarding && w.buyer == b.buyer && w.quantity == b.quantity
      && w.offers.Keys == b.offers.Keys
      && forall s :: s in b.offers ==> w.offers[s].price == b.offers[s].price
  {
    AwardedIsOk(m, b, order);
  }

  lemma SameDue(b: Bid, w: Bid, seller: nat)
    requires seller in b.offers && seller in w.offers && w.quantity == b.quantity
    requires w.offers[seller].price == b.offers[seller].price
    ensures Due(w, seller) == Due(b, seller)
  {
  }

  lemma SoundBid(m: Market, id: nat)
    requires Sound(m) && id in m.bids
    ensures BidOk(m.bids[id])
  {
  }

  /** A delivery to an unprocessed bid with offers always picks a winner; the money is held, and the bid with
      it, if and only if the buyer's balance covers the goods, and otherwise the bid waits in awarding and
      no money moves. */
  lemma DeliveryExact(m: Market, id: nat, order: seq<nat>) returns (b: Bid)
    requires Sound(m) && id in m.bids && m.bids[id].status in {Open, Awarding} && m.bids[id].offers != map[]
    requires ByPriceOrder(m.bids[id].offers, order)
    ensures order != [] && b == Awarded(m, m.bids[id], order)
    ensures OneWinner(b) && b.offers.Keys == m.bids[id].offers.Keys && b.buyer == m.bids[id].buyer
    ensures b.status == Awarding && b.quantity == m.bids[id].quantity
    ensures b.offers[b.winner.value].price == m.bids[id].offers[b.winner.value].price
    ensures HeldOrWaits(m, AfterAward(m, id, order), id, b, Due(m.bids[id], b.winner.value))
    ensures IsHeld(AfterAward(m, id, order).bids, id) <==>
              AccountOf(m, b.buyer).balance >= Due(m.bids[id], b.winner.value)
  {
    SoundBid(m, id);
    DeliveryIsHold(m, id, order);
    AwardedFields(m, m.bids[id], order);
    b := Awarded(m, m.bids[id], order);
    HoldOutcome(m, id, b);
    SameDue(m.bids[id], b, b.winner.value);
  }

  /** A delivery to an unprocessed bid without offers cancels it and moves no money; one to a processed bid
      changes nothing. */
  lemma OtherDeliveries(m: Market, id: nat, order: seq<nat>)
    requires id in m.bids && (m.bids[id].status in {EscrowHeld, Cancelled} || m.bids[id].offers == map[])
    ensures var b := m.bids[id];
      AfterAward(m, id, order) ==
      if b.status in {EscrowHeld, Cancelled} then m else m.(bids := m.bids[id := b.(status := Cancelled)])
  {
    match m.bids[id].status
    case Open | Awarding =>
    case EscrowHeld | Cancelled =>
  }

  // ---------- which offer counts ----------

  /** The price of the last offer of the seller that was taken: a positive one, for an open bid of somebody
      else that had not run out. */
  function LastOffer(steps: seq<Step>, id: nat, seller: nat): Option<real> {
    if steps == [] then None
    else
      var before, s := steps[..|steps| - 1], steps[|steps| - 1];
      var bids := DoAll(before).bids;
      if s.MakeOffer? && s.id == id && s.seller == seller && s.price > 0.0 && id in bids
         && bids[id].status == Open && s.now < bids[id].expiresAt && bids[id].buyer != seller
      then Some(s.price) else LastOffer(before, id, seller)
  }

  lemma AwardKeepsPrices(m: Market, id: nat, order: seq<nat>, i: nat, seller: nat)
    requires i in m.bids
    ensures i in AfterAward(m, id, order).bids
    ensures seller in AfterAward(m, id, order).bids[i].offers <==> seller in m.bids[i].offers
    ensures seller in m.bids[i].offers ==>
              AfterAward(m, id, order).bids[i].offers[seller].price == m.bids[i].offers[seller].price
  {
  }

  lemma OfferStored(m: Market, id: nat, seller: nat, price: real, now: int)
    requires OfferAccepted(m, id, seller, price, now)
    ensures var n := AfterOffer(m, id, seller, price, now);
      && id in n.bids && seller in n.bids[id].offers && n.bids[id].offers[seller].price == price
  {
  }

  lemma OtherOffersStay(m: Market, id: nat, seller: nat, price: real, now: int, i: nat, other: nat)
    requires i in m.bids && (i, other) != (id, seller)
    ensures var n := AfterOffer(m, id, seller, price, now);
      && i in n.bids && (other in n.bids[i].offers <==> other in m.bids[i].offers)
      && (other in m.bids[i].offers ==> n.bids[i].offers[other].price == m.bids[i].offers[other].price)
  {
  }

  /** Over every run the offers of a bid are the last ones taken from each seller, at their prices: none is
      lost, kept beside its replacement, or taken late. */
  lemma {:induction false} LastOfferCounts(steps: seq<Step>, id: nat, seller: nat)
    ensures var bids := DoAll(steps).bids;
      && (LastOffer(steps, id, seller).Some? <==> id in bids && seller in bids[id].offers)
      && (id in bids && seller in bids[id].offers ==>
            LastOffer(steps, id, seller) == Some(bids[id].offers[seller].price))
  {
    if steps != [] {
      var before, s := steps[..|steps| - 1], steps[|steps| - 1];
      var m := DoAll(before);
      LastOfferCounts(before, id, seller);
      match s
      case MakeOffer(i, other, price, now) =>
        if (i, other) == (id, seller) {
          if OfferAccepted(m, i, other, price, now) { OfferStored(m, i, other, price, now); }
        } else if id in m.bids {
          OtherOffersStay(m, i, other, price, now, id, seller);
        }
      case DeliverAward(i, order) => if id in m.bids { AwardKeepsPrices(m, i, order, id, seller); }
      case _ =>
    }
  }

  /** An accepted offer is awarded on the spot if and only if the bid asks for that, the price is within the
      target, and the buyer's balance covers the goods. */
  lemma OnTheSpotExact(m: Market, id: nat, seller: nat, price: real, now: int)
    requires Sound(m) && OfferAccepted(m, id, seller, price, now)
    ensures var b, n := m.bids[id], AfterOffer(m, id, seller, price, now);
      && id in n.bids && seller in n.bids[id].offers
      && (IsHeld(n.bids, id) <==>
            b.autoAward && b.target.Some? && price <= b.target.value &&
            AccountOf(m, b.buyer).balance >= Due(n.bids[id], seller))
      && (IsHeld(n.bids, id) ==> n.bids[id].winner == Some(seller))
      && (!IsHeld(n.bids, id) ==> n.bids[id].status == Open && n.ledger == m.ledger && n.accounts == m.accounts)
  {
    var b := m.bids[id];
    assert BidOk(b);
    var b2 := b.(winner := Some(seller), winningPrice := price, offers := b.offers[seller := OfferRow(price, true)]);
    HoldOutcome(m, id, b2);
    HoldIsDue(b2);
  }

  // ---------- what an expiry means ----------

  /** After the cycle that finds a bid expired: without offers it is cancelled; with offers it is awarding,
      or, if the task could not be queued, open for another 300 seconds and no longer. */
  lemma ExpiryExact(m: Market, now: int, unsent: set<nat>, id: nat, seller: nat, price: real, at: int)
    requires id in m.bids && m.bids[id].status == Open && m.bids[id].expiresAt <= now
    requires seller != m.bids[id].buyer && price > 0.0
    ensures var b, n := m.bids[id], AfterCycle(m, now, unsent);
      && id in n.bids
      && (n.bids[id].status == Cancelled <==> b.offers == map[])
      && (n.bids[id].status == Awarding <==> b.offers != map[] && id !in unsent)
      && (OfferAccepted(n, id, seller, price, at) <==> b.offers != map[] && id in unsent && at < now + 300)
      && n.bids[id].offers == b.offers
  {
    assert m.bids[id].offers != map[] ==> m.bids[id].offers.Keys != {};
  }

  /** A bid that has not run out is left alone. */
  lemma RunningBidsStay(m: Market, now: int, unsent: set<nat>, id: nat)
    requires id in m.bids && !(m.bids[id].status == Open && m.bids[id].expiresAt <= now)
    ensures id in AfterCycle(m, now, unsent).bids && AfterCycle(m, now, unsent).bids[id] == m.bids[id]
  {
  }
}
