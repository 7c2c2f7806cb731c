/** The sellers' trust scores: the nightly job (update_market_trust_scores in clients/tasks.py) and what
    deals and refunds do to them in between (clients/models/marketplace_b2b.py). */
module TrustScores {
  import opened AwardScoring

  const BAN_BELOW := 40

  /** `disputes` is the dispute rate in hundredths of a percent. */
  datatype Seller = Seller(
    enabled: bool, selling: bool, disputes: int, deals: int, ageDays: int, trust: int, flagged: bool)

  datatype Pace = Busy | Steady | Idle

  /** The age counted, in thirtieths of a month: at least one month. */
  function Age(s: Seller): int { if s.ageDays < 30 then 30 else s.ageDays }

  /** More than 5 deals a month; fewer than one in two months after more than three months. */
  function PaceOf(s: Seller): Pace {
    if 30 * s.deals > 5 * Age(s) then Busy
    else if 60 * s.deals < Age(s) && Age(s) > 90 then Idle
    else Steady
  }

  /** Python's int() drops the fraction; a rate of zero or less costs nothing. */
  function Penalty(s: Seller): nat { if s.disputes > 0 then 3 * s.disputes / 100 else 0 }

  function Clamp(x: int): int { if x > 100 then 100 else if x < 1 then 1 else x }

  function NewTrust(s: Seller): int {
    Clamp(100 - Penalty(s) + match PaceOf(s) case Busy => 10 case Idle => -5 case Steady => 0)
  }

  function Rescored(s: Seller): Seller {
    if s.enabled && s.selling then s.(trust := NewTrust(s), flagged := s.flagged || NewTrust(s) < BAN_BELOW) else s
  }

  function Released(s: Seller): Seller { s.(deals := s.deals + 1, trust := s.trust + 2) }

  function Refunded(s: Seller): Seller { s.(disputes := s.disputes + 150, trust := s.trust - 10) }

  class Board {
    var sellers: seq<Seller>

    constructor (sellers: seq<Seller>)
      ensures this.sellers == sellers
    {
      this.sellers := sellers;
    }

    method UpdateScores() returns (banned: nat)
      modifies this
      ensures |sellers| == |old(sellers)|
      ensures forall i :: 0 <= i < |sellers| ==> sellers[i] == Rescored(old(sellers)[i])
      ensures banned == NewlyFlagged(old(sellers))
    {
      var updates := sellers;
      banned := 0;
      for i := 0 to |sellers|
        invariant |updates| == |sellers| && sellers == old(sellers)
        invariant forall j :: 0 <= j < i ==> updates[j] == Rescored(sellers[j])
        invariant forall j :: i <= j < |sellers| ==> updates[j] == sellers[j]
        invariant banned == NewlyFlagged(sellers[..i])
      {
        var s := sellers[i];
        assert sellers[..i + 1][..i] == sellers[..i];
        if s.enabled && s.selling {
          s := s.(trust := NewTrust(s));
          if s.trust < BAN_BELOW && !s.flagged {
            s := s.(flagged := true);
            banned := banned + 1;
          }
          updates := updates[i := s];
        }
      }
      assert sellers[..|sellers|] == sellers;
      sellers := updates;
    }
  }

  function NewlyFlagged(sellers: seq<Seller>): nat {
    if sellers == [] then 0
    else
      var s := sellers[|sellers| - 1];
      NewlyFlagged(sellers[..|sellers| - 1]) + if Rescored(s).flagged && !s.flagged then 1 else 0
  }

  predicate NewFlag(s: Seller) { !s.flagged && Rescored(s).flagged }

  function NewFlags(sellers: seq<Seller>): (ids: set<int>)
    ensures forall i :: i in ids <==> 0 <= i < |sellers| && NewFlag(sellers[i])
  {
    set i | 0 <= i < |sellers| && NewFlag(sellers[i])
  }

  /** The job counts the sellers that were not flagged before and are now. */
  lemma {:induction false} NewlyFlaggedExact(sellers: seq<Seller>)
    ensures NewlyFlagged(sellers) == |NewFlags(sellers)|
  {
    if sellers != [] {
      var last := |sellers| - 1;
      var before := sellers[..last];
      NewlyFlaggedExact(before);
      assert forall i :: 0 <= i < last ==> before[i] == sellers[i];
      if NewFlag(sellers[last]) {
        assert NewFlags(sellers) == NewFlags(before) + {last};
      } else {
        assert NewFlags(sellers) == NewFlags(before);
      }
    }
  }

  // ---------- who is banned ----------

  /** The dispute rate from which the job bans, in hundredths of a percent. */
  function BanRate(p: Pace): int { match p case Busy => 2367 case Steady => 2034 case Idle => 1867 }

  /** The job flags a seller if and only if the dispute rate has reached 23.67, 20.34 or 18.67 percent,
      for a busy, an ordinary and an idle seller. */
  lemma BanExact(s: Seller)
    requires s.enabled && s.selling && !s.flagged
    ensures Rescored(s).flagged <==> s.disputes >= BanRate(PaceOf(s))
  {
  }

  /** The pace is deals a month, for an account of at least one month: busy above five, idle below one half
      after three months. */
  lemma PaceExact(s: Seller)
    ensures var months := (if s.ageDays < 30 then 30 else s.ageDays) as real / 30.0;
      && (PaceOf(s) == Busy <==> s.deals as real > 5.0 * months)
      && (PaceOf(s) == Idle <==> s.deals as real < 0.5 * months && months > 3.0)
  {
  }

  function Refunds(s: Seller, n: nat): Seller {
    if n == 0 then s else Refunded(Refunds(s, n - 1))
  }

  lemma {:induction false} RefundsAdd(s: Seller, n: nat)
    ensures Refunds(s, n) == s.(disputes := s.disputes + 150 * n, trust := s.trust - 10 * n)
  {
    if n > 0 { RefundsAdd(s, n - 1); }
  }

  /** A seller without disputes survives 15 refunded deals if busy, 13 if ordinary, 12 if idle; one more
      and the next job bans. */
  lemma RefundsUntilBan(s: Seller, n: nat)
    requires s.enabled && s.selling && !s.flagged && s.disputes == 0
    ensures Rescored(Refunds(s, n)).flagged <==> n > match PaceOf(s) case Busy => 15 case Steady => 13 case Idle => 12
  {
    RefundsAdd(s, n);
    BanExact(Refunds(s, n));
  }

  /** More disputes never raise a score, more deals never lower it. */
  lemma ScoreMonotone(s: Seller, t: Seller)
    requires s.ageDays == t.ageDays && s.disputes >= t.disputes && s.deals <= t.deals
    ensures NewTrust(s) <= NewTrust(t)
  {
  }

  // ---------- between two jobs ----------

  datatype Event = Job | Release | Refund

  function Do(s: Seller, e: Event): Seller {
    match e
    case Job => Rescored(s)
    case Release => Released(s)
    case Refund => Refunded(s)
  }

  function Run(s: Seller, es: seq<Event>): Seller {
    if es == [] then s else Do(Run(s, es[..|es| - 1]), es[|es| - 1])
  }

  function Count(es: seq<Event>, e: Event): nat {
    if es == [] then 0 else Count(es[..|es| - 1], e) + if es[|es| - 1] == e then 1 else 0
  }

  /** Scores leave 1..100 between jobs, by at most 2 for each deal and 10 for each refund; a flag stays. */
  lemma {:induction false} TrustDrift(s: Seller, es: seq<Event>)
    requires 1 <= s.trust <= 100
    ensures 1 - 10 * Count(es, Refund) <= Run(s, es).trust <= 100 + 2 * Count(es, Release)
    ensures s.flagged ==> Run(s, es).flagged
  {
    if es != [] { TrustDrift(s, es[..|es| - 1]); }
  }

  /** Between two jobs a score moves by exactly 2 for each deal and -10 for each refund, and each refund
      adds 1.5 percent to the dispute rate. */
  lemma {:induction false} BetweenJobs(s: Seller, es: seq<Event>)
    requires Job !in es
    ensures var deals, refunds := Count(es, Release), Count(es, Refund);
      Run(s, es) == s.(trust := s.trust + 2 * deals - 10 * refunds, deals := s.deals + deals,
                       disputes := s.disputes + 150 * refunds)
  {
    if es != [] {
      assert es[|es| - 1] in es && Job !in es[..|es| - 1];
      BetweenJobs(s, es[..|es| - 1]);
    }
  }

  function WithoutJobs(es: seq<Event>): seq<Event> {
    if es == [] then []
    else WithoutJobs(es[..|es| - 1]) + if es[|es| - 1] == Job then [] else [es[|es| - 1]]
  }

  lemma RunSnoc(s: Seller, es: seq<Event>, e: Event)
    ensures Run(s, es + [e]) == Do(Run(s, es), e)
  {
    assert (es + [e])[..|es|] == es;
  }

  /** The seller as a run without jobs would have left it, but for the score and the flag. */
  predicate SameButScore(s: Seller, t: Seller) { s == t.(trust := s.trust, flagged := s.flagged) }

  lemma StepIgnores(s: Seller, t: Seller, e: Event)
    requires SameButScore(s, t)
    ensures SameButScore(Do(s, e), if e == Job then t else Do(t, e))
    ensures s == t && (!s.enabled || !s.selling) ==> Do(s, e) == if e == Job then t else Do(t, e)
  {
  }

  lemma {:induction false} RunKeepsTrader(s: Seller, es: seq<Event>)
    ensures Run(s, es).enabled == s.enabled && Run(s, es).selling == s.selling
  {
    if es != [] { RunKeepsTrader(s, es[..|es| - 1]); }
  }

  /** Over every run the jobs change a seller's score and flag only, and nothing at all of one that is
      disabled or not selling. */
  lemma {:induction false} JobsIgnore(s: Seller, es: seq<Event>)
    ensures SameButScore(Run(s, es), Run(s, WithoutJobs(es)))
    ensures !s.enabled || !s.selling ==> Run(s, es) == Run(s, WithoutJobs(es))
  {
    if es != [] {
      var before, e := es[..|es| - 1], es[|es| - 1];
      JobsIgnore(s, before);
      RunKeepsTrader(s, before);
      StepIgnores(Run(s, before), Run(s, WithoutJobs(before)), e);
      RunSnoc(s, WithoutJobs(before), e);
      assert WithoutJobs(before) + [] == WithoutJobs(before);
    }
  }

  lemma ScaleMonotone(x: real, y: real, m: real)
    requires x <= y && m > 0.0
    ensures x * m <= y * m
  {
    Scale(y - x, m);
    assert (y - x) * m == y * m - x * m;
  }

  /** The offer exceeds the first by at most `percent` percent of the base. */
  predicate PriceWithin(offers: seq<Offer>, i: int, percent: int)
    requires 0 <= i < |offers|
  {
    100.0 * (offers[i].price - offers[0].price) <= percent as real * Base(offers[0].price)
  }

  lemma GapBoundsPrice(offers: seq<Offer>, i: int, percent: int)
    requires Wins(offers, i) && offers[i].trust - offers[0].trust <= percent
    ensures PriceWithin(offers, i, percent)
  {
    PriceOfTrust(offers, i);
    ScaleMonotone((offers[i].trust - offers[0].trust) as real, percent as real, Base(offers[0].price));
  }

  lemma DriftGap(s: Seller, t: Seller, es: seq<Event>, fs: seq<Event>, deals: nat, refunds: nat)
    requires 1 <= s.trust <= 100 && 1 <= t.trust <= 100
    requires Count(es, Release) <= deals && Count(fs, Refund) <= refunds
    ensures Run(s, es).trust - Run(t, fs).trust <= 99 + 2 * deals + 10 * refunds
  {
    TrustDrift(s, es);
    TrustDrift(t, fs);
  }

  /** The price of an award in terms of the sellers' histories since scores were last in range: with at
      most `deals` releases and `refunds` refunds for each seller, the winner's price exceeds the
      cheapest by at most (99 + 2 deals + 10 refunds) percent of the base. */
  lemma AwardPriceAfterDrift(offers: seq<Offer>, i: int, start: seq<Seller>,
                             runs: seq<seq<Event>>, deals: nat, refunds: nat)
    requires Wins(offers, i) && |start| == |runs| == |offers|
    requires forall k :: 0 <= k < |offers| ==>
               && 1 <= start[k].trust <= 100 && offers[k].trust == Run(start[k], runs[k]).trust
               && Count(runs[k], Release) <= deals && Count(runs[k], Refund) <= refunds
    ensures PriceWithin(offers, i, 99 + 2 * deals + 10 * refunds)
  {
    DriftGap(start[i], start[0], runs[i], runs[0], deals, refunds);
    GapBoundsPrice(offers, i, 99 + 2 * deals + 10 * refunds);
  }
}
