/** The award of a reverse auction: the scoring loop of process_ai_bidding_award in
    clients/tasks.py.  Prices are exact rationals in pounds. */
module AwardScoring {

  datatype Offer = Offer(seller: nat, price: real, trust: int)

  datatype Scored = Scored(score: real, offer: Offer)

  /** The cheapest price, but at least one pound. */
  function Base(minPrice: real): (m: real)
    ensures m >= 1.0 && m >= minPrice
  {
    if minPrice < 1.0 then 1.0 else minPrice
  }

  function Score(o: Offer, minPrice: real): real {
    o.trust as real * 0.5 - (o.price / Base(minPrice)) * 50.0 + 100.0
  }

  predicate ByPrice(offers: seq<Offer>) {
    forall i, j :: 0 <= i < j < |offers| ==> offers[i].price <= offers[j].price
  }

  // ---------- the stable descending sort ----------

  function Insert(x: Scored, s: seq<Scored>): seq<Scored> {
    if s == [] || x.score >= s[0].score then [x] + s else [s[0]] + Insert(x, s[1..])
  }

  function SortDescending(s: seq<Scored>): seq<Scored> {
    if s == [] then [] else Insert(s[0], SortDescending(s[1..]))
  }

  predicate Descending(s: seq<Scored>) {
    |s| < 2 || (s[0].score >= s[1].score && Descending(s[1..]))
  }

  lemma {:induction false} InsertSorts(x: Scored, s: seq<Scored>)
    requires Descending(s)
    ensures Descending(Insert(x, s))
    ensures Insert(x, s)[0] == if s == [] || x.score >= s[0].score then x else s[0]
  {
    if s == [] || x.score >= s[0].score {
      assert ([x] + s)[1..] == s;
    } else {
      InsertSorts(x, s[1..]);
      assert ([s[0]] + Insert(x, s[1..]))[1..] == Insert(x, s[1..]);
    }
  }

  lemma {:induction false} InsertKeeps(x: Scored, s: seq<Scored>)
    ensures multiset(Insert(x, s)) == multiset{x} + multiset(s)
  {
    if s != [] && x.score < s[0].score {
      InsertKeeps(x, s[1..]);
      assert s == [s[0]] + s[1..];
    }
  }

  /** The sort puts the offers in order and keeps all of them. */
  lemma {:induction false} SortSorts(s: seq<Scored>)
    ensures Descending(SortDescending(s)) && multiset(SortDescending(s)) == multiset(s)
  {
    if s != [] {
      SortSorts(s[1..]);
      InsertSorts(s[0], SortDescending(s[1..]));
      InsertKeeps(s[0], SortDescending(s[1..]));
      assert s == [s[0]] + s[1..];
    }
  }

  /** Being stable, it puts the first of the best in front. */
  lemma {:induction false} SortPicks(s: seq<Scored>) returns (i: int)
    requires s != []
    ensures FirstBest(s, i) && SortDescending(s) != [] && SortDescending(s)[0] == s[i]
  {
    var rest := s[1..];
    if rest == [] {
      i := 0;
    } else {
      var j := SortPicks(rest);
      SortSorts(rest);
      InsertSorts(s[0], SortDescending(rest));
      i := if s[0].score >= rest[j].score then 0 else j + 1;
      FirstBestOf(s, j);
    }
  }

  lemma FirstBestOf(s: seq<Scored>, j: int)
    requires |s| > 1 && FirstBest(s[1..], j)
    ensures FirstBest(s, if s[0].score >= s[1..][j].score then 0 else j + 1)
  {
    forall k | 0 < k < |s| ensures s[k].score <= s[j + 1].score && (k <= j ==> s[k].score < s[j + 1].score) {
      assert s[k] == s[1..][k - 1] && s[j + 1] == s[1..][j];
    }
  }

  predicate FirstBest(s: seq<Scored>, i: int) {
    && 0 <= i < |s|
    && (forall j :: 0 <= j < |s| ==> s[j].score <= s[i].score)
    && (forall j :: 0 <= j < i ==> s[j].score < s[i].score)
  }

  // ---------- the award ----------

  /** Offer `i` has the best score, and every offer before it has a worse one. */
  predicate Wins(offers: seq<Offer>, i: int) {
    && 0 <= i < |offers|
    && (var m := offers[0].price;
        && (forall j :: 0 <= j < |offers| ==> Score(offers[j], m) <= Score(offers[i], m))
        && (forall j :: 0 <= j < i ==> Score(offers[j], m) < Score(offers[i], m)))
  }

  function ScoreAll(offers: seq<Offer>): (r: seq<Scored>)
    requires offers != []
    ensures |r| == |offers|
  {
    seq(|offers|, k requires 0 <= k < |offers| => Scored(Score(offers[k], offers[0].price), offers[k]))
  }

  /** The front of the sorted list. */
  function Best(offers: seq<Offer>): Offer
    requires offers != []
  {
    SortSorts(ScoreAll(offers));
    assert |multiset(SortDescending(ScoreAll(offers)))| == |ScoreAll(offers)|;
    SortDescending(ScoreAll(offers))[0].offer
  }

  lemma BestWins(offers: seq<Offer>) returns (i: int)
    requires offers != []
    ensures Wins(offers, i) && Best(offers) == offers[i]
  {
    i := SortPicks(ScoreAll(offers));
    assert forall j :: 0 <= j < |offers| ==> ScoreAll(offers)[j].score == Score(offers[j], offers[0].price);
  }

  /** Scores the offers, which the database returns cheapest first, and takes the best. */
  method PickWinner(offers: seq<Offer>) returns (winner: Offer)
    requires offers != []
    ensures winner == Best(offers)
    ensures exists i :: Wins(offers, i) && winner == offers[i]
  {
    var minPrice := offers[0].price;
    var scored: seq<Scored> := [];
    for k := 0 to |offers|
      invariant scored == ScoreAll(offers)[..k]
    {
      scored := scored + [Scored(Score(offers[k], minPrice), offers[k])];
    }
    assert scored == ScoreAll(offers);
    ghost var i := BestWins(offers);
    SortSorts(scored);
    assert |multiset(SortDescending(scored))| == |scored|;
    winner := SortDescending(scored)[0].offer;
  }

  /** There is exactly one winner. */
  lemma WinnerUnique(offers: seq<Offer>, i: int, j: int)
    requires Wins(offers, i) && Wins(offers, j)
    ensures i == j
  {
  }

  // ---------- what winning means ----------

  /** Scores compared without division. */
  lemma ScoreGap(a: Offer, b: Offer, minPrice: real)
    ensures Score(a, minPrice) >= Score(b, minPrice)
      <==> (a.trust - b.trust) as real * Base(minPrice) >= 100.0 * (a.price - b.price)
  {
    var m := Base(minPrice);
    var p, q := a.price / m, b.price / m;
    assert p * m == a.price && q * m == b.price;
    var t := (a.trust - b.trust) as real;
    assert t == a.trust as real - b.trust as real;
    var gap := 0.5 * t - 50.0 * (p - q);
    assert Score(a, minPrice) - Score(b, minPrice) == gap;
    Scale(gap, m);
    assert gap * m == 0.5 * (t * m) - 50.0 * (p * m - q * m);
  }

  lemma Scale(x: real, m: real)
    requires m > 0.0
    ensures x * m >= 0.0 <==> x >= 0.0
  {
  }

  /** `a` is no dearer and no less trusted than `b`, and better in one respect. */
  predicate Dominates(a: Offer, b: Offer) {
    a.price <= b.price && a.trust >= b.trust && (a.price < b.price || a.trust > b.trust)
  }

  lemma DominatorScoresMore(a: Offer, b: Offer, minPrice: real)
    requires Dominates(a, b)
    ensures Score(a, minPrice) > Score(b, minPrice)
  {
    ScoreGap(b, a, minPrice);
    var t := (a.trust - b.trust) as real;
    Scale(t, Base(minPrice));
    assert (b.trust - a.trust) as real == -t;
    assert (-t) * Base(minPrice) == -(t * Base(minPrice));
    if a.trust > b.trust {
      Scale(-t, Base(minPrice));
    }
  }

  /** No offer is at once as cheap and as trusted as the winner and better in one respect. */
  lemma WinnerNotDominated(offers: seq<Offer>, i: int, j: int)
    requires Wins(offers, i) && 0 <= j < |offers|
    ensures !Dominates(offers[j], offers[i])
  {
    if Dominates(offers[j], offers[i]) {
      DominatorScoresMore(offers[j], offers[i], offers[0].price);
    }
  }

  /** Among offers with the same score the winner is the cheapest. */
  lemma TiesGoToTheCheapest(offers: seq<Offer>, i: int, j: int)
    requires ByPrice(offers) && Wins(offers, i) && 0 <= j < |offers|
    requires Score(offers[j], offers[0].price) == Score(offers[i], offers[0].price)
    ensures offers[i].price <= offers[j].price
  {
  }

  /** What trust can cost: the winner's price exceeds the cheapest by at most one percent of the
      base for each point of trust it has more than the cheapest offer. */
  lemma PriceOfTrust(offers: seq<Offer>, i: int)
    requires Wins(offers, i)
    ensures var c := offers[0];
      100.0 * (offers[i].price - c.price) <= (offers[i].trust - c.trust) as real * Base(c.price)
  {
    ScoreGap(offers[i], offers[0], offers[0].price);
  }

  /** With trust scores in 1..100 the winning price is at most cheapest + 0.99 max(cheapest, 1). */
  lemma WinningPriceBound(offers: seq<Offer>, i: int)
    requires Wins(offers, i)
    requires forall j :: 0 <= j < |offers| ==> 1 <= offers[j].trust <= 100
    ensures offers[i].price <= offers[0].price + 0.99 * Base(offers[0].price)
  {
    PriceOfTrust(offers, i);
    var m, t := Base(offers[0].price), (offers[i].trust - offers[0].trust) as real;
    assert offers[i].trust - offers[0].trust <= 99;
    Scale(99.0 - t, m);
    assert (99.0 - t) * m == 99.0 * m - t * m;
  }
}
