/** vat_breakdown of erp_core/einvoice.py: a tax-inclusive total is split into net and tax.

    Amounts are exact rationals in piastres (hundredths), so that quantizing to 0.01 is rounding
    to a whole number. */
module VatBreakdown {

  /** ROUND_HALF_UP: halves go away from zero. */
  function RoundHalfUp(x: real): int {
    if x >= 0.0 then (x + 0.5).Floor else -(-x + 0.5).Floor
  }

  datatype Breakdown = Breakdown(net: real, vat: real)

  /** One plus the rate: what the net is multiplied by. */
  function Factor(rate: real): real { 1.0 + rate / 100.0 }

  /** Net is the rounded quotient, tax the rounded difference. */
  function Parts(total: real, quotient: real): Breakdown {
    var net := RoundHalfUp(quotient) as real;
    Breakdown(net, RoundHalfUp(total - net) as real)
  }

  function Split(total: real, rate: real): Breakdown {
    if rate <= 0.0 then Breakdown(total, 0.0) else Parts(total, total / Factor(rate))
  }

  predicate Whole(x: real) { x.Floor as real == x }

  // ---------- rounding ----------

  /** `n` is the whole number nearest to `x`, halves going away from zero. */
  predicate Nearest(x: real, n: int) {
    if x >= 0.0 then n as real - 0.5 <= x < n as real + 0.5 else n as real - 0.5 < x <= n as real + 0.5
  }

  lemma RoundIsNearest(x: real)
    ensures Nearest(x, RoundHalfUp(x))
  {
    if x >= 0.0 {
      assert RoundHalfUp(x) as real <= x + 0.5 < RoundHalfUp(x) as real + 1.0;
    } else {
      var m := (-x + 0.5).Floor;
      assert m as real <= -x + 0.5 < m as real + 1.0;
      assert (-m) as real == -(m as real);
    }
  }

  lemma NearestUnique(x: real, m: int, n: int)
    requires Nearest(x, m) && Nearest(x, n)
    ensures m == n
  {
    Difference(m, n);
  }

  /** The only way to use the definition of rounding: any nearest whole number is the rounding. */
  lemma RoundsTo(x: real, n: int)
    requires Nearest(x, n)
    ensures RoundHalfUp(x) == n
  {
    RoundIsNearest(x);
    NearestUnique(x, RoundHalfUp(x), n);
  }

  lemma Difference(m: int, n: int)
    ensures (m - n) as real == m as real - n as real
  {
  }

  lemma IntegersAreWhole(n: int)
    ensures Whole(n as real)
  {
  }

  lemma WholeDifference(x: real, n: int)
    ensures Whole(x - n as real) <==> Whole(x)
  {
    if Whole(x) {
      Difference(x.Floor, n);
      IntegersAreWhole(x.Floor - n);
    } else if Whole(x - n as real) {
      var m := (x - n as real).Floor;
      Difference(m, -n);
      IntegersAreWhole(m + n);
    }
  }

  lemma PartsSum(total: real, q: real)
    ensures Parts(total, q).net + Parts(total, q).vat == total <==> Whole(total)
  {
    var net := RoundHalfUp(q);
    var rest := total - net as real;
    WholeDifference(total, net);
    if Whole(rest) { RoundsTo(rest, rest.Floor); }
  }

  lemma PartsNegated(total: real, q: real)
    ensures Parts(-total, -q) == Breakdown(-Parts(total, q).net, -Parts(total, q).vat)
  {
    RoundNegated(q);
    var rest := total - RoundHalfUp(q) as real;
    RoundNegated(rest);
    assert -total - RoundHalfUp(-q) as real == -rest;
  }

  lemma RoundNegated(x: real)
    ensures RoundHalfUp(-x) == -RoundHalfUp(x)
  {
    var n := RoundHalfUp(x);
    RoundIsNearest(x);
    Difference(0, n);
    RoundsTo(-x, -n);
  }

  /** Whole parts of whole totals, compared. */
  lemma Compare(t1: int, q1: real, n1: int, t2: int, q2: real, n2: int)
    requires Nearest(q1, n1) && Nearest(q2, n2)
    requires q1 < q2 && q2 - q1 < (t2 - t1) as real
    ensures n1 <= n2 && t1 - n1 <= t2 - n2
  {
    Difference(n2, n1);
    assert (n2 - n1) as real < (t2 - t1) as real + 1.0;
  }

  lemma WholeParts(t: int, q: real, n: int)
    requires Nearest(q, n)
    ensures Parts(t as real, q) == Breakdown(n as real, (t - n) as real)
  {
    RoundsTo(q, n);
    Difference(t, n);
    RoundsTo((t - n) as real, t - n);
  }

  // ---------- dividing by a factor above 1 ----------

  lemma Product(x: real, y: real)
    requires x > 0.0 && y > 0.0
    ensures x * y > 0.0
  {
  }

  lemma Quotient(x: real, d: real)
    requires d > 1.0
    ensures (x / d) * d == x && (-x) / d == -(x / d)
  {
  }

  lemma Distribute(e: real, f: real, d: real)
    ensures (e - f) * d == e * d - f * d
  {
  }

  /** If `e` grows to `w` by a factor above 1, it lies strictly between 0 and `w`. */
  lemma Shrinks(e: real, d: real, w: real)
    requires e * d == w && d > 1.0 && w > 0.0
    ensures 0.0 < e < w
  {
    if e < 0.0 { Product(-e, d); }
    if e > 0.0 {
      Product(e, d - 1.0);
      Distribute(d, 1.0, e);
    }
  }

  lemma QuotientsShrink(x: real, y: real, d: real)
    requires x < y && d > 1.0
    ensures x / d < y / d && y / d - x / d < y - x
  {
    var a, b := x / d, y / d;
    Quotient(x, d);
    Quotient(y, d);
    Distribute(b, a, d);
    Shrinks(b - a, d, y - x);
  }

  lemma HalfShrinks(e: real, d: real)
    requires d > 1.0 && -0.5 <= e * d <= 0.5
    ensures -0.5 < e < 0.5
  {
    if e > 0.0 {
      Product(e, d);
      Shrinks(e, d, e * d);
    } else if e < 0.0 {
      Product(-e, d);
      Shrinks(-e, d, -e * d);
    }
  }

  // ---------- the theorems ----------

  /** The parts add up exactly when the total is a whole number of piastres, or there is no tax. */
  lemma PartsAddUp(total: real, rate: real)
    ensures Split(total, rate).net + Split(total, rate).vat == total <==> rate <= 0.0 || Whole(total)
  {
    if rate > 0.0 { PartsSum(total, total / Factor(rate)); }
  }

  /** Without a positive rate the whole total is net. */
  lemma NoTax(total: real, rate: real)
    requires rate <= 0.0
    ensures Split(total, rate).net == total && Split(total, rate).vat == 0.0
  {
  }

  /** Otherwise the net is the whole amount nearest to total * 100 / (100 + rate), and the tax the whole
      amount nearest to the rest. */
  lemma NetIsNearest(total: real, rate: real) returns (n: int, v: int)
    requires rate > 0.0
    ensures Split(total, rate) == Breakdown(n as real, v as real)
    ensures Nearest(total * 100.0 / (100.0 + rate), n) && Nearest(total - n as real, v)
  {
    var q := total / Factor(rate);
    n := RoundHalfUp(q);
    v := RoundHalfUp(total - n as real);
    RoundIsNearest(q);
    RoundIsNearest(total - n as real);
    SameQuotient(total, rate, q);
  }

  lemma SameQuotient(total: real, rate: real, q: real)
    requires rate > 0.0 && q == total / Factor(rate)
    ensures q == total * 100.0 / (100.0 + rate)
  {
    assert q * Factor(rate) == total;
    assert 100.0 * Factor(rate) == 100.0 + rate;
    assert q * (100.0 * Factor(rate)) == total * 100.0;
  }

  /** Half a piastre at any positive rate: the parts add up to a whole one. */
  lemma HalfPiastre(rate: real)
    requires rate > 0.0
    ensures Split(0.5, rate) == Breakdown(0.0, 1.0)
  {
    Quotient(0.5, Factor(rate));
    Shrinks(0.5 / Factor(rate), Factor(rate), 0.5);
    RoundsTo(0.5 / Factor(rate), 0);
    RoundsTo(0.5, 1);
  }

  /** The split of a credit note is the negated split of the invoice. */
  lemma NegatedSplit(total: real, rate: real)
    ensures Split(-total, rate) == Breakdown(-Split(total, rate).net, -Split(total, rate).vat)
  {
    if rate > 0.0 {
      Quotient(total, Factor(rate));
      PartsNegated(total, total / Factor(rate));
    }
  }

  /** For whole totals of either sign a larger total never has a smaller net or a smaller tax. */
  lemma MonotoneSplit(t1: int, t2: int, rate: real)
    requires t1 <= t2
    ensures Split(t1 as real, rate).net <= Split(t2 as real, rate).net
    ensures Split(t1 as real, rate).vat <= Split(t2 as real, rate).vat
  {
    if t1 < t2 && rate > 0.0 {
      var d, x1, x2 := Factor(rate), t1 as real, t2 as real;
      QuotientsShrink(x1, x2, d);
      Difference(t2, t1);
      var q1, q2 := x1 / d, x2 / d;
      var n1, n2 := RoundHalfUp(q1), RoundHalfUp(q2);
      RoundIsNearest(q1);
      RoundIsNearest(q2);
      Compare(t1, q1, n1, t2, q2, n2);
      WholeParts(t1, q1, n1);
      WholeParts(t2, q2, n2);
    }
  }

  /** A non-negative whole total has two non-negative parts. */
  lemma PartsNonNegative(total: nat, rate: real)
    ensures Split(total as real, rate).net >= 0.0 && Split(total as real, rate).vat >= 0.0
  {
    MonotoneSplit(0, total, rate);
    if rate > 0.0 { Quotient(0.0, Factor(rate)); }
  }

  /** Dividing a rounded multiple by the factor lands less than one half from the start. */
  lemma GrossQuotient(net: int, gross: int, q: real, d: real)
    requires d > 1.0 && Nearest(net as real * d, gross) && q * d == gross as real
    ensures Nearest(q, net)
  {
    var n := net as real;
    Distribute(q, n, d);
    HalfShrinks(q - n, d);
  }

  function Gross(net: int, rate: real): int {
    RoundHalfUp(net as real * Factor(rate))
  }

  lemma GrossIsNearest(net: int, rate: real)
    ensures Nearest(net as real * Factor(rate), Gross(net, rate))
  {
    RoundIsNearest(net as real * Factor(rate));
  }

  lemma SplitOfNearest(net: int, gross: int, rate: real)
    requires rate > 0.0 && Nearest(net as real * Factor(rate), gross)
    ensures Split(gross as real, rate) == Breakdown(net as real, (gross - net) as real)
  {
    PartsOfNearest(net, gross, Factor(rate));
  }

  lemma PartsOfNearest(net: int, gross: int, d: real)
    requires d > 1.0 && Nearest(net as real * d, gross)
    ensures Parts(gross as real, gross as real / d) == Breakdown(net as real, (gross - net) as real)
  {
    Quotient(gross as real, d);
    GrossQuotient(net, gross, gross as real / d, d);
    WholeParts(gross, gross as real / d, net);
  }

  /** Grossing a whole net amount up at any positive rate, rounded half up, and splitting the
      result gives that net back. */
  lemma GrossUpRoundTrip(net: int, rate: real)
    requires rate > 0.0
    ensures Split(Gross(net, rate) as real, rate) == Breakdown(net as real, (Gross(net, rate) - net) as real)
  {
    GrossIsNearest(net, rate);
    SplitOfNearest(net, Gross(net, rate), rate);
  }
}
