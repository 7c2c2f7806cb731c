/** Decimal numerals as Python writes them. */
module Decimals {
  import opened Json

  const ZERO: Char := 0x30
  const MINUS: Char := 0x2D
  const POINT: Char := 0x2E

  /** The digits of `n`, without leading zeros; nothing for 0. */
  function Digits(n: nat): Text {
    if n == 0 then [] else Digits(n / 10) + [ZERO + n % 10]
  }

  predicate AllDigits(t: Text) { forall i :: 0 <= i < |t| ==> IsDigit(t[i]) }

  /** The number a digit string stands for (Python's `int`). */
  function NumberOf(t: Text): nat
    requires AllDigits(t)
  {
    if t == [] then 0 else NumberOf(t[..|t| - 1]) * 10 + (t[|t| - 1] - ZERO)
  }

  function Zeros(k: nat): Text { seq(k, _ => ZERO) }

  /** f"{n:0{width}d}": zeros in front up to the width, never fewer digits than the number has. */
  function Padded(n: nat, width: nat): Text {
    (if |Digits(n)| < width then Zeros(width - |Digits(n)|) else []) + Digits(n)
  }

  lemma {:induction false} DigitsValue(n: nat)
    ensures AllDigits(Digits(n)) && NumberOf(Digits(n)) == n
  {
    if n != 0 {
      DigitsValue(n / 10);
      assert Digits(n)[..|Digits(n)| - 1] == Digits(n / 10);
    }
  }

  lemma {:induction false} ZerosValue(k: nat, t: Text)
    requires AllDigits(t)
    ensures AllDigits(Zeros(k) + t) && NumberOf(Zeros(k) + t) == NumberOf(t)
    decreases k + |t|
  {
    var s := Zeros(k) + t;
    if t != [] {
      ZerosValue(k, t[..|t| - 1]);
      assert s[..|s| - 1] == Zeros(k) + t[..|t| - 1];
    } else if k > 0 {
      ZerosValue(k - 1, []);
      assert s[..|s| - 1] == Zeros(k - 1) + [];
    }
  }

  lemma PaddedValue(n: nat, width: nat)
    ensures AllDigits(Padded(n, width)) && NumberOf(Padded(n, width)) == n
    ensures |Padded(n, width)| >= width
  {
    DigitsValue(n);
    ZerosValue(if |Digits(n)| < width then width - |Digits(n)| else 0, Digits(n));
    assert Zeros(0) == [];
  }

  // ---------- amounts ----------

  /** f"{x:.2f}" of an amount of `x` hundredths. */
  function Amount(x: int): Text { if x < 0 then [MINUS] + Unsigned(-x) else Unsigned(x) }

  function Unsigned(a: nat): Text { Padded(a / 100, 1) + [POINT] + Padded(a % 100, 2) }

  function ReadUnsigned(u: Text): nat {
    if |u| < 3 || !AllDigits(u[..|u| - 3]) || !AllDigits(u[|u| - 2..]) then 0
    else NumberOf(u[..|u| - 3]) * 100 + NumberOf(u[|u| - 2..])
  }

  /** Reads such an amount back. */
  function ReadAmount(t: Text): int {
    if t != [] && t[0] == MINUS then 0 - ReadUnsigned(t[1..]) else ReadUnsigned(t)
  }

  lemma {:induction false} DigitsFit(n: nat, k: nat)
    requires n < Power10(k)
    ensures |Digits(n)| <= k
  {
    if n != 0 {
      assert k > 0;
      DigitsFit(n / 10, k - 1);
    }
  }

  function Power10(k: nat): nat { if k == 0 then 1 else 10 * Power10(k - 1) }

  lemma {:induction false} DigitsBound(n: nat)
    ensures n < Power10(|Digits(n)|)
  {
    if n != 0 { DigitsBound(n / 10); }
  }

  lemma {:induction false} Power10Grows(j: nat, k: nat)
    requires j <= k
    ensures 1 <= Power10(j) <= Power10(k)
    decreases k
  {
    if j < k {
      Power10Grows(j, k - 1);
    } else if k > 0 {
      Power10Grows(j - 1, k - 1);
    }
  }

  lemma DigitsGrow(m: nat, n: nat)
    requires m <= n
    ensures |Digits(m)| <= |Digits(n)|
  {
    DigitsBound(n);
    DigitsFit(m, |Digits(n)|);
  }

  lemma PaddedSize(n: nat, width: nat)
    ensures |Padded(n, width)| == if |Digits(n)| < width then width else |Digits(n)|
  {
  }

  lemma PaddedLength(n: nat, width: nat)
    requires n < Power10(width)
    ensures |Padded(n, width)| == width
  {
    DigitsFit(n, width);
  }

  lemma UnsignedRoundTrip(a: nat)
    ensures Unsigned(a) != [] && Unsigned(a)[0] != MINUS && ReadUnsigned(Unsigned(a)) == a
  {
    var whole, cents := Padded(a / 100, 1), Padded(a % 100, 2);
    PaddedValue(a / 100, 1);
    PaddedValue(a % 100, 2);
    assert Power10(2) == 100 by { assert Power10(1) == 10; }
    PaddedLength(a % 100, 2);
    var u := Unsigned(a);
    assert u[..|u| - 3] == whole && u[|u| - 2..] == cents;
    assert u[0] == whole[0];
  }

  lemma AmountRoundTrip(x: int)
    ensures ReadAmount(Amount(x)) == x
  {
    UnsignedRoundTrip(if x < 0 then -x else x);
    if x < 0 { assert Amount(x)[1..] == Unsigned(-x); }
  }
}
