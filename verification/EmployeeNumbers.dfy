/** The employee number that Employee.save (hr/models.py) makes up: the department prefix and the
    successor of the number in the greatest id, where the database compares ids as strings. */
module EmployeeNumbers {
  import opened Json
  import opened Decimals

  /** The string order of the database. */
  predicate Less(a: Text, b: Text) {
    if b == [] then false
    else if a == [] then true
    else a[0] < b[0] || (a[0] == b[0] && Less(a[1..], b[1..]))
  }

  predicate HasPrefix(prefix: Text, id: Text) { prefix <= id }

  predicate Greatest(ids: set<Text>, prefix: Text, id: Text) {
    id in ids && HasPrefix(prefix, id) && forall x :: x in ids && HasPrefix(prefix, x) ==> !Less(id, x)
  }

  predicate Unused(ids: set<Text>, prefix: Text) {
    forall x :: x in ids ==> !HasPrefix(prefix, x)
  }

  /** The number after the one in `last`; 1 if what follows the prefix is not a number. */
  function Successor(prefix: Text, last: Text): nat
    requires HasPrefix(prefix, last)
  {
    var suffix := last[|prefix|..];
    if suffix != [] && AllDigits(suffix) then NumberOf(suffix) + 1 else 1
  }

  function MakeId(prefix: Text, n: nat): Text { prefix + Padded(n, 4) }

  /** `id` carries the number after the one in the greatest id. */
  predicate Behind(ids: set<Text>, prefix: Text, id: Text) {
    exists last :: last in ids && Greatest(ids, prefix, last) && id == MakeId(prefix, Successor(prefix, last))
  }

  /** `id` is what the code tries next. */
  predicate Proposed(ids: set<Text>, prefix: Text, id: Text) {
    if Unused(ids, prefix) then id == MakeId(prefix, 1) else Behind(ids, prefix, id)
  }

  datatype Outcome = Numbered(id: Text) | Blank | Refused

  class EmployeeTable {
    var ids: set<Text>       // unique

    constructor ()
      ensures ids == {}
    {
      ids := {};
    }

    /** Five attempts; when all of them hit the uniqueness constraint the row is saved with the blank
        id of the last reset. */
    method Save(prefix: Text) returns (o: Outcome)
      modifies this
      ensures o.Numbered? ==> Proposed(old(ids), prefix, o.id) && o.id !in old(ids) && ids == old(ids) + {o.id}
      ensures !o.Numbered? ==> exists id :: Proposed(old(ids), prefix, id) && id in old(ids)
      ensures o.Blank? ==> [] !in old(ids) && ids == old(ids) + {[]}
      ensures o.Refused? ==> [] in old(ids) && ids == old(ids)
    {
      var attempt := 0;
      while attempt < 5
        invariant ids == old(ids)
        invariant attempt > 0 ==> exists id :: Proposed(ids, prefix, id) && id in ids
      {
        var num := 1;
        if !Unused(ids, prefix) {
          GreatestExists(ids, prefix);
          var last :| last in ids && Greatest(ids, prefix, last);
          num := Successor(prefix, last);
        }
        var id := MakeId(prefix, num);
        assert Proposed(ids, prefix, id);
        if id !in ids {
          ids := ids + {id};
          return Numbered(id);
        }
        attempt := attempt + 1;
      }
      if [] in ids { return Refused; }
      ids := ids + {[]};
      return Blank;
    }
  }

  // ---------- the string order ----------

  lemma {:induction false} LessTotal(a: Text, b: Text)
    ensures a == b || Less(a, b) || Less(b, a)
    ensures !(Less(a, b) && Less(b, a)) && !Less(a, a)
  {
    if a != [] && b != [] {
      LessTotal(a[1..], b[1..]);
      LessTotal(a[1..], a[1..]);
      assert a[0] == b[0] && a[1..] == b[1..] ==> a == [a[0]] + a[1..] == b;
    } else if a != [] {
      LessTotal(a[1..], a[1..]);
    }
  }

  lemma {:induction false} LessTransitive(a: Text, b: Text, c: Text)
    requires Less(a, b) && Less(b, c)
    ensures Less(a, c)
  {
    if a != [] && a[0] == b[0] == c[0] { LessTransitive(a[1..], b[1..], c[1..]); }
  }

  lemma {:induction false} GreatestExists(ids: set<Text>, prefix: Text)
    requires !Unused(ids, prefix)
    ensures exists id :: id in ids && Greatest(ids, prefix, id)
    decreases |ids|
  {
    var x :| x in ids && HasPrefix(prefix, x);
    var rest := ids - {x};
    if Unused(rest, prefix) {
      LessTotal(x, x);
      assert forall y :: y in ids && HasPrefix(prefix, y) ==> y == x;
      assert Greatest(ids, prefix, x);
    } else {
      GreatestExists(rest, prefix);
      var g :| g in rest && Greatest(rest, prefix, g);
      var best := if Less(g, x) then x else g;
      forall y | y in ids && HasPrefix(prefix, y) ensures !Less(best, y) {
        if y != x { assert !Less(g, y); }
        LessTotal(x, x);
        if Less(g, x) && Less(x, y) { LessTransitive(g, x, y); }
      }
      assert Greatest(ids, prefix, best);
    }
  }

  lemma {:induction false} LessBehind(p: Text, a: Text, b: Text)
    ensures Less(p + a, p + b) <==> Less(a, b)
  {
    if p == [] {
      assert p + a == a && p + b == b;
    } else {
      assert (p + a)[1..] == p[1..] + a && (p + b)[1..] == p[1..] + b;
      LessBehind(p[1..], a, b);
    }
  }

  /** The last character decides between strings that are equal up to it. */
  lemma {:induction false} LessAtEnd(a: Text, x: Char, b: Text, y: Char)
    requires |a| == |b|
    ensures Less(a + [x], b + [y]) <==> Less(a, b) || (a == b && x < y)
  {
    if a != [] {
      assert (a + [x])[1..] == a[1..] + [x] && (b + [y])[1..] == b[1..] + [y];
      LessAtEnd(a[1..], x, b[1..], y);
      assert a == [a[0]] + a[1..] && b == [b[0]] + b[1..];
    }
  }

  /** Digit strings of the same length are ordered as the numbers they stand for. */
  lemma {:induction false} LessIsNumeric(a: Text, b: Text)
    requires AllDigits(a) && AllDigits(b) && |a| == |b|
    ensures Less(a, b) <==> NumberOf(a) < NumberOf(b)
    ensures a == b <==> NumberOf(a) == NumberOf(b)
    decreases |a|
  {
    if a != [] {
      var n := |a| - 1;
      LessIsNumeric(a[..n], b[..n]);
      LessAtEnd(a[..n], a[n], b[..n], b[n]);
      assert a == a[..n] + [a[n]] && b == b[..n] + [b[n]];
    }
  }

  // ---------- what is proposed ----------

  /** The number an id carries. */
  function Number(prefix: Text, id: Text): nat
    requires HasPrefix(prefix, id)
  {
    Successor(prefix, id) - 1
  }

  /** The ids under the prefix are exactly the generated ones with a number in `numbers`. */
  predicate Generated(ids: set<Text>, prefix: Text, numbers: set<nat>) {
    && (forall x :: x in ids && HasPrefix(prefix, x) ==>
          Number(prefix, x) in numbers && x == MakeId(prefix, Number(prefix, x)))
    && (forall n :: n in numbers ==> MakeId(prefix, n) in ids)
  }

  predicate IsMax(numbers: set<nat>, m: nat) { m in numbers && forall n :: n in numbers ==> n <= m }

  lemma SmallIds(prefix: Text, m: nat, n: nat)
    requires m <= 9999 && n <= 9999
    ensures Less(MakeId(prefix, m), MakeId(prefix, n)) <==> m < n
    ensures MakeId(prefix, m) == MakeId(prefix, n) <==> m == n
  {
    Power10Of4();
    PaddedLength(m, 4);
    PaddedLength(n, 4);
    PaddedValue(m, 4);
    PaddedValue(n, 4);
    LessIsNumeric(Padded(m, 4), Padded(n, 4));
    LessBehind(prefix, Padded(m, 4), Padded(n, 4));
    assert MakeId(prefix, m)[|prefix|..] == Padded(m, 4) && MakeId(prefix, n)[|prefix|..] == Padded(n, 4);
  }

  lemma SuccessorOf(prefix: Text, n: nat)
    ensures HasPrefix(prefix, MakeId(prefix, n)) && Successor(prefix, MakeId(prefix, n)) == n + 1
  {
    PaddedValue(n, 4);
    assert MakeId(prefix, n)[|prefix|..] == Padded(n, 4);
  }

  /** While the prefix holds only generated numbers up to 9999, the string-greatest id carries the
      numerically greatest number, so the one id proposed is unused and its number is above all. */
  lemma ProposedIsNext(ids: set<Text>, prefix: Text, numbers: set<nat>, m: nat)
    requires Generated(ids, prefix, numbers) && IsMax(numbers, m) && m <= 9999
    ensures forall id :: Proposed(ids, prefix, id) <==> id == MakeId(prefix, m + 1)
    ensures MakeId(prefix, m + 1) !in ids
    ensures Generated(ids + {MakeId(prefix, m + 1)}, prefix, numbers + {m + 1})
  {
    var top := MakeId(prefix, m);
    SuccessorOf(prefix, m);
    forall x | x in ids && HasPrefix(prefix, x) ensures !Less(top, x) && (x != top ==> Less(x, top)) {
      SmallIds(prefix, Number(prefix, x), m);
      SmallIds(prefix, m, Number(prefix, x));
    }
    assert Greatest(ids, prefix, top);
    GrowGenerated(ids, prefix, numbers, m + 1);
  }

  lemma GrowGenerated(ids: set<Text>, prefix: Text, numbers: set<nat>, n: nat)
    requires Generated(ids, prefix, numbers) && n !in numbers
    ensures MakeId(prefix, n) !in ids
    ensures Generated(ids + {MakeId(prefix, n)}, prefix, numbers + {n})
  {
    var id := MakeId(prefix, n);
    SuccessorOf(prefix, n);
    assert Number(prefix, id) == n;
  }

  function UpTo(n: nat): (s: set<nat>)
    ensures forall k :: k in s <==> 1 <= k <= n
  {
    if n == 0 then {} else UpTo(n - 1) + {n}
  }

  // ---------- when the proposal is taken ----------

  predicate AllNines(t: Text) { forall i :: 0 <= i < |t| ==> t[i] == 0x39 }

  lemma OneMoreNine(n: nat)
    requires n > 0
    ensures Digits(10 * n - 1) == Digits(n - 1) + [0x39]
  {
    assert (10 * n - 1) / 10 == n - 1 && (10 * n - 1) % 10 == 9;
  }

  lemma {:induction false} NinesDigits(k: nat)
    ensures Power10(k) > 0 && |Digits(Power10(k) - 1)| == k && AllNines(Digits(Power10(k) - 1))
  {
    if k > 0 {
      NinesDigits(k - 1);
      OneMoreNine(Power10(k - 1));
    }
  }

  /** Behind a string of nines come only its own extensions. */
  lemma {:induction false} NinesTop(s: Text, t: Text)
    requires AllNines(s) && AllDigits(t)
    ensures Less(s, t) <==> s < t
  {
    if s != [] && t != [] {
      assert IsDigit(t[0]);
      NinesTop(s[1..], t[1..]);
      assert s == [s[0]] + s[1..] && t == [t[0]] + t[1..];
    }
  }

  lemma NinesLength(m: nat, k: nat)
    requires k >= 4 && m + 1 == Power10(k)
    ensures AllNines(Padded(m, 4))
  {
    NinesDigits(k);
  }

  lemma NextFits(m: nat, k: nat)
    requires k >= 4 && |Digits(m)| <= k
    ensures |Digits(m + 1)| <= k || AllNines(Padded(m, 4))
  {
    DigitsBound(m);
    Power10Grows(|Digits(m)|, k);
    if m + 1 < Power10(k) {
      DigitsFit(m + 1, k);
    } else {
      NinesLength(m, k);
    }
  }

  /** The next number is written with as many digits, or this one is all nines. */
  lemma NextLength(m: nat)
    ensures |Padded(m + 1, 4)| == |Padded(m, 4)| || AllNines(Padded(m, 4))
  {
    PaddedSize(m, 4);
    PaddedSize(m + 1, 4);
    NextFits(m, |Padded(m, 4)|);
    DigitsGrow(m, m + 1);
  }

  lemma SameLengthLess(prefix: Text, m: nat)
    requires |Padded(m, 4)| == |Padded(m + 1, 4)|
    ensures Less(MakeId(prefix, m), MakeId(prefix, m + 1))
  {
    PaddedValue(m, 4);
    PaddedValue(m + 1, 4);
    LessIsNumeric(Padded(m, 4), Padded(m + 1, 4));
    LessBehind(prefix, Padded(m, 4), Padded(m + 1, 4));
  }

  /** The ids of `m`, which is all nines, and of `m + 1` are both in use, and no other id begins with those
      nines. */
  predicate Blocked(numbers: set<nat>, m: nat) {
    && AllNines(Padded(m, 4)) && m in numbers && m + 1 in numbers
    && forall n :: n in numbers ==> !(Padded(m, 4) < Padded(n, 4))
  }

  lemma NinesId(prefix: Text, m: nat, n: nat)
    requires AllNines(Padded(m, 4))
    ensures Less(MakeId(prefix, m), MakeId(prefix, n)) <==> Padded(m, 4) < Padded(n, 4)
  {
    PaddedValue(n, 4);
    LessBehind(prefix, Padded(m, 4), Padded(n, 4));
    NinesTop(Padded(m, 4), Padded(n, 4));
  }

  lemma GreatestUnique(ids: set<Text>, prefix: Text, a: Text, b: Text)
    requires Greatest(ids, prefix, a) && Greatest(ids, prefix, b)
    ensures a == b
  {
    LessTotal(a, b);
  }

  lemma GreatestDecides(ids: set<Text>, prefix: Text, m: nat)
    requires Greatest(ids, prefix, MakeId(prefix, m))
    ensures forall id :: Proposed(ids, prefix, id) <==> id == MakeId(prefix, m + 1)
  {
    SuccessorOf(prefix, m);
    forall last | last in ids && Greatest(ids, prefix, last) ensures last == MakeId(prefix, m) {
      GreatestUnique(ids, prefix, last, MakeId(prefix, m));
    }
  }

  lemma FirstId()
    ensures Padded(1, 4) == [0x30, 0x30, 0x30, 0x31]
  {
    assert Digits(0) == [] && Digits(1) == [0x31];
    assert Zeros(3) == [0x30, 0x30, 0x30];
  }

  /** When what follows the prefix in the greatest id is not a number, or there is no id, number 1 is
      proposed. */
  lemma HandWritten(ids: set<Text>, prefix: Text, last: Text, id: Text)
    requires Unused(ids, prefix) ||
             (Greatest(ids, prefix, last) && !(|last| > |prefix| && AllDigits(last[|prefix|..])))
    ensures Proposed(ids, prefix, id) <==> id == prefix + [0x30, 0x30, 0x30, 0x31]
  {
    FirstId();
    if !Unused(ids, prefix) {
      forall x | x in ids && Greatest(ids, prefix, x) ensures x == last { GreatestUnique(ids, prefix, x, last); }
    }
  }

  /** Then the nines are the greatest string, and the one id proposed is taken. */
  lemma BlockedIsTaken(ids: set<Text>, prefix: Text, numbers: set<nat>, m: nat)
    requires Generated(ids, prefix, numbers) && Blocked(numbers, m)
    ensures forall id :: Proposed(ids, prefix, id) <==> id == MakeId(prefix, m + 1)
    ensures MakeId(prefix, m + 1) in ids
  {
    SuccessorOf(prefix, m);
    forall x | x in ids && HasPrefix(prefix, x) ensures !Less(MakeId(prefix, m), x) {
      NinesId(prefix, m, Number(prefix, x));
    }
    GreatestDecides(ids, prefix, m);
  }

  lemma InUse(ids: set<Text>, prefix: Text, numbers: set<nat>, n: nat)
    requires Generated(ids, prefix, numbers)
    ensures MakeId(prefix, n) in ids <==> n in numbers
  {
    SuccessorOf(prefix, n);
  }

  lemma GreatestIsBlocked(ids: set<Text>, prefix: Text, numbers: set<nat>, m: nat)
    requires Generated(ids, prefix, numbers) && Greatest(ids, prefix, MakeId(prefix, m))
    requires MakeId(prefix, m + 1) in ids
    ensures Blocked(numbers, m)
  {
    InUse(ids, prefix, numbers, m);
    InUse(ids, prefix, numbers, m + 1);
    SuccessorOf(prefix, m + 1);
    NextLength(m);
    if |Padded(m + 1, 4)| == |Padded(m, 4)| { SameLengthLess(prefix, m); }
    forall n | n in numbers ensures !(Padded(m, 4) < Padded(n, 4)) {
      NinesId(prefix, m, n);
      SuccessorOf(prefix, n);
    }
  }

  lemma GreatestBehind(ids: set<Text>, prefix: Text, id: Text) returns (last: Text)
    requires Behind(ids, prefix, id)
    ensures Greatest(ids, prefix, last) && id == MakeId(prefix, Number(prefix, last) + 1)
  {
    last :| last in ids && Greatest(ids, prefix, last) && id == MakeId(prefix, Successor(prefix, last));
  }

  lemma IsItsNumber(ids: set<Text>, prefix: Text, numbers: set<nat>, id: Text)
    requires Generated(ids, prefix, numbers) && id in ids && HasPrefix(prefix, id)
    ensures id == MakeId(prefix, Number(prefix, id))
  {
  }

  lemma BehindIfTaken(ids: set<Text>, prefix: Text, id: Text)
    requires Proposed(ids, prefix, id) && id in ids
    ensures Behind(ids, prefix, id)
  {
    assert HasPrefix(prefix, id);
  }

  lemma NextTaken(ids: set<Text>, prefix: Text, numbers: set<nat>, last: Text)
    requires Generated(ids, prefix, numbers) && Greatest(ids, prefix, last)
    requires MakeId(prefix, Number(prefix, last) + 1) in ids
    ensures Blocked(numbers, Number(prefix, last))
  {
    IsItsNumber(ids, prefix, numbers, last);
    GreatestIsBlocked(ids, prefix, numbers, Number(prefix, last));
  }

  lemma TakenIsBlocked(ids: set<Text>, prefix: Text, numbers: set<nat>, id: Text)
    requires Generated(ids, prefix, numbers) && Behind(ids, prefix, id) && id in ids
    ensures exists m :: Blocked(numbers, m)
  {
    var last := GreatestBehind(ids, prefix, id);
    NextTaken(ids, prefix, numbers, last);
  }

  /** Exactly when the code proposes an id that is in use, for a department of generated ids with whatever
      gaps: some 9...9 and its successor are both in use and nothing else begins with those nines. */
  lemma TakenExact(ids: set<Text>, prefix: Text, numbers: set<nat>)
    requires Generated(ids, prefix, numbers)
    ensures forall id :: Proposed(ids, prefix, id) ==> (id in ids <==> exists m :: Blocked(numbers, m))
  {
    forall id | Proposed(ids, prefix, id) ensures id in ids <==> exists m :: Blocked(numbers, m) {
      if id in ids {
        BehindIfTaken(ids, prefix, id);
        TakenIsBlocked(ids, prefix, numbers, id);
      }
      if m :| Blocked(numbers, m) { BlockedIsTaken(ids, prefix, numbers, m); }
    }
  }

  lemma {:induction false} ExtensionIsLarger(s: Text, t: Text)
    requires AllDigits(s) && AllDigits(t) && s < t
    ensures NumberOf(t) >= 10 * NumberOf(s)
    decreases |t|
  {
    var u := t[..|t| - 1];
    if u == s {
    } else {
      assert s < u;
      ExtensionIsLarger(s, u);
    }
  }

  lemma Power10Of4()
    ensures Power10(4) == 10000
  {
    assert Power10(2) == 100 by { assert Power10(1) == 10; }
    assert Power10(3) == 1000;
  }

  lemma {:induction false} NinesValue(t: Text)
    requires AllNines(t) && AllDigits(t)
    ensures NumberOf(t) == Power10(|t|) - 1
  {
    if t != [] { NinesValue(t[..|t| - 1]); }
  }

  /** 9999 is the only number up to 99998 that is written in nines. */
  lemma FourNines(m: nat)
    requires m <= 99998
    ensures AllNines(Padded(m, 4)) <==> m == 9999
  {
    Power10Of4();
    if m == 9999 { NinesLength(m, 4); }
    if AllNines(Padded(m, 4)) {
      PaddedValue(m, 4);
      NinesValue(Padded(m, 4));
      if |Padded(m, 4)| > 4 { Power10Grows(5, |Padded(m, 4)|); }
    }
  }

  /** No number below 99990 begins with four nines and goes on. */
  lemma NothingExtends(n: nat)
    requires n <= 99989
    ensures !(Padded(9999, 4) < Padded(n, 4))
  {
    PaddedValue(n, 4);
    PaddedValue(9999, 4);
    if Padded(9999, 4) < Padded(n, 4) { ExtensionIsLarger(Padded(9999, 4), Padded(n, 4)); }
  }

  /** With numbers up to 99989 that is: 9999 and 10000 are both in use. */
  lemma BlockedBelow(numbers: set<nat>, m: nat)
    requires forall n :: n in numbers ==> n <= 99989
    ensures Blocked(numbers, m) <==> m == 9999 && 9999 in numbers && 10000 in numbers
  {
    if m in numbers { FourNines(m); }
    forall n | n in numbers ensures !(Padded(9999, 4) < Padded(n, 4)) { NothingExtends(n); }
  }

  /** A department whose ids were all generated in turn gets its next number if and only if it has
      fewer than 10000: with 10000 ids the greatest string still ends in 9999, so the proposal is
      number 10000 again. */
  lemma NumbersRunOut(ids: set<Text>, prefix: Text, n: nat)
    requires n <= 10000 && Generated(ids, prefix, UpTo(n))
    ensures var next := MakeId(prefix, if n < 10000 then n + 1 else 10000);
            && (forall id :: Proposed(ids, prefix, id) <==> id == next)
            && (next !in ids <==> n < 10000)
            && (n < 10000 ==> Generated(ids + {next}, prefix, UpTo(n + 1)))
  {
    if n == 0 {
      assert Unused(ids, prefix);
      GrowGenerated(ids, prefix, UpTo(0), 1);
    } else if n < 10000 {
      ProposedIsNext(ids, prefix, UpTo(n), n);
    } else {
      BlockedBelow(UpTo(n), 9999);
      BlockedIsTaken(ids, prefix, UpTo(n), 9999);
    }
  }
}
