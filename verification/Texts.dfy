/** Trimming text as Python's `str.strip` does. */
module Texts {
  import opened Json

  /** The characters `str.strip()` removes; also the class \s of `re`. */
  predicate IsSpaceChar(c: Char) {
    0x09 <= c <= 0x0D || 0x1C <= c <= 0x20 || 0x2000 <= c <= 0x200A
    || c in {0x85, 0xA0, 0x1680, 0x2028, 0x2029, 0x202F, 0x205F, 0x3000}
  }

  function StripLeft(t: Text, p: Char -> bool): Text {
    if t != [] && p(t[0]) then StripLeft(t[1..], p) else t
  }

  function StripRight(t: Text, p: Char -> bool): Text {
    if t != [] && p(t[|t| - 1]) then StripRight(t[..|t| - 1], p) else t
  }

  function Strip(t: Text, p: Char -> bool): Text { StripRight(StripLeft(t, p), p) }

  lemma StripLeftShorter(t: Text, p: Char -> bool)
    ensures |StripLeft(t, p)| <= |t|
  {
  }

  /** Stripping removes exactly the leading and trailing characters of the class. */
  lemma {:induction false} StripIs(left: Text, core: Text, right: Text, p: Char -> bool)
    requires forall i :: 0 <= i < |left| ==> p(left[i])
    requires forall i :: 0 <= i < |right| ==> p(right[i])
    requires core != [] ==> !p(core[0]) && !p(core[|core| - 1])
    ensures Strip(left + core + right, p) == core
    decreases |left| + |right|
  {
    if left != [] {
      assert (left + core + right)[1..] == left[1..] + core + right;
      StripIs(left[1..], core, right, p);
    } else if core == [] && right != [] {
      assert left + core + right == right && right[1..] == [] + core + right[1..];
      StripIs([], core, right[1..], p);
    } else if right != [] {
      var t := left + core + right;
      assert t[..|t| - 1] == left + core + right[..|right| - 1];
      StripIs(left, core, right[..|right| - 1], p);
    } else {
      assert left + core + right == core;
    }
  }

  lemma {:induction false} StripLeftEnds(t: Text, p: Char -> bool)
    ensures StripLeft(t, p) != [] ==> !p(StripLeft(t, p)[0])
  {
    if t != [] && p(t[0]) { StripLeftEnds(t[1..], p); }
  }

  lemma {:induction false} StripRightEnds(t: Text, p: Char -> bool)
    ensures StripRight(t, p) <= t
    ensures StripRight(t, p) != [] ==> !p(StripRight(t, p)[|StripRight(t, p)| - 1])
  {
    if t != [] && p(t[|t| - 1]) { StripRightEnds(t[..|t| - 1], p); }
  }

  lemma StripEnds(t: Text, p: Char -> bool)
    ensures Strip(t, p) != [] ==> !p(Strip(t, p)[0]) && !p(Strip(t, p)[|Strip(t, p)| - 1])
  {
    StripLeftEnds(t, p);
    StripRightEnds(StripLeft(t, p), p);
  }

  lemma {:induction false} StripLeftParts(t: Text, p: Char -> bool) returns (left: Text)
    ensures t == left + StripLeft(t, p) && forall i :: 0 <= i < |left| ==> p(left[i])
  {
    left := [];
    if t != [] && p(t[0]) {
      var more := StripLeftParts(t[1..], p);
      left := [t[0]] + more;
    }
  }

  lemma {:induction false} StripRightParts(t: Text, p: Char -> bool) returns (right: Text)
    ensures t == StripRight(t, p) + right && forall i :: 0 <= i < |right| ==> p(right[i])
  {
    right := [];
    if t != [] && p(t[|t| - 1]) {
      var more := StripRightParts(t[..|t| - 1], p);
      right := more + [t[|t| - 1]];
      assert t == t[..|t| - 1] + [t[|t| - 1]];
    }
  }

  /** What was stripped. */
  lemma StripParts(t: Text, p: Char -> bool) returns (left: Text, right: Text)
    ensures t == left + Strip(t, p) + right
    ensures (forall i :: 0 <= i < |left| ==> p(left[i])) && (forall i :: 0 <= i < |right| ==> p(right[i]))
  {
    left := StripLeftParts(t, p);
    right := StripRightParts(StripLeft(t, p), p);
    assert left + (Strip(t, p) + right) == left + Strip(t, p) + right;
  }

  lemma NothingToStrip(t: Text, p: Char -> bool)
    requires t != [] && !p(t[0]) && !p(t[|t| - 1])
    ensures Strip(t, p) == t
  {
    StripIs([], t, [], p);
    assert [] + t + [] == t;
  }
}
