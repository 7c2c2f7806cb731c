/** erp_core/script_json.py: JSON that can stand inside a <script> element.

    The printed JSON is passed through a character translation that knows nothing about JSON.
    The theorems: the result holds no `<`, `>` or `&`, and it parses to the same value. */
module ScriptEscaping {
  import opened Json

  predicate Special(c: Char) { c in {0x3C, 0x3E, 0x26} }

  /** The translation table: the three characters become \u003c, \u003e and \u0026. */
  function EscapeChar(c: Char): Text {
    if c == 0x3C then [BACKSLASH, LOWER_U, 0x30, 0x30, 0x33, 0x63]
    else if c == 0x3E then [BACKSLASH, LOWER_U, 0x30, 0x30, 0x33, 0x65]
    else if c == 0x26 then [BACKSLASH, LOWER_U, 0x30, 0x30, 0x32, 0x36]
    else [c]
  }

  function Escape(s: Text): Text {
    if s == [] then [] else EscapeChar(s[0]) + Escape(s[1..])
  }

  function ScriptJson(v: Value, ascii: bool): Text {
    Escape(Print(v, ascii))
  }

  lemma {:induction false} EscapeIsSafe(s: Text)
    ensures forall i :: 0 <= i < |Escape(s)| ==> !Special(Escape(s)[i])
  {
    if s != [] {
      EscapeIsSafe(s[1..]);
    }
  }

  // ---------- the translation moves through the grammar ----------

  predicate Plain(s: Text) { forall i :: 0 <= i < |s| ==> !Special(s[i]) }

  lemma PlainFirst(c: Char, t: Text)
    requires !Special(c)
    ensures Escape([c] + t) == [c] + Escape(t)
  {
    assert ([c] + t)[1..] == t;
  }

  lemma PlainMore(c: Char, p: Text, t: Text)
    requires !Special(c) && Escape(p + t) == p + Escape(t)
    ensures Escape([c] + p + t) == [c] + p + Escape(t)
  {
    PlainFirst(c, p + t);
    assert [c] + (p + t) == [c] + p + t;
    assert [c] + (p + Escape(t)) == [c] + p + Escape(t);
  }

  lemma {:induction false} EscapePlain(p: Text, t: Text)
    requires Plain(p)
    ensures Escape(p + t) == p + Escape(t)
  {
    if p == [] {
      assert p + t == t;
    } else {
      EscapePlain(p[1..], t);
      PlainMore(p[0], p[1..], t);
      assert p == [p[0]] + p[1..];
    }
  }

  /** A plain prefix of `s` is a prefix of the translation. */
  lemma EscapeAfter(s: Text, n: nat)
    requires n <= |s| && Plain(s[..n])
    ensures Escape(s) == s[..n] + Escape(s[n..])
    ensures Escape(s)[n..] == Escape(s[n..])
  {
    EscapePlain(s[..n], s[n..]);
    assert s == s[..n] + s[n..];
  }

  lemma {:induction false} EscapeSkipSpace(s: Text)
    ensures SkipSpace(Escape(s)) == Escape(SkipSpace(s))
  {
    if s != [] && IsSpace(s[0]) {
      EscapeAfter(s, 1);
      EscapeSkipSpace(s[1..]);
    }
  }

  /** A unit escape is plain, so the translation leaves it alone. */
  lemma EscapeUnit(s: Text)
    requires StartsWithUnit(s)
    ensures var e := Escape(s);
      StartsWithUnit(e) && Unit(e) == Unit(s) && e[6..] == Escape(s[6..])
  {
    EscapeAfter(s, 6);
    assert Escape(s)[..6] == s[..6];
  }

  predicate LowAhead(s: Text) {
    StartsWithUnit(s) && IsLow(Unit(s))
  }

  /** Looking ahead for a low surrogate finds the same thing after the translation. */
  lemma EscapeLookahead(s: Text)
    requires ParseString(s).Good?
    ensures LowAhead(Escape(s)) == LowAhead(s)
  {
    if StartsWithUnit(s) {
      EscapeUnit(s);
    } else if s[0] == BACKSLASH {
      EscapeAfter(s, 2);
      assert Escape(s)[1] == s[1] != LOWER_U;
    } else if !Special(s[0]) {
      EscapeAfter(s, 1);
    }
  }

  predicate StringKept(s: Text) {
    ParseString(s).Good? ==>
      ParseString(Escape(s)) == Good(ParseString(s).value, Escape(ParseString(s).rest))
  }

  lemma EscapePair(s: Text)
    requires StartsWithUnit(s) && IsHigh(Unit(s)) && LowAhead(s[6..])
    requires StringKept(s[12..])
    ensures StringKept(s)
  {
    var e := Escape(s);
    EscapeUnit(s);
    EscapeUnit(s[6..]);
    assert s[6..][6..] == s[12..] && e[6..][6..] == e[12..];
  }

  lemma EscapeLoneUnit(s: Text)
    requires ParseString(s).Good?
    requires StartsWithUnit(s) && !(IsHigh(Unit(s)) && LowAhead(s[6..]))
    requires StringKept(s[6..])
    ensures StringKept(s)
  {
    var e := Escape(s);
    EscapeUnit(s);
    assert ParseString(s) == Cons(Unit(s), ParseString(s[6..]));
    EscapeLookahead(s[6..]);
    assert ParseString(e) == Cons(Unit(e), ParseString(e[6..]));
  }

  lemma EscapeStringSpecial(s: Text)
    requires s != [] && Special(s[0]) && StringKept(s[1..])
    ensures StringKept(s)
  {
    var e := Escape(s);
    assert e[6..] == Escape(s[1..]);
    assert StartsWithUnit(e) && Unit(e) == s[0];
  }

  lemma EscapeRaw(s: Text)
    requires ParseString(s).Good? && !Special(s[0]) && s[0] != BACKSLASH && StringKept(s[1..])
    ensures StringKept(s)
  {
    EscapeAfter(s, 1);
  }

  predicate StartsShort(s: Text) { |s| >= 2 && s[0] == BACKSLASH && Unescaped(s[1]) != [] }

  lemma ShortIsGood(s: Text)
    requires ParseString(s).Good? && s[0] == BACKSLASH && !StartsWithUnit(s)
    ensures StartsShort(s)
  {
  }

  lemma ParseShort(s: Text)
    requires StartsShort(s)
    ensures s[1] != LOWER_U && !Special(s[1])
    ensures ParseString(s) == Cons(Unescaped(s[1])[0], ParseString(s[2..]))
  {
  }

  lemma EscapeShort(s: Text)
    requires StartsShort(s) && StringKept(s[2..])
    ensures StringKept(s)
  {
    var e := Escape(s);
    ParseShort(s);
    EscapeAfter(s, 2);
    assert e[0] == s[0] && e[1] == s[1];
    ParseShort(e);
  }

  lemma {:induction false} EscapeString(s: Text)
    ensures StringKept(s)
    decreases |s|
  {
    if ParseString(s).Good? {
      if Special(s[0]) {
        EscapeString(s[1..]);
        EscapeStringSpecial(s);
      } else if s[0] != BACKSLASH {
        EscapeString(s[1..]);
        EscapeRaw(s);
      } else if StartsWithUnit(s) {
        if IsHigh(Unit(s)) && LowAhead(s[6..]) {
          EscapeString(s[12..]);
          EscapePair(s);
        } else {
          EscapeString(s[6..]);
          EscapeLoneUnit(s);
        }
      } else {
        ShortIsGood(s);
        EscapeString(s[2..]);
        EscapeShort(s);
      }
    }
  }

  lemma {:induction false} EscapeNumber(s: Text)
    ensures NumberLength(Escape(s)) == NumberLength(s)
  {
    if s != [] && IsNumberChar(s[0]) {
      EscapeAfter(s, 1);
      EscapeNumber(s[1..]);
    }
  }

  predicate ValueKept(s: Text) {
    ParseValue(s).Good? ==>
      ParseValue(Escape(s)) == Good(ParseValue(s).value, Escape(ParseValue(s).rest))
  }

  lemma NumeralValue(s: Text)
    requires s != [] && IsNumberChar(s[0])
    ensures var n := NumberLength(s);
      ParseValue(s) == if IsNumber(s[..n]) then Good(Num(s[..n]), s[n..]) else Bad
  {
  }

  lemma EscapeNumeral(s: Text)
    requires s != [] && IsNumberChar(s[0])
    ensures ValueKept(s)
  {
    var n := NumberLength(s);
    EscapeNumber(s);
    EscapeAfter(s, n);
    var e := Escape(s);
    assert e[..n] == s[..n];
    assert e[0] == s[0];
    NumeralValue(s);
    NumeralValue(e);
  }

  lemma EscapeScalar(s: Text)
    requires s != [] && !IsSpace(s[0]) && s[0] != LBRACKET && s[0] != LBRACE
    ensures ValueKept(s)
  {
    if s[0] == QUOTE {
      EscapeAfter(s, 1);
      EscapeString(s[1..]);
    } else if IsNumberChar(s[0]) {
      EscapeNumeral(s);
    } else if NULL <= s || TRUE <= s {
      EscapeAfter(s, 4);
    } else if FALSE <= s {
      EscapeAfter(s, 5);
    }
  }

  predicate ItemsKept(s: Text) {
    ParseItems(s).Good? ==>
      ParseItems(Escape(s)) == Good(ParseItems(s).value, Escape(ParseItems(s).rest))
  }

  predicate MembersKept(s: Text) {
    ParseMembers(s).Good? ==>
      ParseMembers(Escape(s)) == Good(ParseMembers(s).value, Escape(ParseMembers(s).rest))
  }

  lemma EscapeArray(s: Text)
    requires s != [] && s[0] == LBRACKET && ItemsKept(s[1..])
    ensures ValueKept(s)
  {
    EscapeAfter(s, 1);
    EscapeSkipSpace(s[1..]);
    var t := SkipSpace(s[1..]);
    if t != [] && !Special(t[0]) { EscapeAfter(t, 1); }
  }

  lemma EscapeObject(s: Text)
    requires s != [] && s[0] == LBRACE && MembersKept(s[1..])
    ensures ValueKept(s)
  {
    EscapeAfter(s, 1);
    EscapeSkipSpace(s[1..]);
    var t := SkipSpace(s[1..]);
    if t != [] && !Special(t[0]) { EscapeAfter(t, 1); }
  }

  lemma {:induction false} EscapeValue(s0: Text)
    ensures ValueKept(s0)
    decreases |s0|, 0
  {
    var s := SkipSpace(s0);
    EscapeSkipSpace(s0);
    if s != [] {
      if s[0] == LBRACKET {
        EscapeItems(s[1..]);
        EscapeArray(s);
      } else if s[0] == LBRACE {
        EscapeMembers(s[1..]);
        EscapeObject(s);
      } else {
        EscapeScalar(s);
      }
      SpaceBeforeValue(s0);
      SpaceBeforeValue(Escape(s0));
    }
  }

  lemma SpaceBeforeValue(s: Text)
    ensures ParseValue(s) == ParseValue(SkipSpace(s))
  {
    assert SkipSpace(SkipSpace(s)) == SkipSpace(s);
  }

  lemma {:induction false} EscapeItems(s: Text)
    ensures ItemsKept(s)
    decreases |s|, 1
  {
    if ParseItems(s).Good? {
      EscapeValue(s);
      var rest := ParseValue(s).rest;
      EscapeSkipSpace(rest);
      var t := SkipSpace(rest);
      EscapeAfter(t, 1);
      if t[0] == COMMA { EscapeItems(t[1..]); }
    }
  }

  lemma EscapeKey(s0: Text)
    requires ParseKey(s0).Good?
    ensures ParseKey(Escape(s0)) == Good(ParseKey(s0).value, Escape(ParseKey(s0).rest))
  {
    EscapeSkipSpace(s0);
    var s := SkipSpace(s0);
    EscapeAfter(s, 1);
    EscapeString(s[1..]);
    var rest := ParseString(s[1..]).rest;
    EscapeSkipSpace(rest);
    EscapeAfter(SkipSpace(rest), 1);
  }

  lemma {:induction false} EscapeMembers(s: Text)
    ensures MembersKept(s)
    decreases |s|, 1
  {
    if ParseMembers(s).Good? {
      EscapeKey(s);
      var afterKey := ParseKey(s).rest;
      EscapeValue(afterKey);
      var rest := ParseValue(afterKey).rest;
      EscapeSkipSpace(rest);
      var t := SkipSpace(rest);
      EscapeAfter(t, 1);
      if t[0] == COMMA { EscapeMembers(t[1..]); }
    }
  }

  /** Whatever options the JSON was printed with: the translation of any text that parses parses
      to the same value. */
  lemma EscapeKeepsMeaning(s: Text, v: Value)
    requires Parses(s, v)
    ensures Parses(Escape(s), v)
  {
    EscapeValue(s);
    EscapeSkipSpace(ParseValue(s).rest);
  }
}
