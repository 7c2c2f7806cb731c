/** Printing a JSON value and parsing it back, and what script_json adds to it. */
module JsonRoundTrip {
  import opened Json
  import opened ScriptEscaping

  /** What a reader makes of the string: with `ensure_ascii` a high surrogate printed right before
      a low one comes back as the one character the pair encodes. */
  function Merged(t: Text): Text
    decreases |t|
  {
    if t == [] then []
    else if |t| >= 2 && IsHigh(t[0]) && IsLow(t[1]) then [Combine(t[0], t[1])] + Merged(t[2..])
    else [t[0]] + Merged(t[1..])
  }

  function ReadBack(t: Text, ascii: bool): Text {
    if ascii then Merged(t) else t
  }

  function ReadValue(v: Value, ascii: bool): Value {
    match v
    case Str(t) => Str(ReadBack(t, ascii))
    case Arr(items) => Arr(ReadItems(items, ascii))
    case Obj(ms) => Obj(ReadMembers(ms, ascii))
    case _ => v
  }

  function ReadItems(items: Items, ascii: bool): Items {
    match items
    case NoItems => NoItems
    case Item(v, more) => Item(ReadValue(v, ascii), ReadItems(more, ascii))
  }

  function ReadMembers(ms: Members, ascii: bool): Members {
    match ms
    case NoMembers => NoMembers
    case Member(key, v, more) => Member(ReadBack(key, ascii), ReadValue(v, ascii), ReadMembers(more, ascii))
  }

  // ---------- strings ----------

  lemma RawReads(c: Char, tail: Text)
    requires c >= 0x20 && c != QUOTE && c != BACKSLASH
    ensures var s := [c] + tail;
      ParseString(s) == Cons(c, ParseString(tail)) && !LowAhead(s)
  {
  }

  lemma ShortReads(c: Char, tail: Text)
    requires ShortEscape(c) != []
    ensures var s := [BACKSLASH] + ShortEscape(c) + tail;
      ParseString(s) == Cons(c, ParseString(tail)) && !LowAhead(s)
  {
    var s := [BACKSLASH] + ShortEscape(c) + tail;
    assert s[0] == BACKSLASH && s[1] == ShortEscape(c)[0] && s[2..] == tail;
  }

  lemma UnitReads(u: Char, tail: Text)
    requires u < 0x1_0000
    ensures var s := UnitEscape(u) + tail;
      && LowAhead(s) == IsLow(u)
      && s[6..] == tail && StartsWithUnit(s) && Unit(s) == u
      && ParseString(s) == if IsHigh(u) && LowAhead(tail)
                           then Cons(Combine(u, Unit(tail)), ParseString(tail[6..]))
                           else Cons(u, ParseString(tail))
  {
    var p, s := UnitEscape(u), UnitEscape(u) + tail;
    assert forall i :: 0 <= i < 6 ==> s[i] == p[i];
    assert s[6..] == tail;
    if |tail| >= 6 { assert s[12..] == tail[6..]; }
  }

  lemma Associate(a: Text, b: Text, c: Text)
    ensures a + b + c == a + (b + c)
  {
  }

  lemma TwoUnitsRead(high: Char, low: Char, tail: Text)
    requires IsHigh(high) && IsLow(low)
    ensures var s := UnitEscape(high) + (UnitEscape(low) + tail);
      ParseString(s) == Cons(Combine(high, low), ParseString(tail)) && !LowAhead(s)
  {
    UnitReads(high, UnitEscape(low) + tail);
    UnitReads(low, tail);
  }

  lemma Recombined(c: Char)
    requires c >= 0x1_0000
    ensures Combine(HighOf(c), LowOf(c)) == c
  {
  }

  lemma PairReads(c: Char, tail: Text)
    requires c >= 0x1_0000
    ensures var s := PairEscape(c) + tail;
      ParseString(s) == Cons(c, ParseString(tail)) && !LowAhead(s)
  {
    Associate(UnitEscape(HighOf(c)), UnitEscape(LowOf(c)), tail);
    Recombined(c);
    TwoUnitsRead(HighOf(c), LowOf(c), tail);
  }

  /** Reading what a character was printed as: only a high surrogate in ASCII output looks at what
      comes next. */
  lemma PrintedCharReads(c: Char, ascii: bool, tail: Text)
    ensures var s := PrintChar(c, ascii) + tail;
      && (ascii ==> (LowAhead(s) <==> IsLow(c)))
      && (ascii && IsLow(c) ==> Unit(s) == c && s[6..] == tail)
      && ParseString(s) == if ascii && IsHigh(c) && LowAhead(tail)
                           then Cons(Combine(c, Unit(tail)), ParseString(tail[6..]))
                           else Cons(c, ParseString(tail))
  {
    if ShortEscape(c) != [] {
      ShortReads(c, tail);
    } else if PrintedAsUnit(c, ascii) {
      UnitReads(c, tail);
    } else if ascii && c >= 0x1_0000 {
      PairReads(c, tail);
    } else {
      RawReads(c, tail);
    }
  }

  // ---------- whole strings ----------

  function Quoted(t: Text, ascii: bool, rest: Text): Text {
    PrintChars(t, ascii) + [QUOTE] + rest
  }

  lemma QuotedStep(t: Text, ascii: bool, rest: Text)
    requires t != []
    ensures Quoted(t, ascii, rest) == PrintChar(t[0], ascii) + Quoted(t[1..], ascii, rest)
  {
  }

  lemma EmptyReads(ascii: bool, rest: Text)
    ensures ParseString(Quoted([], ascii, rest)) == Good([], rest)
  {
    assert Quoted([], ascii, rest) == [QUOTE] + rest;
  }

  lemma PlainCharReads(c: Char, tail: Text)
    ensures ParseString(PrintChar(c, false) + tail) == Cons(c, ParseString(tail))
  {
    PrintedCharReads(c, false, tail);
  }

  lemma {:induction false} PlainStringReads(t: Text, rest: Text)
    ensures ParseString(Quoted(t, false, rest)) == Good(t, rest)
  {
    if t == [] {
      EmptyReads(false, rest);
    } else {
      PlainStringReads(t[1..], rest);
      QuotedStep(t, false, rest);
      PlainCharReads(t[0], Quoted(t[1..], false, rest));
      assert [t[0]] + t[1..] == t;
    }
  }

  lemma {:induction false} AsciiStringReads(t: Text, rest: Text)
    ensures ParseString(Quoted(t, true, rest)) == Good(Merged(t), rest)
    decreases |t|
  {
    if t == [] {
      EmptyReads(true, rest);
    } else {
      var tail := Quoted(t[1..], true, rest);
      QuotedStep(t, true, rest);
      PrintedCharReads(t[0], true, tail);
      HighReads(t, rest);
      if |t| >= 2 && IsHigh(t[0]) && IsLow(t[1]) {
        AsciiStringReads(t[2..], rest);
        assert ParseString(Quoted(t, true, rest)) == Cons(Combine(t[0], t[1]), Good(Merged(t[2..]), rest));
      } else {
        AsciiStringReads(t[1..], rest);
        assert ParseString(Quoted(t, true, rest)) == Cons(t[0], Good(Merged(t[1..]), rest));
      }
    }
  }

  /** What is printed for a string reads back, for every string. */
  lemma PrintedStringReads(t: Text, ascii: bool, rest: Text)
    ensures ParseString(Quoted(t, ascii, rest)) == Good(ReadBack(t, ascii), rest)
  {
    if ascii { AsciiStringReads(t, rest); } else { PlainStringReads(t, rest); }
  }

  /** After a high surrogate a low one lies ahead exactly when it is the next character. */
  lemma HighReads(t: Text, rest: Text)
    requires t != []
    ensures var tail := Quoted(t[1..], true, rest);
      && (LowAhead(tail) <==> |t| >= 2 && IsLow(t[1]))
      && (LowAhead(tail) ==> Unit(tail) == t[1] && tail[6..] == Quoted(t[2..], true, rest))
  {
    var tail := Quoted(t[1..], true, rest);
    if |t| == 1 {
      assert tail[0] == QUOTE;
    } else {
      assert t[1..][0] == t[1] && t[1..][1..] == t[2..];
      QuotedStep(t[1..], true, rest);
      PrintedCharReads(t[1], true, Quoted(t[2..], true, rest));
    }
  }

  // ---------- numbers ----------

  lemma {:induction false} DigitsAreDigits(s: Text)
    ensures forall i :: 0 <= i < DigitsLength(s) ==> IsDigit(s[i])
  {
    if s != [] && IsDigit(s[0]) { DigitsAreDigits(s[1..]); }
  }

  predicate AllNumberChars(s: Text) { forall i :: 0 <= i < |s| ==> IsNumberChar(s[i]) }

  lemma ExponentChars(e: Text)
    requires IsExponent(e)
    ensures AllNumberChars(e)
  {
    if e != [] {
      var d := if |e| > 1 && e[1] in {0x2B, 0x2D} then e[2..] else e[1..];
      DigitsAreDigits(d);
      assert e == e[..|e| - |d|] + d;
    }
  }

  lemma FractionChars(f: Text)
    requires IsFraction(f)
    ensures AllNumberChars(f)
  {
    if f != [] && f[0] == 0x2E {
      var digits := f[1..];
      var n := DigitsLength(digits);
      DigitsAreDigits(digits);
      ExponentChars(digits[n..]);
      forall i | 0 <= i < |f| ensures IsNumberChar(f[i]) {
        if i > n { assert f[i] == digits[n..][i - 1 - n]; } else if i > 0 { assert f[i] == digits[i - 1]; }
      }
    } else {
      ExponentChars(f);
    }
  }

  lemma NumberChars(l: Text)
    requires IsNumber(l)
    ensures l != [] && AllNumberChars(l)
  {
    var int' := if l[0] == 0x2D then l[1..] else l;
    var n, k := DigitsLength(int'), |l| - |int'|;
    DigitsAreDigits(int');
    FractionChars(int'[n..]);
    forall i | 0 <= i < |l| ensures IsNumberChar(l[i]) {
      if i >= k + n { assert l[i] == int'[n..][i - k - n]; } else if i >= k { assert l[i] == int'[i - k]; }
    }
  }

  lemma {:induction false} NumberEnds(l: Text, rest: Text)
    requires AllNumberChars(l) && (rest == [] || !IsNumberChar(rest[0]))
    ensures NumberLength(l + rest) == |l|
  {
    if l == [] {
      assert l + rest == rest;
    } else {
      assert (l + rest)[1..] == l[1..] + rest;
      NumberEnds(l[1..], rest);
    }
  }

  // ---------- values ----------

  predicate Ends(rest: Text) { rest == [] || !IsNumberChar(rest[0]) }

  /** The first character of a printed value: not a space, and not a closing bracket. */
  lemma PrintedStart(v: Value, ascii: bool)
    requires Printable(v)
    ensures var p := Print(v, ascii);
      p != [] && !IsSpace(p[0]) && p[0] != RBRACKET && p[0] != RBRACE
  {
    if v.Num? { NumberChars(v.lexeme); }
  }

  // The grammar rules, read as facts about the parser.

  lemma StringRule(inner: Text, t: Text, rest: Text)
    requires ParseString(inner) == Good(t, rest)
    ensures ParseValue([QUOTE] + inner) == Good(Str(t), rest)
  {
    var s := [QUOTE] + inner;
    assert s[1..] == inner && SkipSpace(s) == s;
  }

  lemma ArrayRule(inner: Text, items: Items, rest: Text)
    requires ParseItems(inner) == Good(items, rest)
    requires inner != [] && !IsSpace(inner[0]) && inner[0] != RBRACKET
    ensures ParseValue([LBRACKET] + inner) == Good(Arr(items), rest)
  {
    var s := [LBRACKET] + inner;
    assert s[1..] == inner && SkipSpace(s) == s;
  }

  lemma ObjectRule(inner: Text, ms: Members, rest: Text)
    requires ParseMembers(inner) == Good(ms, rest)
    requires inner != [] && inner[0] == QUOTE
    ensures ParseValue([LBRACE] + inner) == Good(Obj(ms), rest)
  {
    var s := [LBRACE] + inner;
    assert s[1..] == inner && SkipSpace(s) == s;
  }

  lemma EmptyRules(rest: Text)
    ensures ParseValue([LBRACKET, RBRACKET] + rest) == Good(Arr(NoItems), rest)
    ensures ParseValue([LBRACE, RBRACE] + rest) == Good(Obj(NoMembers), rest)
  {
    var s, t := [LBRACKET, RBRACKET] + rest, [LBRACE, RBRACE] + rest;
    assert s[1..] == [RBRACKET] + rest && t[1..] == [RBRACE] + rest;
    assert SkipSpace(s) == s && SkipSpace(t) == t;
    assert SkipSpace(s[1..]) == s[1..] && SkipSpace(t[1..]) == t[1..];
  }

  lemma LastItemRule(s: Text, v: Value, rest: Text)
    requires ParseValue(s) == Good(v, [RBRACKET] + rest)
    ensures ParseItems(s) == Good(Item(v, NoItems), rest)
  {
    assert SkipSpace([RBRACKET] + rest) == [RBRACKET] + rest;
  }

  lemma MoreItemsRule(s: Text, v: Value, next: Text, more: Items, rest: Text)
    requires ParseValue(s) == Good(v, [COMMA, SPACE] + next) && ParseItems(next) == Good(more, rest)
    ensures ParseItems(s) == Good(Item(v, more), rest)
  {
    var after := [COMMA, SPACE] + next;
    assert after[1..] == [SPACE] + next && SkipSpace(after) == after;
    SpaceBeforeItems(next);
  }

  lemma LastMemberRule(s: Text, key: Text, s': Text, v: Value, rest: Text)
    requires ParseKey(s) == Good(key, [SPACE] + s') && ParseValue(s') == Good(v, [RBRACE] + rest)
    ensures ParseMembers(s) == Good(Member(key, v, NoMembers), rest)
  {
    assert SkipSpace([RBRACE] + rest) == [RBRACE] + rest;
    SpaceThenValue(s');
  }

  lemma NextMember(s: Text, key: Text, s': Text, v: Value, after: Text, more: Members, rest: Text)
    requires ParseKey(s) == Good(key, s') && ParseValue(s') == Good(v, after)
    requires after != [] && after[0] == COMMA && ParseMembers(after[1..]) == Good(more, rest)
    ensures ParseMembers(s) == Good(Member(key, v, more), rest)
  {
    assert SkipSpace(after) == after;
  }

  lemma MoreMembersRule(s: Text, key: Text, s': Text, v: Value, next: Text, more: Members, rest: Text)
    requires ParseKey(s) == Good(key, [SPACE] + s') && ParseValue(s') == Good(v, [COMMA, SPACE] + next)
    requires ParseMembers(next) == Good(more, rest)
    ensures ParseMembers(s) == Good(Member(key, v, more), rest)
  {
    SpaceThenValue(s');
    MembersAfterComma(next);
    NextMember(s, key, [SPACE] + s', v, [COMMA, SPACE] + next, more, rest);
  }

  lemma SpaceThenValue(s: Text)
    ensures ParseValue([SPACE] + s) == ParseValue(s)
  {
    assert ([SPACE] + s)[1..] == s;
    SpaceBeforeValue([SPACE] + s);
    SpaceBeforeValue(s);
  }

  lemma SpaceBeforeItems(s: Text)
    ensures ParseItems([SPACE] + s) == ParseItems(s)
  {
    SpaceThenValue(s);
  }

  lemma SpaceBeforeMembers(s: Text)
    ensures ParseMembers([SPACE] + s) == ParseMembers(s)
  {
    assert ([SPACE] + s)[1..] == s;
    assert SkipSpace([SPACE] + s) == SkipSpace(s);
  }

  lemma MembersAfterComma(next: Text)
    ensures ParseMembers(([COMMA, SPACE] + next)[1..]) == ParseMembers(next)
  {
    assert ([COMMA, SPACE] + next)[1..] == [SPACE] + next;
    SpaceBeforeMembers(next);
  }

  lemma NumberReads(l: Text, rest: Text)
    requires IsNumber(l) && Ends(rest)
    ensures ParseValue(l + rest) == Good(Num(l), rest)
  {
    var s := l + rest;
    NumberChars(l);
    NumberEnds(l, rest);
    assert s[..|l|] == l && s[|l|..] == rest;
    NumeralValue(s);
  }

  lemma WordsRead(rest: Text)
    ensures ParseValue(NULL + rest) == Good(Null, rest)
    ensures ParseValue(TRUE + rest) == Good(Bool(true), rest)
    ensures ParseValue(FALSE + rest) == Good(Bool(false), rest)
  {
    assert (NULL + rest)[4..] == rest && (TRUE + rest)[4..] == rest && (FALSE + rest)[5..] == rest;
    assert ParseWord(NULL + rest) == Good(Null, rest);
    assert (TRUE + rest)[0] != NULL[0] && (FALSE + rest)[0] != NULL[0] && (FALSE + rest)[0] != TRUE[0];
    assert ParseWord(TRUE + rest) == Good(Bool(true), rest);
    assert ParseWord(FALSE + rest) == Good(Bool(false), rest);
  }

  lemma StringLayout(t: Text, ascii: bool, rest: Text)
    ensures PrintString(t, ascii) + rest == [QUOTE] + Quoted(t, ascii, rest)
  {
  }

  lemma StringReads(t: Text, ascii: bool, rest: Text)
    ensures ParseValue(PrintString(t, ascii) + rest) == Good(Str(ReadBack(t, ascii)), rest)
  {
    PrintedStringReads(t, ascii, rest);
    StringRule(Quoted(t, ascii, rest), ReadBack(t, ascii), rest);
    StringLayout(t, ascii, rest);
  }

  lemma KeyRule(inner: Text, key: Text, rest: Text)
    requires ParseString(inner) == Good(key, [COLON] + rest)
    ensures ParseKey([QUOTE] + inner) == Good(key, rest)
  {
    var s, after := [QUOTE] + inner, [COLON] + rest;
    assert s[1..] == inner && SkipSpace(s) == s;
    assert after[1..] == rest && SkipSpace(after) == after;
  }

  lemma KeyLayout(chars: Text, rest: Text)
    ensures [QUOTE] + (chars + [QUOTE] + ([COLON] + ([SPACE] + rest)))
         == [QUOTE] + chars + [QUOTE] + [COLON, SPACE] + rest
  {
  }

  lemma KeyReads(key: Text, ascii: bool, rest: Text)
    ensures ParseKey(PrintString(key, ascii) + [COLON, SPACE] + rest) == Good(ReadBack(key, ascii), [SPACE] + rest)
  {
    var after := [COLON] + ([SPACE] + rest);
    PrintedStringReads(key, ascii, after);
    KeyRule(Quoted(key, ascii, after), ReadBack(key, ascii), [SPACE] + rest);
    KeyLayout(PrintChars(key, ascii), rest);
  }

  /** What is printed for a value reads back, whatever follows, unless a numeral could go on. */
  lemma {:induction false} PrintedReads(v: Value, ascii: bool, rest: Text)
    requires Printable(v) && Ends(rest)
    ensures ParseValue(Print(v, ascii) + rest) == Good(ReadValue(v, ascii), rest)
    decreases v, 0
  {
    match v
    case Null => WordsRead(rest);
    case Bool(_) => WordsRead(rest);
    case Num(l) => NumberReads(l, rest);
    case Str(t) => StringReads(t, ascii, rest);
    case Arr(items) => PrintedArrayReads(items, ascii, rest);
    case Obj(ms) => PrintedObjectReads(ms, ascii, rest);
  }

  lemma Enclosed(a: Text, b: Text, c: Text, d: Text)
    ensures a + b + c + d == a + (b + c + d)
  {
  }

  lemma {:induction false} PrintedArrayReads(items: Items, ascii: bool, rest: Text)
    requires ItemsPrintable(items)
    ensures ParseValue([LBRACKET] + PrintItems(items, ascii) + [RBRACKET] + rest)
      == Good(Arr(ReadItems(items, ascii)), rest)
    decreases items, 2
  {
    if items == NoItems {
      EmptyRules(rest);
      assert [LBRACKET] + [] + [RBRACKET] + rest == [LBRACKET, RBRACKET] + rest;
    } else {
      var inner := PrintItems(items, ascii) + [RBRACKET] + rest;
      PrintedStart(items.value, ascii);
      assert inner[0] == Print(items.value, ascii)[0];
      PrintedItemsRead(items, ascii, rest);
      ArrayRule(inner, ReadItems(items, ascii), rest);
      Enclosed([LBRACKET], PrintItems(items, ascii), [RBRACKET], rest);
    }
  }

  lemma {:induction false} PrintedObjectReads(ms: Members, ascii: bool, rest: Text)
    requires MembersPrintable(ms)
    ensures ParseValue([LBRACE] + PrintMembers(ms, ascii) + [RBRACE] + rest)
      == Good(Obj(ReadMembers(ms, ascii)), rest)
    decreases ms, 2
  {
    if ms == NoMembers {
      EmptyRules(rest);
      assert [LBRACE] + [] + [RBRACE] + rest == [LBRACE, RBRACE] + rest;
    } else {
      var inner := PrintMembers(ms, ascii) + [RBRACE] + rest;
      assert inner[0] == PrintString(ms.key, ascii)[0] == QUOTE;
      PrintedMembersRead(ms, ascii, rest);
      ObjectRule(inner, ReadMembers(ms, ascii), rest);
      Enclosed([LBRACE], PrintMembers(ms, ascii), [RBRACE], rest);
    }
  }

  function AfterItem(more: Items, ascii: bool, rest: Text): Text {
    if more == NoItems then [RBRACKET] + rest
    else [COMMA, SPACE] + (PrintItems(more, ascii) + [RBRACKET] + rest)
  }

  lemma ItemsLayout(items: Items, ascii: bool, rest: Text)
    requires items.Item?
    ensures PrintItems(items, ascii) + [RBRACKET] + rest
      == Print(items.value, ascii) + AfterItem(items.more, ascii, rest)
  {
  }

  lemma {:induction false} PrintedItemsRead(items: Items, ascii: bool, rest: Text)
    requires ItemsPrintable(items) && items.Item?
    ensures ParseItems(PrintItems(items, ascii) + [RBRACKET] + rest) == Good(ReadItems(items, ascii), rest)
    decreases items, 1
  {
    var s, v := PrintItems(items, ascii) + [RBRACKET] + rest, ReadValue(items.value, ascii);
    ItemsLayout(items, ascii, rest);
    PrintedReads(items.value, ascii, AfterItem(items.more, ascii, rest));
    if items.more == NoItems {
      LastItemRule(s, v, rest);
    } else {
      PrintedItemsRead(items.more, ascii, rest);
      MoreItemsRule(s, v, PrintItems(items.more, ascii) + [RBRACKET] + rest, ReadItems(items.more, ascii), rest);
    }
  }

  function AfterMember(more: Members, ascii: bool, rest: Text): Text {
    if more == NoMembers then [RBRACE] + rest
    else [COMMA, SPACE] + (PrintMembers(more, ascii) + [RBRACE] + rest)
  }

  lemma MembersLayout(ms: Members, ascii: bool, rest: Text)
    requires ms.Member?
    ensures PrintMembers(ms, ascii) + [RBRACE] + rest
      == PrintString(ms.key, ascii) + [COLON, SPACE] + (Print(ms.value, ascii) + AfterMember(ms.more, ascii, rest))
  {
    var head, v := PrintString(ms.key, ascii) + [COLON, SPACE], Print(ms.value, ascii);
    if ms.more == NoMembers {
      assert PrintMembers(ms, ascii) == head + v;
      assert head + v + [RBRACE] + rest == head + (v + ([RBRACE] + rest));
    } else {
      Regroup(head, v, [COMMA, SPACE], PrintMembers(ms.more, ascii), [RBRACE], rest);
    }
  }

  lemma Regroup(a: Text, b: Text, c: Text, d: Text, e: Text, f: Text)
    ensures a + b + (c + d) + e + f == a + (b + (c + (d + e + f)))
  {
    assert (c + d) + e + f == c + (d + e + f);
    assert a + b + ((c + d) + e + f) == a + b + (c + d) + e + f;
  }

  lemma {:induction false} PrintedMembersRead(ms: Members, ascii: bool, rest: Text)
    requires MembersPrintable(ms) && ms.Member?
    ensures ParseMembers(PrintMembers(ms, ascii) + [RBRACE] + rest) == Good(ReadMembers(ms, ascii), rest)
    decreases ms, 1
  {
    var s, key, v := PrintMembers(ms, ascii) + [RBRACE] + rest, ReadBack(ms.key, ascii), ReadValue(ms.value, ascii);
    var value := Print(ms.value, ascii) + AfterMember(ms.more, ascii, rest);
    MembersLayout(ms, ascii, rest);
    KeyReads(ms.key, ascii, value);
    PrintedReads(ms.value, ascii, AfterMember(ms.more, ascii, rest));
    if ms.more == NoMembers {
      LastMemberRule(s, key, value, v, rest);
    } else {
      PrintedMembersRead(ms.more, ascii, rest);
      MoreMembersRule(s, key, value, v, PrintMembers(ms.more, ascii) + [RBRACE] + rest,
                      ReadMembers(ms.more, ascii), rest);
    }
  }

  // ---------- the theorems ----------

  /** What script_json writes is safe inside <script>, and it parses: to the value itself, up to
      the surrogate pairs that ASCII output joins. */
  lemma ScriptJsonReadsBack(v: Value, ascii: bool)
    requires Printable(v)
    ensures Plain(ScriptJson(v, ascii))
    ensures Parses(ScriptJson(v, ascii), ReadValue(v, ascii))
  {
    EscapeIsSafe(Print(v, ascii));
    PrintedReads(v, ascii, []);
    assert Print(v, ascii) + [] == Print(v, ascii);
    EscapeKeepsMeaning(Print(v, ascii), ReadValue(v, ascii));
  }

  /** No string of the value holds a high surrogate right before a low one. */
  predicate NoPair(t: Text) {
    forall i :: 0 < i < |t| ==> !(IsHigh(t[i - 1]) && IsLow(t[i]))
  }

  predicate NoPairs(v: Value) {
    match v
    case Str(t) => NoPair(t)
    case Arr(items) => NoPairsItems(items)
    case Obj(ms) => NoPairsMembers(ms)
    case _ => true
  }

  predicate NoPairsItems(items: Items) {
    items.Item? ==> NoPairs(items.value) && NoPairsItems(items.more)
  }

  predicate NoPairsMembers(ms: Members) {
    ms.Member? ==> NoPair(ms.key) && NoPairs(ms.value) && NoPairsMembers(ms.more)
  }

  lemma {:induction false} MergedExact(t: Text)
    ensures |Merged(t)| <= |t|
    ensures Merged(t) == t <==> NoPair(t)
    decreases |t|
  {
    if t == [] {
    } else if |t| >= 2 && IsHigh(t[0]) && IsLow(t[1]) {
      MergedExact(t[2..]);
    } else {
      MergedExact(t[1..]);
      assert [t[0]] + t[1..] == t;
      assert Merged(t)[1..] == Merged(t[1..]);
      if NoPair(t[1..]) {
        forall i | 0 < i < |t| ensures !(IsHigh(t[i - 1]) && IsLow(t[i])) {
          if i > 1 { assert !(IsHigh(t[1..][i - 2]) && IsLow(t[1..][i - 1])); }
        }
      } else {
        var i :| 0 < i < |t[1..]| && IsHigh(t[1..][i - 1]) && IsLow(t[1..][i]);
        assert IsHigh(t[i + 1 - 1]) && IsLow(t[i + 1]);
      }
    }
  }

  lemma {:induction false} ReadValueExact(v: Value)
    ensures ReadValue(v, true) == v <==> NoPairs(v)
  {
    match v
    case Str(t) => MergedExact(t);
    case Arr(items) => ReadItemsExact(items);
    case Obj(ms) => ReadMembersExact(ms);
    case _ =>
  }

  lemma {:induction false} ReadItemsExact(items: Items)
    ensures ReadItems(items, true) == items <==> NoPairsItems(items)
  {
    if items.Item? {
      ReadValueExact(items.value);
      ReadItemsExact(items.more);
    }
  }

  lemma {:induction false} ReadMembersExact(ms: Members)
    ensures ReadMembers(ms, true) == ms <==> NoPairsMembers(ms)
  {
    if ms.Member? {
      MergedExact(ms.key);
      ReadValueExact(ms.value);
      ReadMembersExact(ms.more);
    }
  }

  lemma {:induction false} PlainReadsItself(v: Value)
    ensures ReadValue(v, false) == v
  {
    match v
    case Arr(items) => PlainItemsReadThemselves(items);
    case Obj(ms) => PlainMembersReadThemselves(ms);
    case _ =>
  }

  lemma {:induction false} PlainItemsReadThemselves(items: Items)
    ensures ReadItems(items, false) == items
  {
    if items.Item? {
      PlainReadsItself(items.value);
      PlainItemsReadThemselves(items.more);
    }
  }

  lemma {:induction false} PlainMembersReadThemselves(ms: Members)
    ensures ReadMembers(ms, false) == ms
  {
    if ms.Member? {
      PlainReadsItself(ms.value);
      PlainMembersReadThemselves(ms.more);
    }
  }

  /** The round trip is exact in UTF-8 output always, and in ASCII output exactly when no string
      holds a split surrogate pair. */
  lemma RoundTripExact(v: Value, ascii: bool)
    requires Printable(v)
    ensures Parses(ScriptJson(v, ascii), v) <==> !ascii || NoPairs(v)
  {
    ScriptJsonReadsBack(v, ascii);
    if ascii { ReadValueExact(v); } else { PlainReadsItself(v); }
  }

  // ---------- which characters are written ----------

  predicate AllAscii(s: Text) { forall i :: 0 <= i < |s| ==> 0x20 <= s[i] <= 0x7E }

  lemma UnitAscii(u: Char)
    requires u < 0x1_0000
    ensures AllAscii(UnitEscape(u))
  {
  }

  lemma PairAscii(c: Char)
    requires c >= 0x1_0000
    ensures AllAscii(PairEscape(c))
  {
    UnitAscii(HighOf(c));
    UnitAscii(LowOf(c));
    JoinAscii(UnitEscape(HighOf(c)), UnitEscape(LowOf(c)));
  }

  lemma CharAscii(c: Char)
    ensures AllAscii(PrintChar(c, true))
  {
    if PrintedAsUnit(c, true) {
      UnitAscii(c);
    } else if c >= 0x1_0000 {
      PairAscii(c);
    }
  }

  lemma {:induction false} CharsAscii(t: Text)
    ensures AllAscii(PrintChars(t, true))
  {
    if t != [] {
      CharAscii(t[0]);
      CharsAscii(t[1..]);
    }
  }

  lemma {:induction false} PrintAscii(v: Value)
    requires Printable(v)
    ensures AllAscii(Print(v, true))
  {
    match v
    case Num(l) => NumberAscii(l);
    case Str(t) => StringAscii(t);
    case Arr(items) =>
      ItemsAscii(items);
      Enclosing(LBRACKET, PrintItems(items, true), RBRACKET);
    case Obj(ms) =>
      MembersAscii(ms);
      Enclosing(LBRACE, PrintMembers(ms, true), RBRACE);
    case _ =>
  }

  lemma Enclosing(a: Char, s: Text, b: Char)
    requires AllAscii(s) && 0x20 <= a <= 0x7E && 0x20 <= b <= 0x7E
    ensures AllAscii([a] + s + [b])
  {
  }

  lemma JoinAscii(s: Text, t: Text)
    requires AllAscii(s) && AllAscii(t)
    ensures AllAscii(s + t)
  {
  }

  lemma NumberAscii(l: Text)
    requires IsNumber(l)
    ensures AllAscii(l)
  {
    NumberChars(l);
  }

  lemma StringAscii(t: Text)
    ensures AllAscii(PrintString(t, true))
  {
    CharsAscii(t);
    Enclosing(QUOTE, PrintChars(t, true), QUOTE);
  }

  lemma {:induction false} ItemsAscii(items: Items)
    requires ItemsPrintable(items)
    ensures AllAscii(PrintItems(items, true))
  {
    if items.Item? {
      PrintAscii(items.value);
      ItemsAscii(items.more);
      JoinAscii([COMMA, SPACE], PrintItems(items.more, true));
      JoinAscii(Print(items.value, true),
                if items.more == NoItems then [] else [COMMA, SPACE] + PrintItems(items.more, true));
    }
  }

  lemma {:induction false} MembersAscii(ms: Members)
    requires MembersPrintable(ms)
    ensures AllAscii(PrintMembers(ms, true))
  {
    if ms.Member? {
      StringAscii(ms.key);
      PrintAscii(ms.value);
      MembersAscii(ms.more);
      JoinAscii(PrintString(ms.key, true), [COLON, SPACE]);
      JoinAscii(PrintString(ms.key, true) + [COLON, SPACE], Print(ms.value, true));
      JoinAscii([COMMA, SPACE], PrintMembers(ms.more, true));
      JoinAscii(PrintString(ms.key, true) + [COLON, SPACE] + Print(ms.value, true),
                if ms.more == NoMembers then [] else [COMMA, SPACE] + PrintMembers(ms.more, true));
    }
  }

  lemma {:induction false} EscapeAscii(s: Text)
    requires AllAscii(s)
    ensures AllAscii(Escape(s))
  {
    if s != [] { EscapeAscii(s[1..]); }
  }

  /** With `ensure_ascii` nothing but printable ASCII is written. */
  lemma ScriptJsonAscii(v: Value)
    requires Printable(v)
    ensures AllAscii(ScriptJson(v, true))
  {
    PrintAscii(v);
    EscapeAscii(Print(v, true));
  }

  /** Without it every character is written as it is, other than quotes, backslashes, controls and the three
      that a script must not hold. */
  lemma {:induction false} PlainCharsStay(t: Text)
    requires forall i :: 0 <= i < |t| ==> t[i] >= 0x20 && t[i] != QUOTE && t[i] != BACKSLASH && !Special(t[i])
    ensures PrintChars(t, false) == t && Plain(t)
  {
    if t != [] {
      PlainCharsStay(t[1..]);
      assert [t[0]] + t[1..] == t;
    }
  }

  lemma PlainTextStays(t: Text)
    requires forall i :: 0 <= i < |t| ==> t[i] >= 0x20 && t[i] != QUOTE && t[i] != BACKSLASH && !Special(t[i])
    ensures ScriptJson(Str(t), false) == [QUOTE] + t + [QUOTE]
  {
    PlainCharsStay(t);
    var s := [QUOTE] + t + [QUOTE];
    EscapePlain(s, []);
    assert s + [] == s;
  }

  /** Any two surrogates that make a pair, printed as ASCII, come back as one character. */
  lemma JoinedPair(high: Char, low: Char)
    requires IsHigh(high) && IsLow(low)
    ensures Parses(ScriptJson(Str([high, low]), true), Str([Combine(high, low)]))
    ensures !Parses(ScriptJson(Str([high, low]), true), Str([high, low]))
  {
    var t := [high, low];
    ScriptJsonReadsBack(Str(t), true);
    RoundTripExact(Str(t), true);
    assert IsHigh(t[0]) && IsLow(t[1]) && Merged(t[2..]) == [];
  }
}
