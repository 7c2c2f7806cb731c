/** UTF-8 as in section 3 of RFC 3629: strict validity, encoding, and the decoding that Python
    does with errors='ignore'. */
module Utf8 {
  import opened Json

  type Byte = b: int | 0 <= b < 256

  type Bytes = seq<Byte>

  const NEWLINE: Byte := 0x0A

  predicate Tail(s: Bytes, i: nat) { i < |s| && 0x80 <= s[i] <= 0xBF }

  function Low6(s: Bytes, i: nat): int
    requires i < |s|
  {
    s[i] as int - 0x80
  }

  /** The length of the well-formed character `s` starts with; 0 if there is none. */
  function CharLength(s: Bytes): (n: nat)
    ensures n <= |s| && n <= 4
  {
    if s == [] then 0
    else if s[0] < 0x80 then 1
    else if 0xC2 <= s[0] <= 0xDF then (if Tail(s, 1) then 2 else 0)
    else if 0xE0 <= s[0] <= 0xEF then
      (if Tail(s, 1) && Tail(s, 2) && (s[0] == 0xE0 ==> s[1] >= 0xA0) && (s[0] == 0xED ==> s[1] <= 0x9F)
       then 3 else 0)
    else if 0xF0 <= s[0] <= 0xF4 then
      (if Tail(s, 1) && Tail(s, 2) && Tail(s, 3) && (s[0] == 0xF0 ==> s[1] >= 0x90)
          && (s[0] == 0xF4 ==> s[1] <= 0x8F)
       then 4 else 0)
    else 0
  }

  function FirstChar(s: Bytes): (c: Char)
    requires CharLength(s) > 0
    ensures (c == NEWLINE) <==> s[0] == NEWLINE
  {
    var n, b: int := CharLength(s), s[0];
    if n == 1 then b
    else if n == 2 then (b - 0xC0) * 0x40 + Low6(s, 1)
    else if n == 3 then (b - 0xE0) * 0x1000 + Low6(s, 1) * 0x40 + Low6(s, 2)
    else (b - 0xF0) * 0x4_0000 + Low6(s, 1) * 0x1000 + Low6(s, 2) * 0x40 + Low6(s, 3)
  }

  predicate Valid(s: Bytes)
    decreases |s|
  {
    s == [] || (CharLength(s) > 0 && Valid(s[CharLength(s)..]))
  }

  /** Bytes that start no well-formed character are dropped. */
  function Decode(s: Bytes): Text
    decreases |s|
  {
    if s == [] then []
    else if CharLength(s) > 0 then [FirstChar(s)] + Decode(s[CharLength(s)..])
    else Decode(s[1..])
  }

  // ---------- encoding ----------

  predicate IsScalar(c: Char) { !IsHigh(c) && !IsLow(c) }

  function EncodeChar(c: Char): (s: Bytes)
    requires IsScalar(c)
    ensures CharLength(s) == |s| > 0 && FirstChar(s) == c
  {
    if c < 0x80 then [c]
    else if c < 0x800 then [0xC0 + c / 0x40, 0x80 + c % 0x40]
    else if c < 0x1_0000 then
      var q := c / 0x40;
      [0xE0 + q / 0x40, 0x80 + q % 0x40, 0x80 + c % 0x40]
    else
      var q := c / 0x40;
      var r := q / 0x40;
      [0xF0 + r / 0x40, 0x80 + r % 0x40, 0x80 + q % 0x40, 0x80 + c % 0x40]
  }

  predicate Encodable(t: Text) { forall i :: 0 <= i < |t| ==> IsScalar(t[i]) }

  function Encode(t: Text): Bytes
    requires Encodable(t)
  {
    if t == [] then [] else EncodeChar(t[0]) + Encode(t[1..])
  }

  /** A well-formed character is found whatever follows it. */
  lemma CharLengthLocal(s: Bytes, t: Bytes)
    requires CharLength(s) > 0
    ensures CharLength(s + t) == CharLength(s) && FirstChar(s + t) == FirstChar(s)
  {
    assert forall i :: 0 <= i < |s| ==> (s + t)[i] == s[i];
  }

  /** Encoding is valid UTF-8 and decoding undoes it. */
  lemma {:induction false} EncodeRoundTrip(t: Text)
    requires Encodable(t)
    ensures Valid(Encode(t)) && Decode(Encode(t)) == t
  {
    if t != [] {
      var p, rest := EncodeChar(t[0]), Encode(t[1..]);
      EncodeRoundTrip(t[1..]);
      CharLengthLocal(p, rest);
      assert (p + rest)[|p|..] == rest;
    }
  }

  lemma TwoSextets(high: int, low: int)
    requires high >= 0 && 0 <= low < 0x40
    ensures (high * 0x40 + low) / 0x40 == high && (high * 0x40 + low) % 0x40 == low
  {
  }

  lemma TwoByteChar(s: Bytes)
    requires CharLength(s) == 2
    ensures IsScalar(FirstChar(s)) && EncodeChar(FirstChar(s)) == [s[0], s[1]]
  {
    TwoSextets(s[0] - 0xC0, Low6(s, 1));
  }

  lemma ThreeByteChar(s: Bytes)
    requires CharLength(s) == 3
    ensures IsScalar(FirstChar(s)) && EncodeChar(FirstChar(s)) == [s[0], s[1], s[2]]
  {
    TwoSextets((s[0] - 0xE0) * 0x40 + Low6(s, 1), Low6(s, 2));
    TwoSextets(s[0] - 0xE0, Low6(s, 1));
  }

  lemma FourByteChar(s: Bytes)
    requires CharLength(s) == 4
    ensures IsScalar(FirstChar(s)) && EncodeChar(FirstChar(s)) == [s[0], s[1], s[2], s[3]]
  {
    TwoSextets(((s[0] - 0xF0) * 0x40 + Low6(s, 1)) * 0x40 + Low6(s, 2), Low6(s, 3));
    TwoSextets((s[0] - 0xF0) * 0x40 + Low6(s, 1), Low6(s, 2));
    TwoSextets(s[0] - 0xF0, Low6(s, 1));
  }

  /** A well-formed character is the encoding of the scalar value it stands for. */
  lemma FirstCharEncodes(s: Bytes)
    requires CharLength(s) > 0
    ensures IsScalar(FirstChar(s)) && EncodeChar(FirstChar(s)) == s[..CharLength(s)]
  {
    if CharLength(s) == 2 {
      TwoByteChar(s);
    } else if CharLength(s) == 3 {
      ThreeByteChar(s);
    } else if CharLength(s) == 4 {
      FourByteChar(s);
    }
  }

  lemma CharInFront(p: Bytes, s: Bytes)
    requires CharLength(p) == |p| > 0
    ensures Decode(p + s) == [FirstChar(p)] + Decode(s)
  {
    CharLengthLocal(p, s);
    assert (p + s)[|p|..] == s;
  }

  lemma EncodeFirst(c: Char, t: Text)
    requires IsScalar(c) && Encodable(t)
    ensures Encodable([c] + t) && Encode([c] + t) == EncodeChar(c) + Encode(t)
  {
    assert ([c] + t)[1..] == t;
  }

  lemma DecodeFirst(s: Bytes)
    requires CharLength(s) > 0
    ensures Decode(s) == [FirstChar(s)] + Decode(s[CharLength(s)..])
  {
  }

  lemma CutAndJoin<T>(s: seq<T>, n: nat)
    requires n <= |s|
    ensures s[..n] + s[n..] == s
  {
  }

  lemma ValidEncodes(s: Bytes, t: Text)
    requires CharLength(s) > 0 && Encodable(t) && Encode(t) == s[CharLength(s)..]
    ensures Encodable([FirstChar(s)] + t) && Encode([FirstChar(s)] + t) == s
  {
    FirstCharEncodes(s);
    EncodeFirst(FirstChar(s), t);
    CutAndJoin(s, CharLength(s));
  }

  /** Exactly: a byte string is valid if and only if it is the encoding of some text, which is then what it
      decodes to. */
  lemma {:induction false} ValidExact(s: Bytes)
    ensures Valid(s) ==> Encodable(Decode(s)) && Encode(Decode(s)) == s
    ensures Valid(s) <==> exists t :: Encodable(t) && s == Encode(t)
    decreases |s|
  {
    if Valid(s) && s != [] {
      ValidExact(s[CharLength(s)..]);
      DecodeFirst(s);
      ValidEncodes(s, Decode(s[CharLength(s)..]));
    }
    if t :| Encodable(t) && s == Encode(t) { EncodeRoundTrip(t); }
  }

  lemma Regroup(a: Bytes, b: Bytes, c: Bytes)
    ensures a + b + c == a + (b + c)
  {
  }

  lemma MoreTextInFront(p: Bytes, r: Bytes, t: Text, s: Bytes)
    requires CharLength(p) == |p| > 0 && Decode(r + s) == t + Decode(s)
    ensures Decode(p + r + s) == [FirstChar(p)] + t + Decode(s)
  {
    CharInFront(p, r + s);
    Regroup(p, r, s);
    assert [FirstChar(p)] + (t + Decode(s)) == [FirstChar(p)] + t + Decode(s);
  }

  /** Text in front of anything decodes by itself. */
  lemma {:induction false} TextInFront(t: Text, s: Bytes)
    requires Encodable(t)
    ensures Decode(Encode(t) + s) == t + Decode(s)
  {
    if t == [] {
      assert [] + s == s;
    } else {
      TextInFront(t[1..], s);
      MoreTextInFront(EncodeChar(t[0]), Encode(t[1..]), t[1..], s);
      CutAndJoin(t, 1);
    }
  }

  /** No character begins there. */
  ghost predicate NoChar(s: Bytes) { forall c :: IsScalar(c) ==> !(EncodeChar(c) <= s) }

  lemma NoCharNoLength(s: Bytes)
    requires NoChar(s)
    ensures CharLength(s) == 0
  {
    if CharLength(s) > 0 { FirstCharEncodes(s); }
  }

  /** A byte after good text that begins no character is dropped, and nothing else is. */
  lemma BadByteDropped(t: Text, bad: Byte, s: Bytes)
    requires Encodable(t) && NoChar([bad] + s)
    ensures Decode(Encode(t) + ([bad] + s)) == t + Decode(s)
  {
    TextInFront(t, [bad] + s);
    NoCharNoLength([bad] + s);
    assert ([bad] + s)[1..] == s;
  }

  // ---------- newlines ----------

  /** A newline byte is never part of a longer character. */
  lemma CharBeforeNewline(a: Bytes, b: Bytes)
    requires a != []
    ensures CharLength(a + [NEWLINE] + b) == CharLength(a)
    ensures CharLength(a) > 0 ==> FirstChar(a + [NEWLINE] + b) == FirstChar(a)
  {
    var s := a + [NEWLINE] + b;
    assert forall i :: 0 <= i < |a| ==> s[i] == a[i];
    assert s[|a|] == NEWLINE;
  }

  /** The number of bytes that decoding takes off the front. */
  function Taken(s: Bytes): (n: nat)
    requires s != []
    ensures 1 <= n <= |s|
  {
    if CharLength(s) > 0 then CharLength(s) else 1
  }

  lemma DecodeStep(s: Bytes)
    requires s != []
    ensures Decode(s) == (if CharLength(s) > 0 then [FirstChar(s)] else []) + Decode(s[Taken(s)..])
    ensures Valid(s) <==> CharLength(s) > 0 && Valid(s[Taken(s)..])
  {
  }

  lemma StepBeforeNewline(a: Bytes, b: Bytes)
    requires a != []
    ensures var s, rest := a + [NEWLINE] + b, a[Taken(a)..] + [NEWLINE] + b;
      && Decode(s) == (if CharLength(a) > 0 then [FirstChar(a)] else []) + Decode(rest)
      && (Valid(s) <==> CharLength(a) > 0 && Valid(rest))
  {
    var s := a + [NEWLINE] + b;
    CharBeforeNewline(a, b);
    DecodeStep(s);
    assert s[Taken(s)..] == a[Taken(a)..] + [NEWLINE] + b;
  }

  lemma Associate(a: Text, b: Text, c: Text, d: Text)
    ensures a + (b + c + d) == a + b + c + d
  {
  }

  /** Decoding and validity go piece by piece around a newline. */
  lemma {:induction false} DecodeAroundNewline(a: Bytes, b: Bytes)
    ensures Decode(a + [NEWLINE] + b) == Decode(a) + [NEWLINE as Char] + Decode(b)
    ensures Valid(a + [NEWLINE] + b) <==> Valid(a) && Valid(b)
    decreases |a|
  {
    if a == [] {
      assert (a + [NEWLINE] + b)[1..] == b;
      DecodeStep(a + [NEWLINE] + b);
      assert FirstChar(a + [NEWLINE] + b) == NEWLINE as Char;
    } else {
      DecodeStep(a);
      StepBeforeNewline(a, b);
      DecodeAroundNewline(a[Taken(a)..], b);
      Associate(if CharLength(a) > 0 then [FirstChar(a)] else [], Decode(a[Taken(a)..]), [NEWLINE as Char], Decode(b));
    }
  }
}
