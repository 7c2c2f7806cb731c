/** What the lines of a streamed response mean, and that the reader of EventStream gets out what a
    server has put in. */
module StreamEvents {
  import opened Json
  import opened Utf8
  import opened Texts
  import opened EventStream

  // ---------- one line ----------

  predicate Blank(t: Text) { forall i :: 0 <= i < |t| ==> IsSpaceChar(t[i]) }

  predicate Bare(t: Text) { t != [] ==> !IsSpaceChar(t[0]) && !IsSpaceChar(t[|t| - 1]) }

  /** "data:" and the data, with white space around them. */
  predicate Framed(text: Text, left: Text, gap: Text, data: Text, right: Text) {
    && Blank(left) && Blank(gap) && Bare(data) && Blank(right)
    && text == left + [0x64, 0x61, 0x74, 0x61, 0x3A] + gap + data + right
  }

  ghost predicate Carries(text: Text, data: Text) {
    exists left, gap, right :: Framed(text, left, gap, data, right)
  }

  /** "[DONE]" */
  predicate IsEnd(data: Text) { data == [0x5B, 0x44, 0x4F, 0x4E, 0x45, 0x5D] }

  lemma BlankJoin(a: Text, b: Text)
    requires Blank(a) && Blank(b)
    ensures Blank(a + b)
  {
  }

  /** Trimming a framed line, and then what follows "data:". */
  lemma FrameStrips(text: Text, left: Text, gap: Text, data: Text, right: Text)
    requires Framed(text, left, gap, data, right)
    ensures DATA <= Strip(text, IsSpaceChar) && Strip(Strip(text, IsSpaceChar)[5..], IsSpaceChar) == data
  {
    if data == [] {
      BlankJoin(gap, right);
      assert text == left + DATA + (gap + right);
      StripIs(left, DATA, gap + right, IsSpaceChar);
      StripIs([], [], [], IsSpaceChar);
    } else {
      var core := DATA + gap + data;
      assert text == left + core + right && core[|core| - 1] == data[|data| - 1];
      StripIs(left, core, right, IsSpaceChar);
      assert core[5..] == gap + data + [];
      StripIs(gap, data, [], IsSpaceChar);
    }
  }

  lemma StripFrames(text: Text) returns (data: Text)
    requires DATA <= Strip(text, IsSpaceChar)
    ensures Carries(text, data)
  {
    var left, right := StripParts(text, IsSpaceChar);
    var core := Strip(text, IsSpaceChar);
    var gap, more := StripParts(core[5..], IsSpaceChar);
    data := Strip(core[5..], IsSpaceChar);
    StripEnds(core[5..], IsSpaceChar);
    BlankJoin(more, right);
    assert core == DATA + core[5..];
    assert text == left + DATA + gap + data + (more + right);
    assert Framed(text, left, gap, data, more + right);
  }

  lemma CarriedData(text: Text, data: Text)
    requires Carries(text, data)
    ensures DATA <= Strip(text, IsSpaceChar) && Strip(Strip(text, IsSpaceChar)[5..], IsSpaceChar) == data
  {
    var left, gap, right :| Framed(text, left, gap, data, right);
    FrameStrips(text, left, gap, data, right);
  }

  /** A line carries one piece of data at most. */
  lemma CarriesOne(text: Text, d: Text, e: Text)
    requires Carries(text, d) && Carries(text, e)
    ensures d == e
  {
    CarriedData(text, d);
    CarriedData(text, e);
  }

  /** What a line with data does: "[DONE]" ends the reading, and for anything else the JSON decides. */
  lemma CarriedEffect(extract: Text -> Delta, raw: Bytes, data: Text)
    requires Carries(Decode(raw), data)
    ensures IsEnd(data) <==> ReadLine(extract, raw) == Stop(Finished)
    ensures !IsEnd(data) ==>
              match extract(data)
              case Nothing => ReadLine(extract, raw) == Skip
              case Raises => ReadLine(extract, raw) == Stop(Crashed)
              case Content(piece) => ReadLine(extract, raw) == if piece == [] then Skip else Emit(piece)
  {
    CarriedData(Decode(raw), data);
  }

  lemma CarriesNothing(extract: Text -> Delta, raw: Bytes)
    requires forall data :: !Carries(Decode(raw), data)
    ensures ReadLine(extract, raw) == Skip
  {
    if DATA <= Strip(Decode(raw), IsSpaceChar) {
      var data := StripFrames(Decode(raw));
    }
  }

  /** Exactly what a line does: it ends the reading if and only if it carries "[DONE]", yields a piece if
      and only if it carries data with that text, and fails if and only if its data raises. */
  lemma LineExact(extract: Text -> Delta, raw: Bytes)
    ensures ReadLine(extract, raw) == Stop(Finished) <==> exists data :: Carries(Decode(raw), data) && IsEnd(data)
    ensures forall piece :: ReadLine(extract, raw) == Emit(piece) <==>
              piece != [] &&
              exists data :: Carries(Decode(raw), data) && !IsEnd(data) && extract(data) == Content(piece)
    ensures ReadLine(extract, raw) == Stop(Crashed) <==>
              exists data :: Carries(Decode(raw), data) && !IsEnd(data) && extract(data) == Raises
    ensures ReadLine(extract, raw) != Stop(Exhausted)
  {
    if d :| Carries(Decode(raw), d) {
      CarriedEffect(extract, raw, d);
      forall e | Carries(Decode(raw), e) ensures e == d { CarriesOne(Decode(raw), d, e); }
    } else {
      CarriesNothing(extract, raw);
    }
  }

  // ---------- whole bodies ----------

  predicate OneLine(s: Bytes) { NEWLINE !in s }

  /** A body is its first line and then the rest. */
  lemma ReadFirst(extract: Text -> Delta, line: Bytes, rest: Bytes)
    requires OneLine(line)
    ensures ReadBody(extract, line + [NEWLINE] + rest) ==
            match ReadLine(extract, line)
            case Skip => ReadBody(extract, rest)
            case Emit(piece) => Output([piece] + ReadBody(extract, rest).pieces, ReadBody(extract, rest).ending)
            case Stop(ending) => Output([], ending)
  {
    var s := line + [NEWLINE] + rest;
    assert s[|line|] == NEWLINE && forall k :: 0 <= k < |line| ==> s[k] == line[k];
    assert Newline(s) == |line| by { assert forall k :: 0 <= k < |line| ==> line[k] in line; }
    assert s[..|line|] == line && s[|line| + 1..] == rest;
    assert Lines(s)[1..] == Lines(rest);
  }

  /** "data: [DONE]" */
  const END_LINE: Bytes := [0x64, 0x61, 0x74, 0x61, 0x3A, 0x20, 0x5B, 0x44, 0x4F, 0x4E, 0x45, 0x5D]

  lemma SpacedFrame(data: Text)
    requires Bare(data)
    ensures Carries([0x64, 0x61, 0x74, 0x61, 0x3A] + [0x20] + data, data)
  {
    var text := [0x64, 0x61, 0x74, 0x61, 0x3A] + [0x20] + data;
    assert [] + text + [] == text;
    assert Framed(text, [], [0x20], data, []);
  }

  lemma EndIsBare(data: Text)
    requires IsEnd(data)
    ensures Bare(data)
  {
    assert data[0] == 0x5B && data[|data| - 1] == 0x5D;
  }

  lemma EndLineIsOne()
    ensures OneLine(END_LINE)
  {
  }

  lemma EndLineIsAscii()
    ensures forall i :: 0 <= i < |END_LINE| ==> END_LINE[i] < 0x80
  {
  }

  lemma EndLineParts() returns (data: Text)
    ensures IsEnd(data) && END_LINE == [0x64, 0x61, 0x74, 0x61, 0x3A] + [0x20] + data
  {
    data := [0x5B, 0x44, 0x4F, 0x4E, 0x45, 0x5D];
  }

  lemma EndLineEnds(extract: Text -> Delta)
    ensures ReadLine(extract, END_LINE) == Stop(Finished)
  {
    var data := EndLineParts();
    EndIsBare(data);
    SpacedFrame(data);
    EndLineIsAscii();
    AsciiDecodes(END_LINE);
    CarriedEffect(extract, END_LINE, data);
  }

  lemma StopLine(extract: Text -> Delta, a: Bytes, line: Bytes, rest: Bytes)
    requires Remainder(a) == [] && ReadBody(extract, a).ending == Exhausted
    requires OneLine(line) && ReadLine(extract, line).Stop?
    ensures ReadBody(extract, a + line + [NEWLINE] + rest) ==
            Output(ReadBody(extract, a).pieces, ReadLine(extract, line).ending)
  {
    var end := line + [NEWLINE] + rest;
    assert a + line + [NEWLINE] + rest == a + end && [] + end == end;
    BodyExtends(extract, a, end);
    ReadFirst(extract, line, rest);
    assert ReadBody(extract, a).pieces + [] == ReadBody(extract, a).pieces;
  }

  /** The end marker ends the reading, whatever has come before it in whole lines and whatever follows. */
  lemma DoneStops(extract: Text -> Delta, a: Bytes, rest: Bytes)
    requires Remainder(a) == [] && ReadBody(extract, a).ending == Exhausted
    ensures ReadBody(extract, a + END_LINE + [NEWLINE] + rest) == Output(ReadBody(extract, a).pieces, Finished)
  {
    EndLineIsOne();
    EndLineEnds(extract);
    StopLine(extract, a, END_LINE, rest);
  }

  // ---------- what a server sends ----------

  /** Data that fits on one line and yields a piece. */
  predicate Sendable(extract: Text -> Delta, data: Text) {
    && Encodable(data) && data != [] && Bare(data) && (NEWLINE as Char) !in data && !IsEnd(data)
    && extract(data).Content? && extract(data).piece != []
  }

  predicate AllSendable(extract: Text -> Delta, events: seq<Text>) {
    forall i :: 0 <= i < |events| ==> Sendable(extract, events[i])
  }

  function DataLineOf(data: Text): (line: Text)
    requires Encodable(data)
    ensures Encodable(line)
  {
    [0x64, 0x61, 0x74, 0x61, 0x3A] + [0x20] + data
  }

  /** "data: ...", a newline and an empty line for each event, in UTF-8. */
  function Served(extract: Text -> Delta, events: seq<Text>): Bytes
    requires AllSendable(extract, events)
  {
    if events == [] then []
    else Encode(DataLineOf(events[0])) + [NEWLINE] + ([NEWLINE] + Served(extract, events[1..]))
  }

  function Pieces(extract: Text -> Delta, events: seq<Text>): seq<Text>
    requires AllSendable(extract, events)
  {
    if events == [] then [] else [extract(events[0]).piece] + Pieces(extract, events[1..])
  }

  lemma CharOneLine(c: Char)
    requires IsScalar(c) && c != NEWLINE as Char
    ensures OneLine(EncodeChar(c))
  {
  }

  lemma {:induction false} EncodedOneLine(t: Text)
    requires Encodable(t) && (NEWLINE as Char) !in t
    ensures OneLine(Encode(t))
  {
    if t != [] {
      assert t[0] in t;
      CharOneLine(t[0]);
      EncodedOneLine(t[1..]);
    }
  }

  lemma EventLine(extract: Text -> Delta, data: Text)
    requires Sendable(extract, data)
    ensures OneLine(Encode(DataLineOf(data)))
    ensures ReadLine(extract, Encode(DataLineOf(data))) == Emit(extract(data).piece)
  {
    var line := DataLineOf(data);
    EncodedOneLine(line);
    EncodeRoundTrip(line);
    SpacedFrame(data);
    CarriedEffect(extract, Encode(line), data);
  }

  lemma BlankLine(extract: Text -> Delta, rest: Bytes)
    ensures ReadBody(extract, [NEWLINE] + rest) == ReadBody(extract, rest)
  {
    assert Strip([], IsSpaceChar) == [];
    ReadFirst(extract, [], rest);
    assert [] + [NEWLINE] + rest == [NEWLINE] + rest;
  }

  lemma ServedStep(extract: Text -> Delta, data: Text, rest: Bytes)
    requires Sendable(extract, data)
    ensures ReadBody(extract, Encode(DataLineOf(data)) + [NEWLINE] + ([NEWLINE] + rest)) ==
            Output([extract(data).piece] + ReadBody(extract, rest).pieces, ReadBody(extract, rest).ending)
  {
    EventLine(extract, data);
    ReadFirst(extract, Encode(DataLineOf(data)), [NEWLINE] + rest);
    BlankLine(extract, rest);
  }

  /** What a server sends as events, closed by the end marker, comes out as exactly the pieces of the
      events, in order, whatever follows and wherever the chunks are cut (EventStream.StreamText). */
  lemma {:induction false} ServedReads(extract: Text -> Delta, events: seq<Text>, rest: Bytes)
    requires AllSendable(extract, events)
    ensures ReadBody(extract, Served(extract, events) + (END_LINE + [NEWLINE] + rest)) ==
            Output(Pieces(extract, events), Finished)
  {
    var end := END_LINE + [NEWLINE] + rest;
    if events == [] {
      assert [] + end == end;
      EndLineIsOne();
      EndLineEnds(extract);
      ReadFirst(extract, END_LINE, rest);
    } else {
      ServedReads(extract, events[1..], rest);
      ServedStep(extract, events[0], Served(extract, events[1..]) + end);
      Reassociate(Encode(DataLineOf(events[0])), [NEWLINE], [NEWLINE], Served(extract, events[1..]), end);
    }
  }

  lemma Reassociate(a: Bytes, b: Bytes, c: Bytes, d: Bytes, e: Bytes)
    ensures a + b + (c + d) + e == a + b + (c + (d + e))
  {
  }
}
