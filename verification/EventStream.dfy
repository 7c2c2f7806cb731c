/** stream_llm_text of inventory/ai_services.py: a response body that arrives in arbitrary byte
    chunks is cut into lines, and each line is decoded and read on its own. */
module EventStream {
  import opened Json
  import opened Utf8
  import opened Texts

  const DATA: Text := [0x64, 0x61, 0x74, 0x61, 0x3A]           // data:
  const DONE: Text := [0x5B, 0x44, 0x4F, 0x4E, 0x45, 0x5D]     // [DONE]

  /** What the JSON of an event yields: its text, nothing usable, or an error nobody catches. */
  datatype Delta = Content(piece: Text) | Nothing | Raises

  datatype Ending = Exhausted | Finished | Crashed

  datatype Output = Output(pieces: seq<Text>, ending: Ending)

  datatype LineEffect = Skip | Emit(piece: Text) | Stop(ending: Ending)

  // ---------- one line ----------

  function LineText(extract: Text -> Delta, text: Text): LineEffect {
    var line := Strip(text, IsSpaceChar);
    if !(DATA <= line) then Skip
    else
      var data := Strip(line[5..], IsSpaceChar);
      if data == DONE then Stop(Finished) else Effect(extract(data))
  }

  function Effect(delta: Delta): LineEffect {
    match delta
    case Nothing => Skip
    case Raises => Stop(Crashed)
    case Content(piece) => if piece == [] then Skip else Emit(piece)
  }

  function ReadLine(extract: Text -> Delta, raw: Bytes): LineEffect {
    LineText(extract, Decode(raw))
  }

  // ---------- the whole body at once ----------

  function Newline(s: Bytes): (i: nat)
    ensures i <= |s|
    ensures i < |s| ==> s[i] == NEWLINE
    ensures forall k :: 0 <= k < i ==> s[k] != NEWLINE
  {
    if s == [] || s[0] == NEWLINE then 0 else 1 + Newline(s[1..])
  }

  /** The newline-terminated lines of a body. */
  function Lines(s: Bytes): seq<Bytes>
    decreases |s|
  {
    var i := Newline(s);
    if i == |s| then [] else [s[..i]] + Lines(s[i + 1..])
  }

  /** What follows the last newline. */
  function Remainder(s: Bytes): Bytes
    decreases |s|
  {
    var i := Newline(s);
    if i == |s| then s else Remainder(s[i + 1..])
  }

  function ReadLines(extract: Text -> Delta, lines: seq<Bytes>): Output {
    if lines == [] then Output([], Exhausted)
    else
      match ReadLine(extract, lines[0])
      case Stop(ending) => Output([], ending)
      case Skip => ReadLines(extract, lines[1..])
      case Emit(piece) =>
        var out := ReadLines(extract, lines[1..]);
        Output([piece] + out.pieces, out.ending)
  }

  function ReadBody(extract: Text -> Delta, body: Bytes): Output {
    ReadLines(extract, Lines(body))
  }

  function Joined(chunks: seq<Bytes>): Bytes {
    if chunks == [] then [] else Joined(chunks[..|chunks| - 1]) + chunks[|chunks| - 1]
  }

  // ---------- lemmas about cutting ----------

  /** The first line of a body with a newline, and the rest. */
  lemma CutLine(s: Bytes, t: Bytes)
    requires Newline(s) < |s|
    ensures var i := Newline(s);
      && Newline(s + t) == i
      && (s + t)[..i] == s[..i] && (s + t)[i + 1..] == s[i + 1..] + t
  {
    var i := Newline(s);
    assert (s + t)[i] == s[i] && forall k :: 0 <= k < i ==> (s + t)[k] == s[k];
  }

  lemma FirstLine(s: Bytes, t: Bytes)
    requires Newline(s) < |s|
    ensures var i := Newline(s);
      && Lines(s) == [s[..i]] + Lines(s[i + 1..])
      && Lines(s + t) == [s[..i]] + Lines(s[i + 1..] + t)
      && Remainder(s) == Remainder(s[i + 1..])
  {
    CutLine(s, t);
  }

  /** More bytes extend the lines and never change those already cut. */
  lemma {:induction false} LinesExtend(s: Bytes, t: Bytes)
    ensures Lines(s + t) == Lines(s) + Lines(Remainder(s) + t)
    decreases |s|
  {
    var i := Newline(s);
    if i == |s| {
      EmptyFirst(Lines(s + t));
    } else {
      var first, rest := [s[..i]], s[i + 1..];
      FirstLine(s, t);
      LinesExtend(rest, t);
      Regroup(first, Lines(rest), Lines(Remainder(rest) + t));
    }
  }

  lemma EmptyFirst(a: seq<Bytes>)
    ensures [] + a == a
  {
  }

  lemma Regroup(a: seq<Bytes>, b: seq<Bytes>, c: seq<Bytes>)
    ensures a + (b + c) == a + b + c
  {
  }

  lemma {:induction false} RemainderExtends(s: Bytes, t: Bytes)
    ensures Remainder(s + t) == Remainder(Remainder(s) + t)
    decreases |s|
  {
    if Newline(s) < |s| {
      CutLine(s, t);
      RemainderExtends(s[Newline(s) + 1..], t);
    }
  }

  function Then(a: Output, b: Output): Output {
    if a.ending != Exhausted then a else Output(a.pieces + b.pieces, b.ending)
  }

  /** Later lines only add pieces, and nothing after a stop. */
  lemma {:induction false} ReadAppend(extract: Text -> Delta, lines: seq<Bytes>, more: seq<Bytes>)
    ensures ReadLines(extract, lines + more) == Then(ReadLines(extract, lines), ReadLines(extract, more))
  {
    if lines == [] {
      assert lines + more == more;
    } else {
      assert (lines + more)[1..] == lines[1..] + more;
      ReadAppend(extract, lines[1..], more);
      var a, b := ReadLines(extract, lines[1..]), ReadLines(extract, more);
      match ReadLine(extract, lines[0])
      case Emit(piece) =>
        assert ([piece] + a.pieces) + b.pieces == [piece] + (a.pieces + b.pieces);
      case _ =>
    }
  }

  /** The last line of a body is read only if a newline ends it.  Reading all of the split body gives the
      same if and only if reading has stopped before the end or that line would be skipped. */
  lemma LastLineExact(extract: Text -> Delta, body: Bytes)
    ensures ReadLines(extract, Lines(body) + [Remainder(body)]) == ReadBody(extract, body)
      <==> ReadBody(extract, body).ending != Exhausted || ReadLine(extract, Remainder(body)) == Skip
  {
    ReadAppend(extract, Lines(body), [Remainder(body)]);
    assert [Remainder(body)][1..] == [];
  }

  /** "data: x", the rest of a body that no newline ends: what it holds is never read. */
  const UNENDED: Bytes := [0x64, 0x61, 0x74, 0x61, 0x3A, 0x20, 0x78]

  lemma {:induction false} AsciiDecodes(s: Bytes)
    requires forall i :: 0 <= i < |s| ==> s[i] < 0x80
    ensures Decode(s) == s
  {
    if s != [] {
      AsciiDecodes(s[1..]);
      assert [s[0]] + s[1..] == s;
    }
  }

  lemma DataLine(extract: Text -> Delta, line: Text, data: Text)
    requires line == DATA + [0x20] + data && data != []
    requires !IsSpaceChar(data[0]) && !IsSpaceChar(data[|data| - 1]) && data != DONE
    ensures LineText(extract, line) == Effect(extract(data))
  {
    NothingToStrip(line, IsSpaceChar);
    StripIs([0x20], data, [], IsSpaceChar);
    assert line[5..] == [0x20] + data + [];
  }

  lemma UnreadLine(extract: Text -> Delta, piece: Text)
    requires extract([0x78]) == Content(piece) && piece != []
    ensures ReadBody(extract, UNENDED) == Output([], Exhausted)
    ensures ReadLines(extract, Lines(UNENDED) + [Remainder(UNENDED)]) == Output([piece], Exhausted)
  {
    AsciiDecodes(UNENDED);
    DataLine(extract, UNENDED, [0x78]);
    assert Lines(UNENDED) + [Remainder(UNENDED)] == [UNENDED];
    assert ReadLines(extract, [UNENDED][1..]) == Output([], Exhausted);
  }

  lemma BodyExtends(extract: Text -> Delta, s: Bytes, t: Bytes)
    ensures ReadBody(extract, s + t) == Then(ReadBody(extract, s), ReadBody(extract, Remainder(s) + t))
  {
    LinesExtend(s, t);
    ReadAppend(extract, Lines(s), Lines(Remainder(s) + t));
  }

  // ---------- the generator ----------

  /** The inner loop: takes the complete lines off `buf0`. */
  method TakeLines(extract: Text -> Delta, buf0: Bytes) returns (out: Output, buf: Bytes)
    ensures out == ReadBody(extract, buf0)
    ensures out.ending == Exhausted ==> buf == Remainder(buf0)
  {
    var pieces: seq<Text> := [];
    buf := buf0;
    while Newline(buf) < |buf|
      invariant ReadBody(extract, buf0) == Then(Output(pieces, Exhausted), ReadBody(extract, buf))
      invariant Remainder(buf0) == Remainder(buf)
      decreases |buf|
    {
      var i := Newline(buf);
      var raw := buf[..i];
      assert Lines(buf)[1..] == Lines(buf[i + 1..]);
      buf := buf[i + 1..];
      match ReadLine(extract, raw)
      case Skip =>
      case Emit(piece) => pieces := pieces + [piece];
      case Stop(ending) => return Output(pieces, ending), buf;
    }
    out := Output(pieces, Exhausted);
  }

  /** Collects what the generator yields from these chunks, and how it ends.  The result is a
      function of the joined body: where the chunks were cut does not matter. */
  method StreamText(extract: Text -> Delta, chunks: seq<Bytes>) returns (out: Output)
    ensures out == ReadBody(extract, Joined(chunks))
  {
    var buf: Bytes := [];
    out := Output([], Exhausted);
    for k := 0 to |chunks|
      invariant buf == Remainder(Joined(chunks[..k]))
      invariant out == ReadBody(extract, Joined(chunks[..k])) && out.ending == Exhausted
    {
      assert chunks[..k + 1][..k] == chunks[..k];
      if chunks[k] == [] {
        assert Joined(chunks[..k]) + [] == Joined(chunks[..k]);
      } else {
        RemainderExtends(Joined(chunks[..k]), chunks[k]);
        BodyExtends(extract, Joined(chunks[..k]), chunks[k]);
        var more;
        more, buf := TakeLines(extract, buf + chunks[k]);
        out := Output(out.pieces + more.pieces, more.ending);
        if more.ending != Exhausted {
          FirstChunks(extract, chunks, k + 1);
          return;
        }
      }
    }
    assert chunks[..|chunks|] == chunks;
  }

  lemma {:induction false} JoinedSplit(chunks: seq<Bytes>, k: nat)
    requires k <= |chunks|
    ensures Joined(chunks) == Joined(chunks[..k]) + Joined(chunks[k..])
  {
    if k == |chunks| {
      assert chunks[..k] == chunks && chunks[k..] == [];
    } else {
      var n := |chunks| - 1;
      JoinedSplit(chunks[..n], k);
      assert chunks[..n][..k] == chunks[..k] && chunks[..n][k..] == chunks[k..][..n - k];
    }
  }

  /** What a connection that breaks after `k` chunks has yielded is a prefix of the full answer,
      and all of it once the stream has ended. */
  lemma FirstChunks(extract: Text -> Delta, chunks: seq<Bytes>, k: nat)
    requires k <= |chunks|
    ensures var part, whole := ReadBody(extract, Joined(chunks[..k])), ReadBody(extract, Joined(chunks));
      part.pieces <= whole.pieces && (part.ending != Exhausted ==> whole == part)
  {
    JoinedSplit(chunks, k);
    BodyExtends(extract, Joined(chunks[..k]), Joined(chunks[k..]));
  }

  // ---------- decoding line by line loses nothing ----------

  function TextNewline(t: Text): (i: nat)
    ensures i <= |t|
    ensures i < |t| ==> t[i] == NEWLINE
  {
    if t == [] || t[0] == NEWLINE then 0 else 1 + TextNewline(t[1..])
  }

  function TextLines(t: Text): seq<Text>
    decreases |t|
  {
    var i := TextNewline(t);
    if i == |t| then [] else [t[..i]] + TextLines(t[i + 1..])
  }

  function DecodeAll(lines: seq<Bytes>): seq<Text> {
    if lines == [] then [] else [Decode(lines[0])] + DecodeAll(lines[1..])
  }

  lemma {:induction false} DecodeNoNewline(s: Bytes)
    requires forall k :: 0 <= k < |s| ==> s[k] != NEWLINE
    ensures TextNewline(Decode(s)) == |Decode(s)|
    decreases |s|
  {
    if s != [] {
      var n := if CharLength(s) > 0 then CharLength(s) else 1;
      DecodeNoNewline(s[n..]);
      if CharLength(s) > 0 { assert Decode(s)[1..] == Decode(s[n..]); }
    }
  }

  lemma {:induction false} TextNewlineAfter(t: Text, u: Text)
    requires TextNewline(t) == |t|
    ensures TextNewline(t + [NEWLINE as Char] + u) == |t|
  {
    var s := t + [NEWLINE as Char] + u;
    if t != [] {
      assert s[1..] == t[1..] + [NEWLINE as Char] + u;
      TextNewlineAfter(t[1..], u);
    }
  }

  /** Decoding one line `a` and the rest `b` separately cuts the text at the same place. */
  lemma TextLinesCut(a: Bytes, b: Bytes)
    requires forall k :: 0 <= k < |a| ==> a[k] != NEWLINE
    ensures TextLines(Decode(a + [NEWLINE] + b)) == [Decode(a)] + TextLines(Decode(b))
  {
    DecodeAroundNewline(a, b);
    DecodeNoNewline(a);
    TextNewlineAfter(Decode(a), Decode(b));
    var t := Decode(a) + [NEWLINE as Char] + Decode(b);
    assert t[..|Decode(a)|] == Decode(a) && t[|Decode(a)| + 1..] == Decode(b);
  }

  /** Cutting the bytes and decoding each line gives the lines of the decoded body: decoding line
      by line loses nothing, for every body. */
  lemma {:induction false} DecodeLinewise(s: Bytes)
    ensures DecodeAll(Lines(s)) == TextLines(Decode(s))
    decreases |s|
  {
    var i := Newline(s);
    if i == |s| {
      DecodeNoNewline(s);
    } else {
      assert s == s[..i] + [NEWLINE] + s[i + 1..];
      DecodeLinewise(s[i + 1..]);
      TextLinesCut(s[..i], s[i + 1..]);
      assert Lines(s)[1..] == Lines(s[i + 1..]);
    }
  }

  predicate AllValid(lines: seq<Bytes>) {
    forall i :: 0 <= i < |lines| ==> Valid(lines[i])
  }

  lemma AllValidCons(first: Bytes, rest: seq<Bytes>)
    ensures AllValid([first] + rest) <==> Valid(first) && AllValid(rest)
  {
    var lines := [first] + rest;
    assert lines[0] == first && forall j :: 0 <= j < |rest| ==> lines[j + 1] == rest[j];
  }

  /** A body is valid UTF-8 exactly when each of its lines and its remainder are. */
  lemma {:induction false} ValidLinewise(s: Bytes)
    ensures Valid(s) <==> AllValid(Lines(s)) && Valid(Remainder(s))
    decreases |s|
  {
    var i := Newline(s);
    if i < |s| {
      var a, b := s[..i], s[i + 1..];
      assert s == a + [NEWLINE] + b;
      ValidLinewise(b);
      DecodeAroundNewline(a, b);
      assert Lines(s) == [a] + Lines(b);
      AllValidCons(a, Lines(b));
    }
  }
}
