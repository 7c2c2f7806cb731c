/** Base64 (section 4 of RFC 4648): what `base64.b64encode` writes, and a strict decoder. */
module Base64 {
  import opened Json
  import opened Utf8

  const PAD: Char := 0x3D

  type Sextet = n: int | 0 <= n < 64

  predicate InAlphabet(c: Char) {
    0x41 <= c <= 0x5A || 0x61 <= c <= 0x7A || 0x30 <= c <= 0x39 || c == 0x2B || c == 0x2F
  }

  function ToChar(n: Sextet): (c: Char)
    ensures InAlphabet(c) && FromChar(c) == n
  {
    if n < 26 then 0x41 + n
    else if n < 52 then 0x61 + n - 26
    else if n < 62 then 0x30 + n - 52
    else if n == 62 then 0x2B else 0x2F
  }

  function FromChar(c: Char): Sextet
    requires InAlphabet(c)
  {
    if 0x41 <= c <= 0x5A then c - 0x41
    else if 0x61 <= c <= 0x7A then c - 0x61 + 26
    else if 0x30 <= c <= 0x39 then c - 0x30 + 52
    else if c == 0x2B then 62 else 63
  }

  lemma By16(x: nat, y: nat)
    requires y < 16
    ensures (x * 16 + y) / 16 == x && (x * 16 + y) % 16 == y
  {
  }

  lemma By4(x: nat, y: nat)
    requires y < 4
    ensures (x * 4 + y) / 4 == x && (x * 4 + y) % 4 == y
  {
  }

  /** Three bytes as four sextets. */
  function Group(a: Byte, b: Byte, c: Byte): (g: (Sextet, Sextet, Sextet, Sextet))
    ensures Bytes3(g.0, g.1, g.2, g.3) == (a, b, c)
    ensures c == 0 ==> g.3 == 0
    ensures b == 0 && c == 0 ==> g.2 == 0
    ensures c == 0 ==> g.2 % 4 == 0
    ensures b == 0 ==> g.1 % 16 == 0
  {
    By16(a % 4, b / 16);
    By4(b % 16, c / 64);
    (a / 4, a % 4 * 16 + b / 16, b % 16 * 4 + c / 64, c % 64)
  }

  function Bytes3(p: Sextet, q: Sextet, r: Sextet, s: Sextet): (Byte, Byte, Byte) {
    (p * 4 + q / 16, q % 16 * 16 + r / 4, r % 4 * 64 + s)
  }

  function Encode64(s: Bytes): Text {
    if s == [] then []
    else if |s| == 1 then
      var g := Group(s[0], 0, 0);
      [ToChar(g.0), ToChar(g.1), PAD, PAD]
    else if |s| == 2 then
      var g := Group(s[0], s[1], 0);
      [ToChar(g.0), ToChar(g.1), ToChar(g.2), PAD]
    else
      var g := Group(s[0], s[1], s[2]);
      [ToChar(g.0), ToChar(g.1), ToChar(g.2), ToChar(g.3)] + Encode64(s[3..])
  }

  datatype Decoded<T> = Malformed | Ok(value: T)

  /** Rejects foreign characters, misplaced padding and padding bits that are not zero. */
  function Decode64(t: Text): Decoded<Bytes> {
    if t == [] then Ok([])
    else if |t| < 4 || !InAlphabet(t[0]) || !InAlphabet(t[1]) then Malformed
    else
      var p, q := FromChar(t[0]), FromChar(t[1]);
      if |t| == 4 && t[2] == PAD && t[3] == PAD then
        if q % 16 == 0 then Ok([Bytes3(p, q, 0, 0).0]) else Malformed
      else if !InAlphabet(t[2]) then Malformed
      else
        var r := FromChar(t[2]);
        if |t| == 4 && t[3] == PAD then
          if r % 4 == 0 then Ok([Bytes3(p, q, r, 0).0, Bytes3(p, q, r, 0).1]) else Malformed
        else if !InAlphabet(t[3]) then Malformed
        else
          var b := Bytes3(p, q, r, FromChar(t[3]));
          match Decode64(t[4..])
          case Malformed => Malformed
          case Ok(rest) => Ok([b.0, b.1, b.2] + rest)
  }

  lemma FullGroupReads(a: Byte, b: Byte, c: Byte, rest: Text)
    ensures var g := Group(a, b, c);
      var t := [ToChar(g.0), ToChar(g.1), ToChar(g.2), ToChar(g.3)] + rest;
      Decode64(t) == match Decode64(rest)
        case Malformed => Malformed
        case Ok(more) => Ok([a, b, c] + more)
  {
    var g := Group(a, b, c);
    var t := [ToChar(g.0), ToChar(g.1), ToChar(g.2), ToChar(g.3)] + rest;
    assert t[4..] == rest;
    assert t[0] == ToChar(g.0) && t[1] == ToChar(g.1) && t[2] == ToChar(g.2) && t[3] == ToChar(g.3);
  }

  lemma TwoBytesRead(a: Byte, b: Byte)
    ensures Decode64(Encode64([a, b])) == Ok([a, b])
  {
  }

  lemma OneByteReads(a: Byte)
    ensures Decode64(Encode64([a])) == Ok([a])
  {
  }

  /** The alphabet of Table 1. */
  lemma AlphabetExact(n: Sextet)
    ensures n < 26 ==> ToChar(n) == 'A' as int + n
    ensures 26 <= n < 52 ==> ToChar(n) == 'a' as int + n - 26
    ensures 52 <= n < 62 ==> ToChar(n) == '0' as int + n - 52
    ensures ToChar(62) == '+' as int && ToChar(63) == '/' as int
  {
  }

  predicate EndsIn(t: Text, pads: nat) {
    pads <= |t| && forall i :: 0 <= i < |t| ==> (t[i] == '=' as int <==> i >= |t| - pads)
  }

  function Missing(n: nat): nat { if n % 3 == 0 then 0 else 3 - n % 3 }

  lemma GroupInFront(head: Text, t: Text, pads: nat)
    requires EndsIn(head, 0) && EndsIn(t, pads)
    ensures EndsIn(head + t, pads)
  {
  }

  lemma NoPads(head: Text)
    requires forall i :: 0 <= i < |head| ==> InAlphabet(head[i])
    ensures EndsIn(head, 0)
  {
  }

  lemma FirstGroup(s: Bytes) returns (head: Text)
    requires |s| >= 3
    ensures |head| == 4 && EndsIn(head, 0) && Encode64(s) == head + Encode64(s[3..])
  {
    var g := Group(s[0], s[1], s[2]);
    head := [ToChar(g.0), ToChar(g.1), ToChar(g.2), ToChar(g.3)];
    NoPads(head);
  }

  lemma LastGroup(s: Bytes)
    requires 1 <= |s| <= 2
    ensures |Encode64(s)| == 4 && EndsIn(Encode64(s), 3 - |s|)
  {
  }

  /** Four characters for every three bytes or what is left of them, the last ones `=` for each byte that is
      missing. */
  predicate PaddedFor(t: Text, n: nat) { |t| == 4 * ((n + 2) / 3) && EndsIn(t, Missing(n)) }

  lemma MorePadded(head: Text, more: Text, n: nat)
    requires |head| == 4 && EndsIn(head, 0) && PaddedFor(more, n)
    ensures PaddedFor(head + more, n + 3)
  {
    GroupInFront(head, more, Missing(n));
  }

  lemma {:induction false} PaddingExact(s: Bytes)
    ensures PaddedFor(Encode64(s), |s|)
  {
    if |s| >= 3 {
      PaddingExact(s[3..]);
      var head := FirstGroup(s);
      MorePadded(head, Encode64(s[3..]), |s| - 3);
    } else if s != [] {
      LastGroup(s);
    }
  }

  /** Decoding undoes encoding, for every byte string. */
  lemma {:induction false} Base64RoundTrip(s: Bytes)
    ensures Decode64(Encode64(s)) == Ok(s)
  {
    if |s| >= 3 {
      Base64RoundTrip(s[3..]);
      FullGroupReads(s[0], s[1], s[2], Encode64(s[3..]));
      assert [s[0], s[1], s[2]] + s[3..] == s;
    } else if |s| == 2 {
      assert s == [s[0], s[1]];
      TwoBytesRead(s[0], s[1]);
    } else if |s| == 1 {
      assert s == [s[0]];
      OneByteReads(s[0]);
    }
  }
}
