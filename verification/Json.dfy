/** JSON texts and values, as far as script_json (erp_core/script_json.py) needs them.

    A text is a sequence of code points, as a Python string is: lone surrogates are allowed.
    `ParseValue` is the grammar of RFC 8259; `Print` is what `json.dumps` writes. */
module Json {

  type Char = c: int | 0 <= c < 0x11_0000

  type Text = seq<Char>

  const QUOTE: Char := 0x22
  const BACKSLASH: Char := 0x5C
  const LOWER_U: Char := 0x75
  const COMMA: Char := 0x2C
  const COLON: Char := 0x3A
  const SPACE: Char := 0x20
  const LBRACKET: Char := 0x5B
  const RBRACKET: Char := 0x5D
  const LBRACE: Char := 0x7B
  const RBRACE: Char := 0x7D
  const NULL: Text := [0x6E, 0x75, 0x6C, 0x6C]
  const TRUE: Text := [0x74, 0x72, 0x75, 0x65]
  const FALSE: Text := [0x66, 0x61, 0x6C, 0x73, 0x65]

  /** A number is kept as its lexeme: reading a lexeme back is the business of the language that
      reads it. */
  datatype Value =
    | Null
    | Bool(b: bool)
    | Num(lexeme: Text)
    | Str(s: Text)
    | Arr(items: Items)
    | Obj(members: Members)

  datatype Items = NoItems | Item(value: Value, more: Items)

  datatype Members = NoMembers | Member(key: Text, value: Value, more: Members)

  // ---------- characters ----------

  predicate IsSpace(c: Char) { c in {0x20, 0x09, 0x0A, 0x0D} }

  predicate IsDigit(c: Char) { 0x30 <= c <= 0x39 }

  /** The characters numbers are made of: digits, `+`, `-`, `.`, `e`, `E`. */
  predicate IsNumberChar(c: Char) { IsDigit(c) || c in {0x2B, 0x2D, 0x2E, 0x65, 0x45} }

  predicate IsHigh(c: Char) { 0xD800 <= c <= 0xDBFF }

  predicate IsLow(c: Char) { 0xDC00 <= c <= 0xDFFF }

  function Combine(high: Char, low: Char): Char
    requires IsHigh(high) && IsLow(low)
  {
    0x1_0000 + (high - 0xD800) * 0x400 + (low - 0xDC00)
  }

  predicate IsHex(c: Char) { IsDigit(c) || 0x41 <= c <= 0x46 || 0x61 <= c <= 0x66 }

  function HexValue(c: Char): (n: int)
    requires IsHex(c)
    ensures 0 <= n < 16
  {
    if IsDigit(c) then c - 0x30 else if c <= 0x46 then c - 0x41 + 10 else c - 0x61 + 10
  }

  function HexDigit(n: int): (c: Char)
    requires 0 <= n < 16
    ensures IsHex(c) && HexValue(c) == n
  {
    if n < 10 then 0x30 + n else 0x61 + n - 10
  }

  /** `s` starts with backslash, `u` and four hex digits. */
  predicate StartsWithUnit(s: Text) {
    |s| >= 6 && s[0] == BACKSLASH && s[1] == LOWER_U
    && IsHex(s[2]) && IsHex(s[3]) && IsHex(s[4]) && IsHex(s[5])
  }

  function Unit(s: Text): Char
    requires StartsWithUnit(s)
  {
    HexValue(s[2]) * 0x1000 + HexValue(s[3]) * 0x100 + HexValue(s[4]) * 0x10 + HexValue(s[5])
  }

  /** The character a two-character escape stands for. */
  function Unescaped(c: Char): seq<Char> {
    if c in {0x22, 0x5C, 0x2F} then [c]
    else if c == 0x62 then [0x08]
    else if c == 0x66 then [0x0C]
    else if c == 0x6E then [0x0A]
    else if c == 0x72 then [0x0D]
    else if c == 0x74 then [0x09]
    else []
  }

  // ---------- parsing ----------

  datatype Parsed<T> = Bad | Good(value: T, rest: Text)

  function Cons(c: Char, p: Parsed<Text>): Parsed<Text> {
    match p case Bad => Bad case Good(t, rest) => Good([c] + t, rest)
  }

  function SkipSpace(s: Text): (r: Text)
    ensures |r| <= |s|
    ensures r == [] || !IsSpace(r[0])
  {
    if s != [] && IsSpace(s[0]) then SkipSpace(s[1..]) else s
  }

  /** The rest of a string literal, after its opening quote (section 7). */
  function ParseString(s: Text): (p: Parsed<Text>)
    ensures p.Good? ==> |p.rest| < |s|
    decreases |s|
  {
    if s == [] || s[0] < 0x20 then Bad
    else if s[0] == QUOTE then Good([], s[1..])
    else if s[0] != BACKSLASH then Cons(s[0], ParseString(s[1..]))
    else if StartsWithUnit(s) then
      if IsHigh(Unit(s)) && StartsWithUnit(s[6..]) && IsLow(Unit(s[6..]))
      then Cons(Combine(Unit(s), Unit(s[6..])), ParseString(s[12..]))
      else Cons(Unit(s), ParseString(s[6..]))
    else if |s| >= 2 && Unescaped(s[1]) != [] then
      Cons(Unescaped(s[1])[0], ParseString(s[2..]))
    else Bad
  }

  function NumberLength(s: Text): (n: nat)
    ensures n <= |s|
    ensures n < |s| ==> !IsNumberChar(s[n])
    ensures forall i :: 0 <= i < n ==> IsNumberChar(s[i])
  {
    if s != [] && IsNumberChar(s[0]) then 1 + NumberLength(s[1..]) else 0
  }

  function DigitsLength(s: Text): (n: nat)
    ensures n <= |s|
  {
    if s != [] && IsDigit(s[0]) then 1 + DigitsLength(s[1..]) else 0
  }

  /** The grammar of section 6: minus, integer part without leading zeros, fraction, exponent. */
  predicate IsNumber(l: Text) {
    var int' := if l != [] && l[0] == 0x2D then l[1..] else l;
    var n := DigitsLength(int');
    n > 0 && (int'[0] == 0x30 ==> n == 1) && IsFraction(int'[n..])
  }

  predicate IsFraction(f: Text) {
    if f != [] && f[0] == 0x2E then
      var n := DigitsLength(f[1..]);
      n > 0 && IsExponent(f[1..][n..])
    else IsExponent(f)
  }

  predicate IsExponent(e: Text) {
    e == [] ||
    (e[0] in {0x65, 0x45}
     && var d := if |e| > 1 && e[1] in {0x2B, 0x2D} then e[2..] else e[1..];
        |d| > 0 && DigitsLength(d) == |d|)
  }

  function ParseValue(s0: Text): (p: Parsed<Value>)
    ensures p.Good? ==> |p.rest| < |s0|
    decreases |s0|, 0
  {
    var s := SkipSpace(s0);
    if s == [] then Bad
    else if s[0] == QUOTE then
      (match ParseString(s[1..]) case Bad => Bad case Good(t, rest) => Good(Str(t), rest))
    else if s[0] == LBRACKET then
      var t := SkipSpace(s[1..]);
      if t != [] && t[0] == RBRACKET then Good(Arr(NoItems), t[1..])
      else (match ParseItems(s[1..]) case Bad => Bad case Good(items, rest) => Good(Arr(items), rest))
    else if s[0] == LBRACE then
      var t := SkipSpace(s[1..]);
      if t != [] && t[0] == RBRACE then Good(Obj(NoMembers), t[1..])
      else (match ParseMembers(s[1..]) case Bad => Bad case Good(ms, rest) => Good(Obj(ms), rest))
    else if IsNumberChar(s[0]) then
      var n := NumberLength(s);
      if IsNumber(s[..n]) then Good(Num(s[..n]), s[n..]) else Bad
    else ParseWord(s)
  }

  function ParseWord(s: Text): (p: Parsed<Value>)
    ensures p.Good? ==> |p.rest| < |s|
  {
    if NULL <= s then Good(Null, s[4..])
    else if TRUE <= s then Good(Bool(true), s[4..])
    else if FALSE <= s then Good(Bool(false), s[5..])
    else Bad
  }

  /** One or more items and the closing bracket. */
  function ParseItems(s: Text): (p: Parsed<Items>)
    ensures p.Good? ==> |p.rest| < |s|
    decreases |s|, 1
  {
    match ParseValue(s)
    case Bad => Bad
    case Good(v, rest) =>
      var t := SkipSpace(rest);
      if t != [] && t[0] == RBRACKET then Good(Item(v, NoItems), t[1..])
      else if t != [] && t[0] == COMMA then
        (match ParseItems(t[1..]) case Bad => Bad case Good(more, r) => Good(Item(v, more), r))
      else Bad
  }

  function ParseKey(s0: Text): (p: Parsed<Text>)
    ensures p.Good? ==> |p.rest| < |s0|
  {
    var s := SkipSpace(s0);
    if s == [] || s[0] != QUOTE then Bad
    else
      match ParseString(s[1..])
      case Bad => Bad
      case Good(key, rest) =>
        var t := SkipSpace(rest);
        if t != [] && t[0] == COLON then Good(key, t[1..]) else Bad
  }

  /** One or more members and the closing brace. */
  function ParseMembers(s: Text): (p: Parsed<Members>)
    ensures p.Good? ==> |p.rest| < |s|
    decreases |s|, 1
  {
    match ParseKey(s)
    case Bad => Bad
    case Good(key, afterKey) =>
      match ParseValue(afterKey)
      case Bad => Bad
      case Good(v, rest) =>
        var t := SkipSpace(rest);
        if t != [] && t[0] == RBRACE then Good(Member(key, v, NoMembers), t[1..])
        else if t != [] && t[0] == COMMA then
          (match ParseMembers(t[1..]) case Bad => Bad case Good(more, r) => Good(Member(key, v, more), r))
        else Bad
  }

  /** A text that holds exactly one value, and nothing but white space around it. */
  predicate Parses(s: Text, v: Value) {
    var p := ParseValue(s);
    p.Good? && p.value == v && SkipSpace(p.rest) == []
  }

  // ---------- printing ----------

  function UnitEscape(u: Char): (s: Text)
    requires u < 0x1_0000
    ensures StartsWithUnit(s) && |s| == 6 && Unit(s) == u
  {
    var u3 := u / 0x10;
    var u2 := u3 / 0x10;
    var u1 := u2 / 0x10;
    [BACKSLASH, LOWER_U, HexDigit(u1), HexDigit(u2 % 0x10), HexDigit(u3 % 0x10), HexDigit(u % 0x10)]
  }

  /** The letter of the two-character escape of `c`, if it has one. */
  function ShortEscape(c: Char): (e: seq<Char>)
    ensures e != [] ==> |e| == 1 && e[0] != LOWER_U && Unescaped(e[0]) == [c]
  {
    if c == QUOTE || c == BACKSLASH then [c]
    else if c == 0x08 then [0x62]
    else if c == 0x0C then [0x66]
    else if c == 0x0A then [0x6E]
    else if c == 0x0D then [0x72]
    else if c == 0x09 then [0x74]
    else []
  }

  /** The surrogates that stand for `c`. */
  function HighOf(c: Char): (h: Char)
    requires c >= 0x1_0000
    ensures IsHigh(h)
  {
    0xD800 + (c - 0x1_0000) / 0x400
  }

  function LowOf(c: Char): (l: Char)
    requires c >= 0x1_0000
    ensures IsLow(l)
  {
    0xDC00 + (c - 0x1_0000) % 0x400
  }

  function PairEscape(c: Char): Text
    requires c >= 0x1_0000
  {
    UnitEscape(HighOf(c)) + UnitEscape(LowOf(c))
  }

  predicate PrintedAsUnit(c: Char, ascii: bool) {
    c < 0x20 || (ascii && 0x7F <= c < 0x1_0000)
  }

  function PrintChar(c: Char, ascii: bool): Text {
    if ShortEscape(c) != [] then [BACKSLASH] + ShortEscape(c)
    else if PrintedAsUnit(c, ascii) then UnitEscape(c)
    else if ascii && c >= 0x1_0000 then PairEscape(c)
    else [c]
  }

  function PrintChars(t: Text, ascii: bool): Text {
    if t == [] then [] else PrintChar(t[0], ascii) + PrintChars(t[1..], ascii)
  }

  function PrintString(t: Text, ascii: bool): Text {
    [QUOTE] + PrintChars(t, ascii) + [QUOTE]
  }

  /** `json.dumps(v, ensure_ascii=ascii)`, with its default separators. */
  function Print(v: Value, ascii: bool): Text {
    match v
    case Null => NULL
    case Bool(b) => if b then TRUE else FALSE
    case Num(l) => l
    case Str(t) => PrintString(t, ascii)
    case Arr(items) => [LBRACKET] + PrintItems(items, ascii) + [RBRACKET]
    case Obj(ms) => [LBRACE] + PrintMembers(ms, ascii) + [RBRACE]
  }

  function PrintItems(items: Items, ascii: bool): Text {
    match items
    case NoItems => []
    case Item(v, more) =>
      Print(v, ascii) + if more == NoItems then [] else [COMMA, SPACE] + PrintItems(more, ascii)
  }

  function PrintMembers(ms: Members, ascii: bool): Text {
    match ms
    case NoMembers => []
    case Member(key, v, more) =>
      PrintString(key, ascii) + [COLON, SPACE] + Print(v, ascii)
      + if more == NoMembers then [] else [COMMA, SPACE] + PrintMembers(more, ascii)
  }

  /** Every number of the value is a JSON number. */
  predicate Printable(v: Value) {
    match v
    case Num(l) => IsNumber(l)
    case Arr(items) => ItemsPrintable(items)
    case Obj(ms) => MembersPrintable(ms)
    case _ => true
  }

  predicate ItemsPrintable(items: Items) {
    items.Item? ==> Printable(items.value) && ItemsPrintable(items.more)
  }

  predicate MembersPrintable(ms: Members) {
    ms.Member? ==> Printable(ms.value) && MembersPrintable(ms.more)
  }
}
