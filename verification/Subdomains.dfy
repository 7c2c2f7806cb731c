/** The shop address a new tenant asks for: cleaning it (TenantSignupForm.clean_subdomain in
    clients/forms.py), the schema and the domain made from it (clients/signals.py,
    clients/views/auth_views.py). */
module Subdomains {
  import opened Json
  import opened Options
  import opened Texts

  const DASH: Char := 0x2D
  const UNDERSCORE: Char := 0x5F

  // ---------- characters ----------

  predicate IsDash(c: Char) { c == DASH }

  /** The class [\s_] */
  predicate IsGap(c: Char) { IsSpaceChar(c) || c == UNDERSCORE }

  predicate IsLowerLetter(c: Char) { 0x61 <= c <= 0x7A }

  predicate IsLabelChar(c: Char) { IsLowerLetter(c) || IsDigit(c) || c == DASH }

  function LowerAscii(c: Char): Char { if 0x41 <= c <= 0x5A then c + 32 else c }

  predicate Ascii(t: Text) { forall i :: 0 <= i < |t| ==> t[i] < 128 }

  /** All that is used of Python's `str.lower`: what it does to ASCII text. */
  ghost predicate LowersAscii(lower: Text -> Text) {
    forall t :: Ascii(t) ==> |lower(t)| == |t| && forall i :: 0 <= i < |t| ==> lower(t)[i] == LowerAscii(t[i])
  }

  // ---------- cleaning ----------

  /** Every run of spaces and underscores becomes one dash. */
  function Dashed(t: Text): Text
    decreases |t|
  {
    if t == [] then []
    else if IsGap(t[0]) then
      StripLeftShorter(t[1..], IsGap);
      [DASH] + Dashed(StripLeft(t[1..], IsGap))
    else [t[0]] + Dashed(t[1..])
  }

  /** ^[a-z][a-z0-9-]{2,49}$ */
  predicate WellFormed(t: Text) {
    3 <= |t| <= 50 && IsLowerLetter(t[0]) && forall i :: 1 <= i < |t| ==> IsLabelChar(t[i])
  }

  predicate HasDoubleDash(t: Text) { exists i :: 0 <= i < |t| - 1 && t[i] == DASH && t[i + 1] == DASH }

  function Replaced(t: Text, old_: Char, new_: Char): Text {
    seq(|t|, i requires 0 <= i < |t| => if t[i] == old_ then new_ else t[i])
  }

  function ToSchema(t: Text): Text { Replaced(t, DASH, UNDERSCORE) }

  function ToLabel(schema: Text): Text { Replaced(schema, UNDERSCORE, DASH) }

  /** What the form compares against: fixed words, and the names in use. */
  datatype Names = Names(words: set<Text>, reservedSchemas: set<Text>, schemas: set<Text>, labels: set<Text>)

  datatype Answer = Name(text: Text) | BadForm | DoubleDash | ReservedWord | InUse

  function Normal(lower: Text -> Text, x: Text): Text { Strip(Dashed(lower(Strip(x, IsSpaceChar))), IsDash) }

  function Clean(lower: Text -> Text, names: Names, x: Text): Answer {
    if x == [] then Name([])
    else
      var t := Normal(lower, x);
      if t == [] then Name([])
      else if !WellFormed(t) then BadForm
      else if HasDoubleDash(t) then DoubleDash
      else if t in names.words || ToSchema(t) in names.reservedSchemas then ReservedWord
      else if ToSchema(t) in names.schemas || t in names.labels then InUse
      else Name(t)
  }

  // ---------- joining ----------

  predicate NoGap(t: Text) { forall i :: 0 <= i < |t| ==> !IsGap(t[i]) }

  predicate AllGap(t: Text) { forall i :: 0 <= i < |t| ==> IsGap(t[i]) }

  lemma {:induction false} WordStays(t: Text)
    requires NoGap(t)
    ensures Dashed(t) == t
  {
    if t != [] { WordStays(t[1..]); }
  }

  lemma {:induction false} SkipGap(gap: Text, rest: Text)
    requires AllGap(gap) && (rest != [] ==> !IsGap(rest[0]))
    ensures StripLeft(gap + rest, IsGap) == rest
  {
    if gap == [] {
      assert gap + rest == rest;
    } else {
      assert (gap + rest)[1..] == gap[1..] + rest;
      SkipGap(gap[1..], rest);
    }
  }

  /** Words stay as they are and any gap between them, of whatever kind and width, becomes one dash. */
  lemma {:induction false} GapIsOneDash(word: Text, gap: Text, rest: Text)
    requires NoGap(word) && gap != [] && AllGap(gap) && (rest != [] ==> !IsGap(rest[0]))
    ensures Dashed(word + gap + rest) == word + [DASH] + Dashed(rest)
    decreases |word|
  {
    var t := word + gap + rest;
    if word == [] {
      assert t[1..] == gap[1..] + rest;
      SkipGap(gap[1..], rest);
    } else {
      assert t[1..] == word[1..] + gap + rest;
      GapIsOneDash(word[1..], gap, rest);
    }
  }

  // ---------- what is accepted ----------

  /** A label of section 2.3.1 of RFC 1035, in lower case. */
  predicate DnsLabel(t: Text) {
    && 1 <= |t| <= 63 && IsLowerLetter(t[0]) && t[|t| - 1] != DASH
    && forall i :: 0 <= i < |t| ==> IsLabelChar(t[i])
  }

  /** An accepted name is a DNS label. */
  lemma AcceptedIsLabel(lower: Text -> Text, names: Names, x: Text)
    requires Clean(lower, names, x).Name? && Clean(lower, names, x).text != []
    ensures DnsLabel(Clean(lower, names, x).text)
    ensures 3 <= |Clean(lower, names, x).text| <= 50 && !HasDoubleDash(Clean(lower, names, x).text)
  {
    StripEnds(Dashed(lower(Strip(x, IsSpaceChar))), IsDash);
  }

  lemma LabelChars(c: Char)
    requires IsLabelChar(c)
    ensures !IsSpaceChar(c) && !IsGap(c) && LowerAscii(c) == c && c < 128
  {
  }

  lemma LabelIsLower(lower: Text -> Text, t: Text)
    requires LowersAscii(lower) && DnsLabel(t)
    ensures lower(t) == t && NoGap(t) && !IsSpaceChar(t[0]) && !IsSpaceChar(t[|t| - 1])
  {
    forall i | 0 <= i < |t| ensures !IsSpaceChar(t[i]) && !IsGap(t[i]) && LowerAscii(t[i]) == t[i] && t[i] < 128 {
      LabelChars(t[i]);
    }
    assert Ascii(t);
  }

  /** Names in this form pass the cleaning unchanged. */
  lemma NormalOfLabel(lower: Text -> Text, t: Text)
    requires LowersAscii(lower) && DnsLabel(t)
    ensures Normal(lower, t) == t
  {
    LabelIsLower(lower, t);
    NothingToStrip(t, IsSpaceChar);
    WordStays(t);
    NothingToStrip(t, IsDash);
  }

  /** Cleaning is idempotent: what it accepts it accepts again, unchanged. */
  lemma CleanIdempotent(lower: Text -> Text, names: Names, x: Text)
    requires LowersAscii(lower) && Clean(lower, names, x).Name?
    ensures Clean(lower, names, Clean(lower, names, x).text) == Clean(lower, names, x)
  {
    if Clean(lower, names, x).text != [] {
      AcceptedIsLabel(lower, names, x);
      NormalOfLabel(lower, Clean(lower, names, x).text);
    }
  }

  /** A name survives the way to its schema and back if and only if it has no underscore. */
  lemma SchemaRoundTrip(t: Text)
    ensures ToLabel(ToSchema(t)) == t <==> forall i :: 0 <= i < |t| ==> t[i] != UNDERSCORE
  {
    var back := ToLabel(ToSchema(t));
    assert forall i :: 0 <= i < |t| ==> (back[i] == t[i] <==> t[i] != UNDERSCORE);
    if forall i :: 0 <= i < |t| ==> t[i] != UNDERSCORE { assert back == t; }
  }

  /** Every accepted name comes back from its schema, so distinct names have distinct schemas. */
  lemma AcceptedRoundTrip(lower: Text -> Text, names: Names, x: Text, y: Text)
    requires Clean(lower, names, x).Name? && Clean(lower, names, y).Name?
    ensures ToLabel(ToSchema(Clean(lower, names, x).text)) == Clean(lower, names, x).text
    ensures ToSchema(Clean(lower, names, x).text) == ToSchema(Clean(lower, names, y).text) ==>
              Clean(lower, names, x).text == Clean(lower, names, y).text
  {
    var s, t := Clean(lower, names, x).text, Clean(lower, names, y).text;
    if s != [] { AcceptedIsLabel(lower, names, x); }
    if t != [] { AcceptedIsLabel(lower, names, y); }
    SchemaRoundTrip(s);
    SchemaRoundTrip(t);
  }

  // ---------- what is typed ----------

  /** A word of letters of either case and digits. */
  predicate IsWord(t: Text) {
    t != [] && forall i :: 0 <= i < |t| ==> IsLowerLetter(t[i]) || 0x41 <= t[i] <= 0x5A || IsDigit(t[i])
  }

  function Lowered(t: Text): (r: Text)
    ensures |r| == |t|
  {
    seq(|t|, i requires 0 <= i < |t| => LowerAscii(t[i]))
  }

  predicate AllSpace(t: Text) { forall i :: 0 <= i < |t| ==> IsSpaceChar(t[i]) }

  lemma LoweredWord(t: Text)
    requires IsWord(t)
    ensures NoGap(Lowered(t)) && Ascii(t)
    ensures !IsDash(Lowered(t)[0]) && !IsDash(Lowered(t)[|t| - 1])
    ensures !IsSpaceChar(t[0]) && !IsSpaceChar(t[|t| - 1])
  {
  }

  lemma LowersWords(lower: Text -> Text, a: Text, gap: Text, b: Text)
    requires LowersAscii(lower) && IsWord(a) && IsWord(b) && AllGap(gap) && Ascii(gap)
    ensures lower(a + gap + b) == Lowered(a) + gap + Lowered(b)
  {
    LoweredWord(a);
    LoweredWord(b);
    LoweredJoin(a, gap);
    LoweredJoin(a + gap, b);
    LoweredGap(gap);
    LowersAll(lower, a + gap + b);
  }

  lemma LoweredJoin(s: Text, t: Text)
    ensures Lowered(s + t) == Lowered(s) + Lowered(t)
    ensures Ascii(s) && Ascii(t) ==> Ascii(s + t)
  {
  }

  lemma LoweredGap(gap: Text)
    requires AllGap(gap)
    ensures Lowered(gap) == gap
  {
  }

  lemma LowersAll(lower: Text -> Text, t: Text)
    requires LowersAscii(lower) && Ascii(t)
    ensures lower(t) == Lowered(t)
  {
  }

  lemma WordAlone(word: Text)
    requires NoGap(word)
    ensures Dashed(word) == word
  {
    WordStays(word);
  }

  lemma StripWords(left: Text, a: Text, gap: Text, b: Text, right: Text)
    requires AllSpace(left) && IsWord(a) && IsWord(b) && AllSpace(right)
    ensures Strip(left + (a + gap + b) + right, IsSpaceChar) == a + gap + b
  {
    LoweredWord(a);
    LoweredWord(b);
    var core := a + gap + b;
    assert core[0] == a[0] && core[|core| - 1] == b[|b| - 1];
    StripIs(left, core, right, IsSpaceChar);
  }

  lemma StripDashes(a: Text, b: Text)
    requires a != [] && b != [] && !IsDash(a[0]) && !IsDash(b[|b| - 1])
    ensures Strip(a + [DASH] + b, IsDash) == a + [DASH] + b
  {
    var t := a + [DASH] + b;
    assert t[0] == a[0] && t[|t| - 1] == b[|b| - 1];
    NothingToStrip(t, IsDash);
  }

  /** Two words, in whatever case, with spaces around them and any gap of spaces and underscores between
      them, become the two words in lower case with one dash between them. */
  lemma WordsJoined(lower: Text -> Text, left: Text, a: Text, gap: Text, b: Text, right: Text)
    requires LowersAscii(lower) && IsWord(a) && IsWord(b)
    requires AllSpace(left) && AllSpace(right) && gap != [] && Ascii(gap)
    requires forall i :: 0 <= i < |gap| ==> IsSpaceChar(gap[i]) || gap[i] == 0x5F
    ensures Normal(lower, left + (a + gap + b) + right) == Lowered(a) + [DASH] + Lowered(b)
  {
    StripWords(left, a, gap, b, right);
    LowersWords(lower, a, gap, b);
    LoweredWord(a);
    LoweredWord(b);
    GapIsOneDash(Lowered(a), gap, Lowered(b));
    WordAlone(Lowered(b));
    StripDashes(Lowered(a), Lowered(b));
  }

  // ---------- what PostgreSQL accepts ----------

  const PG_: Text := [0x70, 0x67, UNDERSCORE]
  const PG_DASH: Text := [0x70, 0x67, DASH]

  /** A schema name that needs no quoting and is not kept for the system. */
  predicate UsableSchema(s: Text) {
    && 1 <= |s| <= 63 && IsLowerLetter(s[0]) && !(PG_ <= s)
    && forall i :: 0 <= i < |s| ==> IsLowerLetter(s[i]) || IsDigit(s[i]) || s[i] == UNDERSCORE
  }

  /** The schema of an accepted name can be created if and only if the name does not begin with `pg-`:
      of these the form's own list refuses only three. */
  lemma SchemaUsableExact(lower: Text -> Text, names: Names, x: Text)
    requires Clean(lower, names, x).Name? && Clean(lower, names, x).text != []
    ensures UsableSchema(ToSchema(Clean(lower, names, x).text)) <==> !(PG_DASH <= Clean(lower, names, x).text)
  {
    AcceptedIsLabel(lower, names, x);
    var t := Clean(lower, names, x).text;
    var s := ToSchema(t);
    if PG_DASH <= t {
      assert t[0] == PG_DASH[0] && t[1] == PG_DASH[1] && t[2] == PG_DASH[2];
      assert s[..3] == PG_;
    }
    if PG_ <= s {
      assert s[0] == PG_[0] && s[1] == PG_[1] && s[2] == PG_[2];
      assert t[0] == s[0] && t[1] == s[1] && t[2] == DASH;
      assert t[..3] == PG_DASH;
    }
  }

  // ---------- signing up ----------

  const TENANT_: Text := [0x74, 0x65, 0x6E, 0x61, 0x6E, 0x74, UNDERSCORE]

  /** The schema a sign-up starts with: the cleaned address, or else one made from the company's name,
      or else a made-up one. */
  function FirstSchema(wanted: Text, company: Text, token: Text): Text {
    var slug := ToSchema(if wanted != [] then wanted else company);
    var s := if slug == [] then token else slug;
    if s != [] && IsDigit(s[0]) then TENANT_ + s else s
  }

  function Attempt(first: Text, suffixes: seq<Text>, k: nat): Text
    requires k <= |suffixes|
  {
    if k == 0 then first else first + [UNDERSCORE] + suffixes[k - 1]
  }

  /** The name fits its column, and PostgreSQL does not keep it for itself. */
  predicate Creatable(schema: Text) { 1 <= |schema| <= 63 && !(PG_ <= schema) }

  /** Attempt `k` is the first one that meets no existing schema. */
  predicate FirstFree(taken: set<Text>, first: Text, suffixes: seq<Text>, k: nat) {
    && k <= |suffixes| && Attempt(first, suffixes, k) !in taken
    && forall j :: 0 <= j < k ==> Attempt(first, suffixes, j) in taken
  }

  /** `reserved` is the schema of the tenant template. */
  class Registry {
    const reserved: Text
    var schemas: set<Text>
    var owner: map<Text, Text>        // label to schema

    ghost predicate Sound()
      reads this
    {
      && (forall s :: s in schemas ==> DASH !in s && Creatable(s))
      && (forall s :: s in schemas ==> ToLabel(s) in owner && owner[ToLabel(s)] == s)
      && (forall l :: l in owner ==> owner[l] in schemas && ToLabel(owner[l]) == l)
    }

    constructor (reserved: Text)
      ensures Sound() && schemas == {} && this.reserved == reserved
    {
      this.reserved := reserved;
      schemas, owner := {}, map[];
    }

    /** Up to ten attempts; after a clash the next random suffix is tried, and any other error ends the
        sign-up.  The address made from the schema never belongs to another tenant. */
    method SignUp(first: Text, suffixes: seq<Text>) returns (made: Option<Text>)
      requires Sound() && |suffixes| == 9
      requires DASH !in first && forall i :: 0 <= i < 9 ==> DASH !in suffixes[i]
      modifies this
      ensures Sound()
      ensures made.Some? <==>
                exists k :: FirstFree(old(schemas) + {reserved}, first, suffixes, k) &&
                            Creatable(Attempt(first, suffixes, k))
      ensures made.None? ==> schemas == old(schemas) && owner == old(owner)
      ensures made.Some? ==>
                && (exists k :: FirstFree(old(schemas) + {reserved}, first, suffixes, k) &&
                                made.value == Attempt(first, suffixes, k))
                && ToLabel(made.value) !in old(owner) && schemas == old(schemas) + {made.value}
                && owner == old(owner)[ToLabel(made.value) := made.value]
    {
      ghost var taken := schemas + {reserved};
      var attempts := 0;
      while attempts < 10
        invariant 0 <= attempts <= 10
        invariant schemas == old(schemas) && owner == old(owner) && Sound()
        invariant forall k :: 0 <= k < attempts ==> Attempt(first, suffixes, k) in taken
      {
        var schema := Attempt(first, suffixes, attempts);
        if schema !in schemas && schema != reserved {
          assert FirstFree(taken, first, suffixes, attempts);
          assert forall k :: FirstFree(taken, first, suffixes, k) ==> k == attempts;
          if !Creatable(schema) { return None; }
          assert DASH !in schema;
          LabelIsFree(schemas, owner, schema);
          schemas := schemas + {schema};
          owner := owner[ToLabel(schema) := schema];
          return Some(schema);
        }
        attempts := attempts + 1;
      }
      made := None;
    }
  }

  lemma LabelsApart(s: Text, t: Text)
    requires DASH !in s && DASH !in t && ToLabel(s) == ToLabel(t)
    ensures s == t
  {
    assert |s| == |ToLabel(s)| == |ToLabel(t)| == |t|;
    forall i | 0 <= i < |s| ensures s[i] == t[i] {
      assert ToLabel(s)[i] == ToLabel(t)[i];
      assert s[i] in s && t[i] in t;
    }
  }

  lemma LabelIsFree(schemas: set<Text>, owner: map<Text, Text>, s: Text)
    requires forall r :: r in schemas ==> DASH !in r
    requires forall l :: l in owner ==> owner[l] in schemas && ToLabel(owner[l]) == l
    requires s !in schemas && DASH !in s
    ensures ToLabel(s) !in owner
  {
    if ToLabel(s) in owner { LabelsApart(s, owner[ToLabel(s)]); }
  }

  /** The first schema is never empty and never begins with a digit: the cleaned address, or the name made
      from the company's, or the made-up one, with `tenant_` before a digit and underscores for dashes. */
  lemma FirstSchemaExact(wanted: Text, company: Text, token: Text)
    requires token != [] && !IsDigit(token[0])
    ensures var first, from := FirstSchema(wanted, company, token), if wanted != [] then wanted else company;
            && first != [] && !IsDigit(first[0])
            && (from == [] ==> first == token)
            && (from != [] && !IsDigit(from[0]) ==> first == ToSchema(from))
            && (from != [] && IsDigit(from[0]) ==>
                  first == [0x74, 0x65, 0x6E, 0x61, 0x6E, 0x74, 0x5F] + ToSchema(from))
  {
    SchemaChars(if wanted != [] then wanted else company);
  }

  lemma SchemaChars(t: Text)
    ensures |ToSchema(t)| == |t|
    ensures forall i :: 0 <= i < |t| ==> ToSchema(t)[i] == if t[i] == 0x2D then 0x5F else t[i]
  {
  }

  /** A retry asks for the same address with a dash and the suffix behind it, and after an accepted address
      the name still fits its column. */
  lemma RetryExact(first: Text, suffixes: seq<Text>, k: nat)
    requires 0 < k <= |suffixes|
    ensures ToLabel(Attempt(first, suffixes, k)) == ToLabel(first) + [0x2D] + ToLabel(suffixes[k - 1])
    ensures 3 <= |first| <= 50 && |suffixes[k - 1]| == 4 && Creatable(first) ==>
              Creatable(Attempt(first, suffixes, k))
  {
    var t := Attempt(first, suffixes, k);
    assert ToLabel(t) == ToLabel(first) + [0x2D] + ToLabel(suffixes[k - 1]);
    if PG_ <= t && |first| >= 3 { assert first[..3] == t[..3] == PG_; }
  }

  /** An accepted name was free, so a sign-up tries it first and makes it the address; it succeeds if and
      only if the name does not begin with `pg-`. */
  lemma AcceptedIsTheAddress(lower: Text -> Text, names: Names, x: Text, company: Text, token: Text,
                             suffixes: seq<Text>)
    requires Clean(lower, names, x).Name? && Clean(lower, names, x).text != []
    ensures var t := Clean(lower, names, x).text;
            var first := FirstSchema(t, company, token);
            && ToLabel(first) == t && DASH !in first && t !in names.words + names.labels
            && FirstFree(names.schemas + names.reservedSchemas, first, suffixes, 0)
            && (Creatable(first) <==> !(PG_DASH <= t))
  {
    AcceptedIsLabel(lower, names, x);
    AcceptedRoundTrip(lower, names, x, x);
    SchemaUsableExact(lower, names, x);
  }

  /** Every label of 3 to 50 characters without a double dash is accepted as it is, unless it is reserved
      or in use. */
  lemma LabelAccepted(lower: Text -> Text, names: Names, t: Text)
    requires LowersAscii(lower) && DnsLabel(t) && 3 <= |t| <= 50 && !HasDoubleDash(t)
    ensures Clean(lower, names, t) == Name(t) <==>
              t !in names.words + names.labels && ToSchema(t) !in names.schemas + names.reservedSchemas
    ensures Clean(lower, names, t) == ReservedWord <==> t in names.words || ToSchema(t) in names.reservedSchemas
  {
    NormalOfLabel(lower, t);
  }

  /** What is typed is refused for its form if and only if, once normal, it is not three to fifty lower-case
      letters, digits and dashes beginning with a letter, and for a double dash if it is only that. */
  lemma FormExact(lower: Text -> Text, names: Names, x: Text)
    ensures var t := if x == [] then [] else Normal(lower, x);
            && (Clean(lower, names, x) == Name([]) <==> t == [])
            && (Clean(lower, names, x) != BadForm <==>
                  t == [] ||
                  (3 <= |t| <= 50 && 0x61 <= t[0] <= 0x7A &&
                   forall i :: 0 <= i < |t| ==> 0x61 <= t[i] <= 0x7A || 0x30 <= t[i] <= 0x39 || t[i] == 0x2D))
            && (Clean(lower, names, x) == DoubleDash ==>
                  exists i :: 0 <= i < |t| - 1 && t[i] == 0x2D && t[i + 1] == 0x2D)
  {
  }

  /** pg-x */
  lemma PgName() returns (x: Text)
    ensures DnsLabel(x) && |x| == 4 && !HasDoubleDash(x) && !UsableSchema(ToSchema(x))
  {
    x := [0x70, 0x67, DASH, 0x78];
    assert ToSchema(x)[..3] == PG_;
  }

  /** The form accepts a name whose schema cannot be created. */
  lemma PgNameAccepted(lower: Text -> Text) returns (x: Text)
    requires LowersAscii(lower)
    ensures Clean(lower, Names({}, {}, {}, {}), x) == Name(x) && !UsableSchema(ToSchema(x))
  {
    x := PgName();
    LabelAccepted(lower, Names({}, {}, {}, {}), x);
  }
}
