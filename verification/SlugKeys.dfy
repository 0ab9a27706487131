/** The shape of a slug, its validation, and the cache keys built from it. */
module SlugKeys {
  import opened Texts

  const SLUG_MIN_LENGTH := 1
  const SLUG_MAX_LENGTH := 64

  // ---------------------------------------------------------------------------------------------
  // Anchored patterns
  // ---------------------------------------------------------------------------------------------

  datatype Class = Alphanumeric | SlugCharacter

  /** `Run` is a class repeated `low` to `high` times, without an upper bound when `high` is negative. */
  datatype Pattern =
    | Run(class_: Class, low: nat, high: int)
    | Then(first: Pattern, second: Pattern)
    | Maybe(inner: Pattern)

  predicate IsAlphanumeric(c: char) { '0' <= c <= '9' || 'A' <= c <= 'Z' || 'a' <= c <= 'z' }

  predicate IsSeparator(c: char) { c == '-' || c == '_' }

  predicate InClass(c: char, k: Class) { IsAlphanumeric(c) || (k.SlugCharacter? && IsSeparator(c)) }

  predicate Matches(p: Pattern, s: string) {
    match p
    case Run(k, low, high) => low <= |s| && (high >= 0 ==> |s| <= high) && forall i :: 0 <= i < |s| ==> InClass(s[i], k)
    case Then(a, b) => exists i :: 0 <= i <= |s| && Matches(a, s[..i]) && Matches(b, s[i..])
    case Maybe(a) => s == [] || Matches(a, s)
  }

  const SLUG_PATTERN :=
    Then(Run(Alphanumeric, 1, 1), Maybe(Then(Run(SlugCharacter, 0, 62), Run(Alphanumeric, 1, 1))))

  const SLUG_CHARACTERS := Run(SlugCharacter, 1, -1)

  /** One to 64 slug characters, the first and the last no separator. */
  predicate SlugShaped(s: string) {
    && 1 <= |s| <= 64 && (forall i :: 0 <= i < |s| ==> IsSlugChar(s[i]))
    && s[0] != '-' && s[0] != '_' && s[|s| - 1] != '-' && s[|s| - 1] != '_'
  }

  /** A digit, a letter of either case, a hyphen or an underscore. */
  predicate IsSlugChar(c: char) {
    '0' <= c <= '9' || 'A' <= c <= 'Z' || 'a' <= c <= 'z' || c == '-' || c == '_'
  }

  predicate TailShaped(t: string) {
    1 <= |t| <= 63 && IsAlphanumeric(t[|t| - 1]) && forall i :: 0 <= i < |t| ==> InClass(t[i], SlugCharacter)
  }

  lemma CutTail(t: string, i: nat)
    requires i <= |t| && Matches(Run(SlugCharacter, 0, 62), t[..i]) && Matches(Run(Alphanumeric, 1, 1), t[i..])
    ensures TailShaped(t)
  {
    assert |t| == i + 1 && t[i..][0] == t[i];
    forall j | 0 <= j < |t| ensures InClass(t[j], SlugCharacter) {
      assert j < i ==> t[..i][j] == t[j];
    }
  }

  lemma TailCut(t: string)
    requires TailShaped(t)
    ensures Matches(Run(SlugCharacter, 0, 62), t[..|t| - 1]) && Matches(Run(Alphanumeric, 1, 1), t[|t| - 1..])
  {
  }

  lemma TailMeans(t: string)
    ensures Matches(Then(Run(SlugCharacter, 0, 62), Run(Alphanumeric, 1, 1)), t) <==> TailShaped(t)
  {
    var middle, end := Run(SlugCharacter, 0, 62), Run(Alphanumeric, 1, 1);
    if Matches(Then(middle, end), t) {
      var i :| 0 <= i <= |t| && Matches(middle, t[..i]) && Matches(end, t[i..]);
      CutTail(t, i);
    }
    if TailShaped(t) {
      TailCut(t);
    }
  }

  lemma PatternInClasses(s: string)
    ensures Matches(SLUG_PATTERN, s) <==>
              && 1 <= |s| <= 64 && (forall i :: 0 <= i < |s| ==> InClass(s[i], SlugCharacter))
              && IsAlphanumeric(s[0]) && IsAlphanumeric(s[|s| - 1])
  {
    var head := Run(Alphanumeric, 1, 1);
    var tail := Then(Run(SlugCharacter, 0, 62), head);
    forall i | 0 <= i <= |s| && Matches(head, s[..i]) ensures i == 1 && s[..i][0] == s[0] {
    }
    if |s| >= 1 {
      TailMeans(s[1..]);
      assert Matches(head, s[..1]) <==> IsAlphanumeric(s[0]);
      assert Matches(SLUG_PATTERN, s) <==> Matches(head, s[..1]) && Matches(Maybe(tail), s[1..]);
      assert forall i :: 1 <= i < |s| ==> s[i] == s[1..][i - 1];
      assert |s| > 1 ==> s[1..][|s| - 2] == s[|s| - 1];
    }
  }

  lemma ClassesMean(c: char)
    ensures InClass(c, SlugCharacter) <==> IsSlugChar(c)
    ensures IsAlphanumeric(c) <==> IsSlugChar(c) && c != '-' && c != '_'
  {
  }

  lemma PatternMeans(s: string)
    ensures Matches(SLUG_PATTERN, s) <==> SlugShaped(s)
  {
    PatternInClasses(s);
    forall c {
      ClassesMean(c);
    }
  }

  // ---------------------------------------------------------------------------------------------
  // Validation
  // ---------------------------------------------------------------------------------------------

  const RESERVED_SLUGS := [
    "api", "health", "robots.txt", "favicon.ico", ".well-known", "_static", "admin", "login", "signup",
    "verify", "invite", "settings", "support", "status", "terms", "privacy"]

  datatype SlugViolation = TooShort | TooLong | InvalidCharacters | LeadingOrTrailingSeparator | Reserved

  datatype SlugValidation = Accepted(slug: string) | Refused(violation: SlugViolation)

  predicate IsReservedSlug(input: string) {
    ToLowerCase(input) in RESERVED_SLUGS
  }

  function ValidateSlug(input: string): SlugValidation {
    if |input| < SLUG_MIN_LENGTH then Refused(TooShort)
    else if |input| > SLUG_MAX_LENGTH then Refused(TooLong)
    else if !Matches(SLUG_CHARACTERS, input) then Refused(InvalidCharacters)
    else if IsSeparator(input[0]) || IsSeparator(input[|input| - 1]) then Refused(LeadingOrTrailingSeparator)
    else if IsReservedSlug(input) then Refused(Reserved)
    else Accepted(input)
  }

  /** The length is compared before the pattern is tried. */
  predicate IsResolvableSlug(segment: string) {
    |segment| <= SLUG_MAX_LENGTH && Matches(SLUG_PATTERN, segment)
  }

  /** The split into single rules reconstructs the pattern, and says nothing else but the reserved list. */
  lemma AcceptedIffShapedAndFree(input: string)
    ensures ValidateSlug(input) == Accepted(input) <==> Matches(SLUG_PATTERN, input) && !IsReservedSlug(input)
    ensures ValidateSlug(input).Accepted? ==> ValidateSlug(input).slug == input && IsResolvableSlug(input)
  {
    PatternMeans(input);
  }

  /** `reserved` is reported exactly for the well-shaped spellings of a reserved word, in any case. */
  lemma ReservedIsReportedIffShaped(input: string)
    ensures ValidateSlug(input) == Refused(Reserved) <==> Matches(SLUG_PATTERN, input) && IsReservedSlug(input)
    ensures IsReservedSlug(input) ==> !ValidateSlug(input).Accepted?
  {
    PatternMeans(input);
  }

  /** The sixteen reserved words, in any case. */
  lemma ReservedWords(input: string)
    ensures IsReservedSlug(input) <==>
              ToLowerCase(input) in {
                "api", "health", "robots.txt", "favicon.ico", ".well-known", "_static", "admin", "login", "signup",
                "verify", "invite", "settings", "support", "status", "terms", "privacy"}
  {
  }

  /** The redirect takes a segment for a slug iff it is shaped like one. */
  lemma ResolvableIffShaped(segment: string)
    ensures IsResolvableSlug(segment) <==> SlugShaped(segment)
  {
    PatternMeans(segment);
  }

  /** Which rule a refused input is told it breaks: the first, in this order. */
  lemma ViolationSays(input: string)
    ensures ValidateSlug(input) == Refused(TooShort) <==> input == ""
    ensures ValidateSlug(input) == Refused(TooLong) <==> |input| > 64
    ensures ValidateSlug(input) == Refused(InvalidCharacters) <==>
              1 <= |input| <= 64 && exists i :: 0 <= i < |input| && !IsSlugChar(input[i])
    ensures ValidateSlug(input) == Refused(LeadingOrTrailingSeparator) <==>
              && 1 <= |input| <= 64 && (forall i :: 0 <= i < |input| ==> IsSlugChar(input[i]))
              && (input[0] == '-' || input[0] == '_' || input[|input| - 1] == '-' || input[|input| - 1] == '_')
  {
    assert Matches(SLUG_CHARACTERS, input) <==> 1 <= |input| && forall i :: 0 <= i < |input| ==> IsSlugChar(input[i]);
  }

  /** Four reserved words are refused on an earlier rung, however they are spelled. */
  lemma FourNeverReportReserved(input: string)
    requires ToLowerCase(input) in ["robots.txt", "favicon.ico", ".well-known", "_static"]
    ensures ValidateSlug(input) ==
            Refused(if ToLowerCase(input) == "_static" then LeadingOrTrailingSeparator else InvalidCharacters)
  {
    var lowered := ToLowerCase(input);
    assert |lowered| == |input|;
    if lowered == "_static" {
      assert "_static"[0] == '_';
      assert LowerChar(input[0]) == lowered[0];
      forall i | 0 <= i < |input| ensures InClass(input[i], SlugCharacter) {
        assert LowerChar(input[i]) == lowered[i];
      }
    } else {
      var dot := if lowered == "robots.txt" then 6 else if lowered == "favicon.ico" then 7 else 0;
      assert lowered[dot] == '.' && LowerChar(input[dot]) == '.';
      assert !InClass(input[dot], SlugCharacter);
    }
  }

  // ---------------------------------------------------------------------------------------------
  // Keys
  // ---------------------------------------------------------------------------------------------

  predicate ColonFree(s: string) { forall i :: 0 <= i < |s| ==> s[i] != ':' }

  function HostKey(namespace: string, hostname: string): string {
    "sk:" + namespace + ":hst:v1:" + hostname
  }

  function LinkKey(namespace: string, hostname: string, slug: string): string {
    "sk:" + namespace + ":rdr:v1:" + hostname + ":" + slug
  }

  lemma ResolvableIsColonFree(segment: string)
    requires IsResolvableSlug(segment)
    ensures ColonFree(segment)
  {
    PatternMeans(segment);
  }

  lemma ShorterFirstPiece(a: string, x: string, b: string, y: string)
    requires ColonFree(b) && |a| < |b|
    ensures a + ":" + x != b + ":" + y
  {
    assert (a + ":" + x)[|a|] == ':' && (b + ":" + y)[|a|] == b[|a|];
  }

  /** Two strings cut at their first colon are equal piece by piece. */
  lemma FirstColon(a: string, x: string, b: string, y: string)
    requires ColonFree(a) && ColonFree(b) && a + ":" + x == b + ":" + y
    ensures a == b && x == y
  {
    var s, t := a + ":" + x, b + ":" + y;
    if |a| < |b| {
      ShorterFirstPiece(a, x, b, y);
    } else if |b| < |a| {
      ShorterFirstPiece(b, y, a, x);
    } else {
      assert s[..|a|] == a && t[..|b|] == b;
      assert s[|a| + 1..] == x && t[|b| + 1..] == y;
    }
  }

  lemma ShorterLastPiece(x: string, a: string, y: string, b: string)
    requires ColonFree(b) && |a| < |b| && |x| + |a| == |y| + |b|
    ensures x + ":" + a != y + ":" + b
  {
    assert (x + ":" + a)[|x|] == ':' && (y + ":" + b)[|x|] == b[|x| - |y| - 1];
  }

  /** And at their last colon, when what follows it holds none. */
  lemma LastColon(x: string, a: string, y: string, b: string)
    requires ColonFree(a) && ColonFree(b) && x + ":" + a == y + ":" + b
    ensures x == y && a == b
  {
    var s, t := x + ":" + a, y + ":" + b;
    assert |s| == |x| + 1 + |a| && |t| == |y| + 1 + |b|;
    if |a| < |b| {
      ShorterLastPiece(x, a, y, b);
    } else if |b| < |a| {
      ShorterLastPiece(y, b, x, a);
    } else {
      assert s[..|x|] == x && t[..|y|] == y;
      assert s[|x| + 1..] == a && t[|y| + 1..] == b;
    }
  }

  lemma PrefixCancels(p: string, a: string, b: string)
    requires p + a == p + b
    ensures a == b
  {
    assert (p + a)[|p|..] == a && (p + b)[|p|..] == b;
  }

  /** A key names its namespace, hostname and slug, although hostnames may hold colons themselves. */
  lemma LinkKeyInjective(
      namespace: string, hostname: string, slug: string, namespace': string, hostname': string, slug': string)
    requires ColonFree(namespace) && ColonFree(namespace') && ColonFree(slug) && ColonFree(slug')
    requires LinkKey(namespace, hostname, slug) == LinkKey(namespace', hostname', slug')
    ensures namespace == namespace' && hostname == hostname' && slug == slug'
  {
    var rest, rest' := "rdr:v1:" + hostname + ":" + slug, "rdr:v1:" + hostname' + ":" + slug';
    assert LinkKey(namespace, hostname, slug) == "sk:" + (namespace + ":" + rest);
    assert LinkKey(namespace', hostname', slug') == "sk:" + (namespace' + ":" + rest');
    PrefixCancels("sk:", namespace + ":" + rest, namespace' + ":" + rest');
    FirstColon(namespace, rest, namespace', rest');
    LastColon("rdr:v1:" + hostname, slug, "rdr:v1:" + hostname', slug');
    PrefixCancels("rdr:v1:", hostname, hostname');
  }

  lemma HostKeyInjective(namespace: string, hostname: string, namespace': string, hostname': string)
    requires ColonFree(namespace) && ColonFree(namespace')
    requires HostKey(namespace, hostname) == HostKey(namespace', hostname')
    ensures namespace == namespace' && hostname == hostname'
  {
    var rest, rest' := "hst:v1:" + hostname, "hst:v1:" + hostname';
    assert HostKey(namespace, hostname) == "sk:" + (namespace + ":" + rest);
    assert HostKey(namespace', hostname') == "sk:" + (namespace' + ":" + rest');
    PrefixCancels("sk:", namespace + ":" + rest, namespace' + ":" + rest');
    FirstColon(namespace, rest, namespace', rest');
    PrefixCancels("hst:v1:", hostname, hostname');
  }

  lemma LinkKeyIsNoHostKey(namespace: string, hostname: string, slug: string, namespace': string, hostname': string)
    requires ColonFree(namespace) && ColonFree(namespace')
    ensures LinkKey(namespace, hostname, slug) != HostKey(namespace', hostname')
  {
    var rest, rest' := "rdr:v1:" + hostname + ":" + slug, "hst:v1:" + hostname';
    assert LinkKey(namespace, hostname, slug) == "sk:" + (namespace + ":" + rest);
    assert HostKey(namespace', hostname') == "sk:" + (namespace' + ":" + rest');
    assert rest[0] == 'r' && rest'[0] == 'h';
    if LinkKey(namespace, hostname, slug) == HostKey(namespace', hostname') {
      PrefixCancels("sk:", namespace + ":" + rest, namespace' + ":" + rest');
      FirstColon(namespace, rest, namespace', rest');
    }
  }
}
