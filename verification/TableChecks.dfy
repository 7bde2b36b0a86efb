/** The CHECK constraints and column widths of the database schema, shape by shape, and how the validators meet them. */
module TableChecks {
  import opened TextLimits
  import opened TextParts
  import opened Wrappers

  // octet_length(s) within bounds
  predicate Octets(s: string, low: nat, high: nat) {
    low <= ByteLength(s) <= high
  }

  // varchar(n)
  predicate Varchar(s: string, n: nat) {
    |s| <= n
  }

  // IS NULL OR ...
  predicate NullOr(s: Option<string>, check: string -> bool) {
    s.Some? ==> check(s.value)
  }

  // ^[a-f0-9]{64}$
  predicate HexPattern(s: string) {
    |s| == 64 && forall i | 0 <= i < |s| :: 'a' <= s[i] <= 'f' || '0' <= s[i] <= '9'
  }

  // ^sha256:[a-f0-9]{64}$
  predicate DigestPattern(s: string) {
    "sha256:" <= s && HexPattern(s[7..])
  }

  // [a-z0-9]
  predicate EndChar(c: char) {
    'a' <= c <= 'z' || '0' <= c <= '9'
  }

  // ^[a-z0-9][a-z0-9-]{0,62}[a-z0-9]$
  predicate SlugPattern(s: string) {
    && 2 <= |s| <= 2 + 62 && EndChar(s[0]) && EndChar(s[|s| - 1])
    && forall i | 1 <= i < |s| - 1 :: EndChar(s[i]) || s[i] == '-'
  }

  // ^[a-z0-9][a-z0-9._-]{0,126}[a-z0-9]$
  predicate NamePattern(s: string) {
    && 2 <= |s| <= 2 + 126 && EndChar(s[0]) && EndChar(s[|s| - 1])
    && forall i | 1 <= i < |s| - 1 :: EndChar(s[i]) || s[i] in {'.', '_', '-'}
  }

  // ---------- The validators against the shapes ----------

  /** A text is never longer in characters than in bytes, so a byte limit keeps it within a column of that width. */
  lemma {:induction false} BytesBoundCharacters(s: string)
    ensures |s| <= ByteLength(s)
  {
    if s != "" { BytesBoundCharacters(s[1..]); }
  }

  lemma OptionalBounds(s: Option<string>)
    ensures s.Some? ==> |s.value| <= ByteLength(s.value)
  {
    if s.Some? { BytesBoundCharacters(s.value); }
  }

  predicate Blank(s: string) {
    forall i | 0 <= i < |s| :: IsWhiteSpace(s[i])
  }

  /** Required text is exactly text that is not blank and within its limit. */
  lemma RequiredIff(s: string, maximum: nat)
    ensures RequiredText(s, maximum) <==> !Blank(s) && ByteLength(s) <= maximum
    ensures RequiredText(s, maximum) ==> ByteLength(s) >= 1
  {
    TrimBlank(s, IsWhiteSpace);
    BytesBoundCharacters(s);
    hide ByteLength, IsWhiteSpace;
  }

  /** The hexadecimal validators accept exactly what the patterns of the digest columns match. */
  lemma DigestValidatorsIff(s: string)
    ensures LowerHexDigest(s) <==> HexPattern(s)
    ensures PrefixedDigest(s) <==> DigestPattern(s)
  {
    if |s| == 71 { assert s[..7] == "sha256:" <==> "sha256:" <= s; }
  }

  /** The slug and name validators accept exactly what the patterns of the edge columns match. */
  lemma SlugValidatorsIff(s: string)
    ensures OrgSlug(s) <==> SlugPattern(s)
    ensures PackageName(s) <==> NamePattern(s)
  {
  }
}
