/** Length and character limits that the registry sets on text columns. */
module TextLimits {
  import opened TextParts
  import opened Wrappers

  // White_Space of Unicode.
  predicate IsWhiteSpace(c: char) {
    || '\U{9}' <= c <= '\U{d}' || c == ' ' || c == '\U{85}' || c == '\U{a0}' || c == '\U{1680}'
    || '\U{2000}' <= c <= '\U{200a}' || c == '\U{2028}' || c == '\U{2029}' || c == '\U{202f}' || c == '\U{205f}'
    || c == '\U{3000}'
  }

  // Unicode control characters.
  predicate IsControl(c: char) {
    c as int < 0x20 || 0x7f <= c as int < 0xa0
  }

  // The length of a text in UTF-8 bytes.
  function ByteLength(s: string): nat {
    if s == "" then 0
    else
      var c := s[0] as int;
      (if c < 0x80 then 1 else if c < 0x800 then 2 else if c < 0x10000 then 3 else 4) + ByteLength(s[1..])
  }

  predicate RequiredText(s: string, maximum: nat) {
    Trim(s, IsWhiteSpace) != "" && ByteLength(s) <= maximum
  }

  predicate OptionalText(s: Option<string>, maximum: nat) {
    s.Some? ==> ByteLength(s.value) <= maximum
  }

  predicate OptionalRequired(s: Option<string>, maximum: nat) {
    s.Some? ==> RequiredText(s.value, maximum)
  }

  // Trimmed already, within its limits and without control characters.
  predicate LogSafe(s: string, minimum: nat, maximum: nat) {
    minimum <= ByteLength(s) <= maximum && Trim(s, IsWhiteSpace) == s && forall i | 0 <= i < |s| :: !IsControl(s[i])
  }

  predicate LowerHexDigest(s: string) {
    |s| == 64 && forall i | 0 <= i < 64 :: '0' <= s[i] <= '9' || 'a' <= s[i] <= 'f'
  }

  predicate PrefixedDigest(s: string) {
    |s| == 71 && s[..7] == "sha256:" && LowerHexDigest(s[7..])
  }

  predicate IsLowerOrDigit(c: char) {
    'a' <= c <= 'z' || IsDigit(c)
  }

  // Lower-case letters and digits, with the given marks anywhere but at the ends.
  predicate Slug(s: string, marks: set<char>, maximum: nat) {
    && 2 <= |s| <= maximum
    && IsLowerOrDigit(s[0]) && IsLowerOrDigit(s[|s| - 1])
    && forall i | 0 <= i < |s| :: IsLowerOrDigit(s[i]) || s[i] in marks
  }

  predicate OrgSlug(s: string) {
    Slug(s, {'-'}, 64)
  }

  predicate PackageName(s: string) {
    Slug(s, {'.', '_', '-'}, 128)
  }
}
