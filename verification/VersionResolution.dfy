/** Choosing a published version (`src/ts/version.ts`, `src/ts/resolve.ts`). */
module VersionResolution {
  import opened Utf16
  import opened TextParts
  import opened Versions
  import opened VersionParsing
  import opened VersionRequirements
  import opened Wrappers

  // ---------- The best match ----------

  predicate StableVersion(version: string) {
    ParseVersion(version).Some? && IsStable(ParseVersion(version).value)
  }

  predicate Qualifies(requirement: Requirement, version: string) {
    StableVersion(version) && Matches(requirement, version)
  }

  // Not below in precedence; both spellings must parse.
  predicate AtMost(a: string, b: string) {
    ParseVersion(a).Some? && ParseVersion(b).Some? && NotAbove(ParseVersion(a).value, ParseVersion(b).value)
  }

  /** Position k holds the highest qualifying version, and the last of those equal to it. */
  ghost predicate IsBest(requirement: Requirement, versions: seq<string>, k: nat) {
    && k < |versions| && Qualifies(requirement, versions[k])
    && forall j | 0 <= j < |versions| && Qualifies(requirement, versions[j]) ::
      AtMost(versions[j], versions[k]) && (j > k ==> !AtMost(versions[k], versions[j]))
  }

  ghost predicate NoneQualifies(requirement: Requirement, versions: seq<string>) {
    forall j | 0 <= j < |versions| :: !Qualifies(requirement, versions[j])
  }

  /** The answer to a requirement over the listed versions. */
  ghost predicate Resolution(requirement: Requirement, versions: seq<string>, answer: Option<string>) {
    match requirement
    case Exact(tag) => answer == if tag in versions then Some(tag) else None
    case Range(_) =>
      if answer.None? then NoneQualifies(requirement, versions)
      else exists k: nat :: IsBest(requirement, versions, k) && versions[k] == answer.value
  }

  lemma AtMostOrder(a: string, b: string, c: string)
    requires ParseVersion(a).Some? && ParseVersion(b).Some? && ParseVersion(c).Some?
    ensures AtMost(a, a) && (AtMost(a, b) || AtMost(b, a))
    ensures AtMost(a, b) && AtMost(b, c) ==> AtMost(a, c)
  {
    hide ParseVersion;
    TotalPreorder(ParseVersion(a).value, ParseVersion(b).value, ParseVersion(c).value);
    hide NotAbove;
  }

  lemma BestUnique(requirement: Requirement, versions: seq<string>, k: nat, l: nat)
    requires IsBest(requirement, versions, k) && IsBest(requirement, versions, l)
    ensures k == l
  {
    hide AtMost, Qualifies;
  }

  /** A requirement has at most one answer. */
  lemma ResolutionUnique(requirement: Requirement, versions: seq<string>, a: Option<string>, b: Option<string>)
    requires Resolution(requirement, versions, a) && Resolution(requirement, versions, b)
    ensures a == b
  {
    hide AtMost, Qualifies;
    if requirement.Range? && a.Some? && b.Some? {
      var k: nat :| IsBest(requirement, versions, k) && versions[k] == a.value;
      var l: nat :| IsBest(requirement, versions, l) && versions[l] == b.value;
      BestUnique(requirement, versions, k, l);
    }
  }

  /** An answer is listed and matches; an exact tag has one whenever something listed matches it. */
  lemma AnswerMatches(requirement: Requirement, versions: seq<string>, answer: Option<string>)
    requires Resolution(requirement, versions, answer)
    ensures answer.Some? ==> answer.value in versions && Matches(requirement, answer.value)
    ensures requirement.Exact? ==> (answer.Some? <==> exists k: nat :: k < |versions| && Matches(requirement, versions[k]))
  {
    hide AtMost, ParseVersion;
    if requirement.Exact? && requirement.tag in versions {
      var k: nat :| k < |versions| && versions[k] == requirement.tag;
      assert Matches(requirement, versions[k]);
    }
  }

  lemma NextIsBest(requirement: Requirement, versions: seq<string>, i: nat, best: Option<nat>)
    requires i < |versions| && Qualifies(requirement, versions[i])
    requires if best.Some? then IsBest(requirement, versions[..i], best.value) else NoneQualifies(requirement, versions[..i])
    requires best.Some? ==> AtMost(versions[best.value], versions[i])
    ensures IsBest(requirement, versions[..i + 1], i)
  {
    hide ParseVersion, Matches, AtMost;
    var shown := versions[..i + 1];
    forall j | 0 <= j < |shown| && Qualifies(requirement, shown[j]) ensures AtMost(shown[j], shown[i]) {
      AtMostOrder(versions[i], versions[i], versions[i]);
      if j < i {
        assert versions[..i][j] == shown[j];
        if best.Some? { AtMostOrder(shown[j], versions[best.value], versions[i]); }
      }
    }
  }

  lemma StaysBest(requirement: Requirement, versions: seq<string>, i: nat, best: nat)
    requires i < |versions| && IsBest(requirement, versions[..i], best)
    requires Qualifies(requirement, versions[i]) ==> !AtMost(versions[best], versions[i])
    ensures IsBest(requirement, versions[..i + 1], best)
  {
    hide Matches, ParseVersion, AtMost;
    var shown := versions[..i + 1];
    assert shown[best] == versions[..i][best];
    forall j | 0 <= j < |shown| && Qualifies(requirement, shown[j])
      ensures AtMost(shown[j], shown[best]) && (j > best ==> !AtMost(shown[best], shown[j]))
    {
      if j < i {
        assert versions[..i][j] == shown[j];
      } else {
        AtMostOrder(versions[best], versions[i], versions[i]);
      }
    }
  }

  lemma StillNone(requirement: Requirement, versions: seq<string>, i: nat)
    requires i < |versions| && NoneQualifies(requirement, versions[..i]) && !Qualifies(requirement, versions[i])
    ensures NoneQualifies(requirement, versions[..i + 1])
  {
    hide Qualifies;
    assert forall j | 0 <= j < i :: versions[..i + 1][j] == versions[..i][j];
  }

  // The loop state: the best version seen so far, at position k.
  ghost predicate BestSoFar(requirement: Requirement, seen: seq<string>, best: Option<string>, k: nat) {
    if best.Some? then IsBest(requirement, seen, k) && seen[k] == best.value else NoneQualifies(requirement, seen)
  }

  lemma BestResolves(requirement: Requirement, versions: seq<string>, best: Option<string>, k: nat)
    requires requirement.Range? && BestSoFar(requirement, versions, best, k)
    ensures Resolution(requirement, versions, best)
  {
  }

  lemma Advance(requirement: Requirement, versions: seq<string>, i: nat, best: Option<string>, k: nat)
    requires i < |versions| && Qualifies(requirement, versions[i])
    requires BestSoFar(requirement, versions[..i], best, k)
    requires best.Some? ==> k < i && versions[k] == best.value && AtMost(best.value, versions[i])
    ensures BestSoFar(requirement, versions[..i + 1], Some(versions[i]), i)
  {
    hide Qualifies, AtMost;
    NextIsBest(requirement, versions, i, if best.Some? then Some(k) else None);
  }

  lemma Keep(requirement: Requirement, versions: seq<string>, i: nat, best: Option<string>, k: nat)
    requires i < |versions| && BestSoFar(requirement, versions[..i], best, k)
    requires best.Some? ==> k < i && versions[k] == best.value
    requires Qualifies(requirement, versions[i]) ==> best.Some? && !AtMost(best.value, versions[i])
    ensures BestSoFar(requirement, versions[..i + 1], best, k)
  {
    hide Qualifies, AtMost;
    if best.Some? { StaysBest(requirement, versions, i, k); } else { StillNone(requirement, versions, i); }
  }

  method ResolveRequirement(requirement: Requirement, versions: seq<string>) returns (answer: Option<string>)
    ensures Resolution(requirement, versions, answer)
    ensures requirement.Exact? ==> (answer.Some? <==> requirement.tag in versions)
    ensures requirement.Exact? && answer.Some? ==> answer.value == requirement.tag
  {
    hide ParseVersion, CompareVersions, Matches, BestSoFar, AtMost;
    if requirement.Exact? {
      return if requirement.tag in versions then Some(requirement.tag) else None;
    }
    var best: Option<string>, bestParsed: Option<SemVer> := None, None;
    ghost var k := 0;
    NothingSeen(requirement, versions[..0]);
    for i := 0 to |versions|
      invariant BestSoFar(requirement, versions[..i], best, k)
      invariant best.Some? ==> k < i && versions[k] == best.value && ParseVersion(best.value) == bestParsed && bestParsed.Some?
      invariant best.None? ==> bestParsed.None?
    {
      var version := versions[i];
      var parsed := ParseVersion(version);
      if parsed.Some? && IsStable(parsed.value) && Matches(requirement, version) {
        if bestParsed.None? || CompareVersions(parsed.value, bestParsed.value) != Less {
          if best.Some? { NotLessIsAtMost(best.value, version); }
          Advance(requirement, versions, i, best, k);
          best, bestParsed := Some(version), parsed;
          k := i;
        } else {
          NotLessIsAtMost(best.value, version);
          Keep(requirement, versions, i, best, k);
        }
      } else {
        Keep(requirement, versions, i, best, k);
      }
    }
    assert versions[..|versions|] == versions;
    BestResolves(requirement, versions, best, k);
    return best;
  }

  lemma NothingSeen(requirement: Requirement, seen: seq<string>)
    requires seen == []
    ensures BestSoFar(requirement, seen, None, 0)
  {
  }

  // The comparison in the loop is against the best so far.
  lemma NotLessIsAtMost(a: string, b: string)
    requires ParseVersion(a).Some? && ParseVersion(b).Some?
    ensures AtMost(a, b) <==> CompareVersions(ParseVersion(b).value, ParseVersion(a).value) != Less
  {
    hide ParseVersion;
    StrictOrder(ParseVersion(a).value, ParseVersion(b).value, ParseVersion(a).value);
    hide CompareVersions;
  }

  // ---------- Registry metadata ----------

  datatype VersionScheme = Semver | Calver | Opaque

  datatype Metadata = Metadata(versions: seq<string>, versionScheme: Option<VersionScheme>, latest: Option<string>)

  datatype ResolveErrorKind = NoVersions | InvalidRequirement | Unsatisfied

  function SchemeOf(metadata: Metadata): VersionScheme {
    if metadata.versionScheme.Some? then metadata.versionScheme.value else Semver
  }

  predicate LooksLikeRange(input: string) {
    || (input != "" && IsOpChar(input[0]))
    || '*' in input || ',' in input
    || exists i :: 0 <= i < |Trim(input, IsSpace)| && IsSpace(Trim(input, IsSpace)[i])
  }

  ghost predicate Refused(metadata: Metadata, requirement: string) {
    var parsed := ParseRequirement(requirement);
    if SchemeOf(metadata) == Opaque then parsed.Range?
    else parsed.Exact? && (LooksLikeRange(requirement) || Malformed(Split(requirement, '.')))
  }

  /** What resolving a requirement against metadata comes to. */
  ghost predicate Resolves(metadata: Metadata, requirement: string, r: Result<string, ResolveErrorKind>) {
    if metadata.versions == [] then r == Err(NoVersions)
    else if Refused(metadata, requirement) then r == Err(InvalidRequirement)
    else if r.Err? then r == Err(Unsatisfied) && Resolution(ParseRequirement(requirement), metadata.versions, None)
    else Resolution(ParseRequirement(requirement), metadata.versions, Some(r.value))
  }

  method ResolveVersion(metadata: Metadata, requirement: string) returns (r: Result<string, ResolveErrorKind>)
    ensures Resolves(metadata, requirement, r)
  {
    hide Resolution, ParseRequirement, Malformed, Split, LooksLikeRange;
    if metadata.versions == [] { return Err(NoVersions); }
    var scheme := SchemeOf(metadata);
    var comparators := ReadBounds(requirement);
    var parsed := if comparators.None? then Exact(requirement) else Range(comparators.value);
    assert parsed == ParseRequirement(requirement) by { RequirementFromBounds(requirement); }
    if scheme == Opaque && parsed.Range? { return Err(InvalidRequirement); }
    if scheme != Opaque && parsed.Exact? {
      var malformed := LooksLikeMalformedDottedNumericRequirement(requirement);
      if LooksLikeRange(requirement) || malformed { return Err(InvalidRequirement); }
    }
    var resolved := ResolveRequirement(parsed, metadata.versions);
    return if resolved.None? then Err(Unsatisfied) else Ok(resolved.value);
  }

  lemma RequirementFromBounds(input: string)
    ensures ParseRequirement(input) ==
      if ParseBounds(input).None? then Exact(input) else Range(ParseBounds(input).value)
  {
  }

  /** A resolved version was published, in that spelling; by an opaque package, exactly as it was asked for. */
  lemma ResolvedIsPublished(metadata: Metadata, requirement: string, r: Result<string, ResolveErrorKind>)
    requires Resolves(metadata, requirement, r) && r.Ok?
    ensures r.value in metadata.versions
    ensures SchemeOf(metadata) == Opaque ==> r.value == requirement
    ensures ParseRequirement(requirement).Range? ==> StableVersion(r.value)
  {
    hide ParseBounds, ParseVersion, ParseRequirement, Matches, LooksLikeRange, Malformed, AtMost, Split;
    var parsed := ParseRequirement(requirement);
    RequirementFromBounds(requirement);
    if parsed.Range? {
      var k: nat :| IsBest(parsed, metadata.versions, k) && metadata.versions[k] == r.value;
    }
  }

  /** Text that was meant as a range: it starts with an operator, holds a star or a comma, or is several words. */
  ghost predicate RangeMarked(input: string) {
    || (input != "" && input[0] in {'^', '~', '<', '>', '='})
    || (exists i :: 0 <= i < |input| && (input[i] == '*' || input[i] == ','))
    || exists i, j, k :: 0 <= i < j < k < |input| && !IsSpace(input[i]) && IsSpace(input[j]) && !IsSpace(input[k])
  }

  lemma WordsApart(input: string, i: nat, j: nat, k: nat)
    requires i < j < k < |input| && !IsSpace(input[i]) && IsSpace(input[j]) && !IsSpace(input[k])
    ensures exists m :: 0 <= m < |Trim(input, IsSpace)| && IsSpace(Trim(input, IsSpace)[m])
  {
    hide IsSpace;
    var from, to := TrimmedPart(input, IsSpace);
    assert from <= i && k < to;
    assert Trim(input, IsSpace)[j - from] == input[j];
  }

  lemma LooksLikeRangeIff(input: string)
    ensures LooksLikeRange(input) <==> RangeMarked(input)
  {
    var from, to := TrimmedPart(input, IsSpace);
    var trimmed := Trim(input, IsSpace);
    hide IsSpace, Trim;
    assert '*' in input <==> exists i :: 0 <= i < |input| && input[i] == '*';
    assert ',' in input <==> exists i :: 0 <= i < |input| && input[i] == ',';
    if m :| 0 <= m < |trimmed| && IsSpace(trimmed[m]) {
      assert !IsSpace(input[from]) && IsSpace(input[from + m]) && !IsSpace(input[to - 1]);
    }
    if i, j, k :| 0 <= i < j < k < |input| && !IsSpace(input[i]) && IsSpace(input[j]) && !IsSpace(input[k]) {
      WordsApart(input, i, j, k);
    }
  }

  /** Text without a range is asked for as it stands. It is found exactly when that spelling is published, and is
      refused only where versions are ordered and the text is marked as a range or is a malformed dotted number. */
  lemma ExactResolvesIff(metadata: Metadata, requirement: string, r: Result<string, ResolveErrorKind>)
    requires Resolves(metadata, requirement, r) && ParseRequirement(requirement).Exact?
    ensures var refused := SchemeOf(metadata) != Opaque && (RangeMarked(requirement) || Malformed(Split(requirement, '.')));
      && (r.Ok? <==> requirement in metadata.versions && !refused)
      && (r.Ok? ==> r.value == requirement)
      && (r == Err(InvalidRequirement) <==> metadata.versions != [] && refused)
      && (r == Err(Unsatisfied) <==> metadata.versions != [] && requirement !in metadata.versions && !refused)
  {
    LooksLikeRangeIff(requirement);
    RequirementFromBounds(requirement);
    hide ParseBounds, LooksLikeRange, RangeMarked, Malformed, Split;
  }

  /** A range is refused exactly by a package whose versions are opaque. */
  lemma RangeRefusedIff(metadata: Metadata, requirement: string, r: Result<string, ResolveErrorKind>)
    requires Resolves(metadata, requirement, r) && ParseRequirement(requirement).Range?
    ensures r == Err(InvalidRequirement) <==> metadata.versions != [] && metadata.versionScheme == Some(Opaque)
    ensures r == Err(NoVersions) <==> metadata.versions == []
  {
    hide ParseRequirement, Resolution;
  }

  ghost predicate SatisfiesAll(tokens: seq<string>, version: string)
    requires StableVersion(version)
  {
    forall i | 0 <= i < |tokens| :: TokenSays(tokens[i], ParseVersion(version).value)
  }

  lemma QualifiesIffSatisfies(requirement: string, version: string)
    requires ParseRequirement(requirement).Range? && StableVersion(version)
    ensures Qualifies(ParseRequirement(requirement), version) <==> SatisfiesAll(TokensOf(requirement), version)
  {
    hide ParseRequirement, ParseVersion, TokensOf, MatchesAll;
    RequirementMeaning(requirement, ParseVersion(version).value);
  }

  /** A range resolves exactly when some published stable version satisfies every one of its tokens. */
  lemma RangeResolvesIff(metadata: Metadata, requirement: string, r: Result<string, ResolveErrorKind>)
    requires Resolves(metadata, requirement, r)
    requires SchemeOf(metadata) != Opaque && ParseRequirement(requirement).Range?
    ensures var tokens := TokensOf(requirement);
      r.Ok? <==> exists version | version in metadata.versions :: StableVersion(version) && SatisfiesAll(tokens, version)
  {
    hide ParseRequirement, StableVersion, Malformed, AtMost, TokensOf, SatisfiesAll, Matches;
    var parsed, tokens := ParseRequirement(requirement), TokensOf(requirement);
    forall version | version in metadata.versions && StableVersion(version)
      ensures Qualifies(parsed, version) <==> SatisfiesAll(tokens, version)
    {
      QualifiesIffSatisfies(requirement, version);
    }
    if r.Ok? {
      var k: nat :| IsBest(parsed, metadata.versions, k) && metadata.versions[k] == r.value;
      assert metadata.versions[k] in metadata.versions;
    }
  }

  // ---------- The newest stable version ----------

  /** The latest version of an opaque package is the recorded one, if it is still published. */
  ghost predicate IsLatest(metadata: Metadata, r: Option<string>) {
    if SchemeOf(metadata) == Opaque then
      r == if metadata.latest.Some? && metadata.latest.value != "" && metadata.latest.value in metadata.versions
           then metadata.latest else None
    else Resolution(Range([]), metadata.versions, r)
  }

  lemma QualifiesForAny(version: string)
    ensures Qualifies(Range([]), version) <==> StableVersion(version)
  {
    hide ParseVersion;
    if StableVersion(version) { NothingToMatch(ParseVersion(version).value); }
  }

  method HighestStable(versions: seq<string>) returns (best: Option<string>)
    ensures Resolution(Range([]), versions, best)
  {
    hide ParseVersion, CompareVersions, Qualifies, BestSoFar, AtMost, Resolution, Matches;
    ghost var any := Range([]);
    var bestParsed: Option<SemVer> := None;
    best := None;
    ghost var k := 0;
    NothingSeen(any, versions[..0]);
    for i := 0 to |versions|
      invariant BestSoFar(any, versions[..i], best, k)
      invariant best.Some? ==> k < i && versions[k] == best.value && ParseVersion(best.value) == bestParsed && bestParsed.Some?
      invariant best.None? ==> bestParsed.None?
    {
      var version := versions[i];
      var parsed := ParseVersion(version);
      QualifiesForAny(version);
      if parsed.Some? && IsStable(parsed.value) {
        if bestParsed.None? || CompareVersions(parsed.value, bestParsed.value) != Less {
          if best.Some? { NotLessIsAtMost(best.value, version); }
          Advance(any, versions, i, best, k);
          best, bestParsed := Some(version), parsed;
          k := i;
        } else {
          NotLessIsAtMost(best.value, version);
          Keep(any, versions, i, best, k);
        }
      } else {
        Keep(any, versions, i, best, k);
      }
    }
    assert versions[..|versions|] == versions;
    BestResolves(any, versions, best, k);
  }

  method LatestStable(metadata: Metadata) returns (r: Option<string>)
    ensures IsLatest(metadata, r)
  {
    hide Resolution;
    if SchemeOf(metadata) == Opaque {
      var latest := metadata.latest;
      if latest.None? || latest.value == "" { return None; }
      return if latest.value in metadata.versions then latest else None;
    }
    r := HighestStable(metadata.versions);
  }

  /** Unless versions are opaque, the latest stable version is what `*` resolves to, and there is none when it fails. */
  lemma LatestIsStar(metadata: Metadata, latest: Option<string>, r: Result<string, ResolveErrorKind>)
    requires SchemeOf(metadata) != Opaque && IsLatest(metadata, latest) && Resolves(metadata, "*", r)
    ensures latest.Some? <==> r.Ok?
    ensures latest.Some? ==> latest.value == r.value
  {
    StarIsEmptyRange();
    hide ParseRequirement, ParseVersion, Malformed, AtMost, Split, Matches;
    var star := Range([]);
    if metadata.versions == [] {
      assert Resolution(star, [], None);
      ResolutionUnique(star, [], latest, None);
    } else {
      ResolutionUnique(star, metadata.versions, latest, if r.Ok? then Some(r.value) else None);
    }
  }
}
