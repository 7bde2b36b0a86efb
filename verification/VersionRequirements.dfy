/** Range requirements in Cargo's dialect: tokens, partial versions and bounds (`src/ts/version.ts`). */
module VersionRequirements {
  import opened TextLimits
  import opened TextParts
  import opened Versions
  import opened VersionParsing
  import opened Wrappers

  // ---------- Partial versions ----------

  predicate IsWildcard(segment: string) {
    segment == "*" || segment == "x" || segment == "X"
  }

  // A wildcard may stand only last, after at most two numbers.
  function ParseSegments(segments: seq<string>): (r: Option<(seq<nat>, bool)>)
    requires segments != []
    ensures r.Some? ==> |r.value.0| <= 3
  {
    var wildcard := IsWildcard(segments[|segments| - 1]);
    var numbers := if wildcard then segments[..|segments| - 1] else segments;
    if AllCanonical(numbers) && |numbers| <= (if wildcard then 2 else 3) then Some((Numbers(numbers), wildcard)) else None
  }

  function ParsePartial(raw: string): (r: Option<Partial>)
    ensures r.Some? ==> |r.value.parts| <= 3
  {
    var input := Head(StripV(raw), '+');
    var pre := AfterDash(input);
    if BeforeDash(input) == "" then None
    else
      var read := ParseSegments(Split(BeforeDash(input), '.'));
      if read.None? then None
      else Some(Partial(read.value.0, if pre.Some? then Split(pre.value, '.') else [], read.value.1))
  }

  method ReadPartial(raw: string) returns (r: Option<Partial>)
    ensures r == ParsePartial(raw)
  {
    hide StripV, Split, Decimal;
    var input := Head(StripV(raw), '+');
    var pre: seq<string> := [];
    var after := AfterDash(input);
    if after.Some? { pre := Split(after.value, '.'); }
    input := BeforeDash(input);
    if input == "" { return None; }
    var parts: seq<nat> := [];
    var wildcard := false;
    var segments := Split(input, '.');
    var i := 0;
    while i < |segments| && !wildcard
      invariant 0 <= i <= |segments|
      invariant !wildcard ==> AllCanonical(segments[..i]) && parts == Numbers(segments[..i])
      invariant wildcard ==> i == |segments| && ParseSegments(segments) == Some((parts, true))
      decreases |segments| - i, if wildcard then 0 else 1
    {
      var segment := segments[i];
      if IsWildcard(segment) {
        if i != |segments| - 1 || |parts| >= 3 {
          WildcardMisplaced(segments, i);
          return None;
        }
        wildcard := true;
        i := |segments|;
      } else {
        if !IsNumber(segment) || LeadingZero(segment) {
          BadSegment(segments, i);
          return None;
        }
        assert segments[..i + 1] == segments[..i] + [segment];
        parts := parts + [Decimal(segment)];
        i := i + 1;
      }
    }
    if !wildcard { NoWildcard(segments); }
    if |parts| > 3 { return None; }
    if |parts| == 0 && !wildcard { return None; }
    return Some(Partial(parts, pre, wildcard));
  }

  lemma WildcardIsNoNumber(segment: string)
    ensures IsWildcard(segment) ==> !IsNumber(segment)
  {
    if IsWildcard(segment) { assert !IsDigit(segment[0]); }
  }

  lemma WildcardMisplaced(segments: seq<string>, i: nat)
    requires i < |segments| && IsWildcard(segments[i]) && (i != |segments| - 1 || i >= 3)
    ensures ParseSegments(segments).None?
  {
    WildcardIsNoNumber(segments[i]);
    if i < |segments| - 1 { BadSegment(segments, i); }
  }

  lemma BadSegment(segments: seq<string>, i: nat)
    requires i < |segments| && !(IsNumber(segments[i]) && !LeadingZero(segments[i]))
    requires IsWildcard(segments[i]) ==> i < |segments| - 1
    ensures ParseSegments(segments).None?
  {
    var last := |segments| - 1;
    assert i < last ==> segments[..last][i] == segments[i];
  }

  lemma NoWildcard(segments: seq<string>)
    requires segments != [] && AllCanonical(segments[..|segments|])
    ensures ParseSegments(segments) == if |segments| <= 3 then Some((Numbers(segments[..|segments|]), false)) else None
  {
    assert segments[..|segments|] == segments;
    WildcardIsNoNumber(segments[|segments| - 1]);
  }

  // ---------- Tokens ----------

  // The class \s, which is also what trim removes.
  predicate IsSpace(c: char) {
    || '\U{9}' <= c <= '\U{d}' || c == ' ' || c == '\U{a0}' || c == '\U{1680}' || '\U{2000}' <= c <= '\U{200a}'
    || c == '\U{2028}' || c == '\U{2029}' || c == '\U{202f}' || c == '\U{205f}' || c == '\U{3000}' || c == '\U{feff}'
  }

  // What a dot in a pattern does not match.
  predicate IsLineTerminator(c: char) {
    c == '\n' || c == '\r' || c == '\U{2028}' || c == '\U{2029}'
  }

  predicate IsOpChar(c: char) {
    c == '^' || c == '~' || c == '>' || c == '<' || c == '='
  }

  predicate IsSeparator(c: char) {
    c == ',' || IsSpace(c)
  }

  // Space that follows an operator is removed.
  function Glue(s: string, afterOp: bool): string {
    if s == "" then ""
    else if afterOp && IsSpace(s[0]) then Glue(s[1..], true)
    else [s[0]] + Glue(s[1..], IsOpChar(s[0]))
  }

  // The non-empty pieces between commas and spaces.
  function Tokens(s: string): seq<string>
    decreases |s|
  {
    if s == "" then []
    else if IsSeparator(s[0]) then Tokens(s[1..])
    else
      var n := FirstWhere(s, IsSeparator);
      [s[..n]] + Tokens(s[n..])
  }

  function SplitOperator(token: string): (Operator, string) {
    if token == "" then (Bare, token)
    else if token[0] == '^' then (Caret, token[1..])
    else if token[0] == '~' then (Tilde, token[1..])
    else if ">=" <= token then (Plain(Ge), token[2..])
    else if "<=" <= token then (Plain(Le), token[2..])
    else if token[0] == '>' then (Plain(Gt), token[1..])
    else if token[0] == '<' then (Plain(Lt), token[1..])
    else if token[0] == '=' then (Plain(Eq), token[1..])
    else (Bare, token)
  }

  // The operator and partial version of a token.
  function ReadToken(token: string): (r: Option<(Operator, Partial)>)
    ensures r.Some? ==> |r.value.1.parts| <= 3
  {
    var (operator, after) := SplitOperator(token);
    var rest := TrimStart(after, IsSpace);
    if rest == "" || exists i :: 0 <= i < |rest| && IsLineTerminator(rest[i]) then None
    else
      var p := ParsePartial(TrimEnd(rest, IsSpace));
      if p.None? then None else Some((operator, p.value))
  }

  function Expand(token: string): Option<seq<VersionBound>> {
    var read := ReadToken(token);
    if read.None? then None else Some(Bounds(read.value.0, read.value.1))
  }

  function ExpandAll(tokens: seq<string>): Option<seq<VersionBound>>
    decreases |tokens|
  {
    if tokens == [] then Some([])
    else
      var front := ExpandAll(tokens[..|tokens| - 1]);
      if front.None? then None
      else
        var last := Expand(tokens[|tokens| - 1]);
        if last.None? then None else Some(front.value + last.value)
  }

  // ---------- Requirements ----------

  datatype Requirement = Range(comparators: seq<VersionBound>) | Exact(tag: string)

  // Trimmed, glued and cut into tokens.
  function TokensOf(input: string): seq<string> {
    Tokens(Glue(Trim(input, IsSpace), false))
  }

  function ParseBounds(input: string): Option<seq<VersionBound>> {
    var tokens := TokensOf(input);
    if tokens == [] then None else ExpandAll(tokens)
  }

  function ParseRequirement(input: string): Requirement {
    var comparators := ParseBounds(input);
    if comparators.None? then Exact(input) else Range(comparators.value)
  }

  method ReadBounds(input: string) returns (r: Option<seq<VersionBound>>)
    ensures r == ParseBounds(input)
  {
    hide Glue, Tokens, Expand, TrimEnd, TrimStart;
    var trimmed := Trim(input, IsSpace);
    if trimmed == "" {
      NoTokens();
      return None;
    }
    var tokens := Tokens(Glue(trimmed, false));
    var comparators: seq<VersionBound> := [];
    var sawToken := false;
    for i := 0 to |tokens|
      invariant ExpandAll(tokens[..i]) == Some(comparators)
      invariant sawToken <==> i > 0
    {
      var expanded := Expand(tokens[i]);
      assert tokens[..i + 1][..i] == tokens[..i];
      if expanded.None? {
        OneBadToken(tokens, i);
        return None;
      }
      sawToken := true;
      comparators := comparators + expanded.value;
    }
    assert tokens[..|tokens|] == tokens;
    return if sawToken then Some(comparators) else None;
  }

  lemma NoTokens()
    ensures Tokens(Glue("", false)) == []
  {
  }

  lemma {:induction false} OneBadToken(tokens: seq<string>, i: nat)
    requires i < |tokens| && Expand(tokens[i]).None?
    ensures ExpandAll(tokens).None?
    decreases |tokens|
  {
    hide Expand;
    if i < |tokens| - 1 { OneBadToken(tokens[..|tokens| - 1], i); }
  }

  // ---------- What a requirement means ----------

  /** What one token says of a stable version. */
  ghost predicate TokenSays(token: string, v: SemVer) {
    ReadToken(token).Some? && Says(ReadToken(token).value.0, ReadToken(token).value.1, v)
  }

  lemma MatchesBoth(a: seq<VersionBound>, b: seq<VersionBound>, v: SemVer)
    ensures MatchesAll(a + b, v) <==> MatchesAll(a, v) && MatchesAll(b, v)
  {
    hide MatchesBound;
    if MatchesAll(a + b, v) {
      assert forall i | 0 <= i < |a| :: (a + b)[i] == a[i];
      assert forall i | 0 <= i < |b| :: (a + b)[|a| + i] == b[i];
    }
  }

  /** What one token takes of prereleases. */
  ghost predicate TokenTakes(token: string, v: SemVer) {
    ReadToken(token).Some? && Takes(ReadToken(token).value.0, ReadToken(token).value.1, v)
  }

  ghost predicate TokenAccepts(token: string, v: SemVer) {
    if IsStable(v) then TokenSays(token, v) else TokenTakes(token, v)
  }

  lemma ReadTokenMeans(token: string, v: SemVer)
    requires ReadToken(token).Some?
    ensures MatchesAll(Bounds(ReadToken(token).value.0, ReadToken(token).value.1), v) <==> TokenAccepts(token, v)
  {
    hide ReadToken, Says, Takes, MatchesAll, Bounds;
    var read := ReadToken(token).value;
    if IsStable(v) { BoundsMeanWhatTheySay(read.0, read.1, v); } else { BoundsTakePrereleases(read.0, read.1, v); }
  }

  lemma {:induction false} ExpandAllMeans(tokens: seq<string>, v: SemVer)
    requires ExpandAll(tokens).Some?
    ensures MatchesAll(ExpandAll(tokens).value, v) <==> forall i | 0 <= i < |tokens| :: TokenAccepts(tokens[i], v)
    decreases |tokens|
  {
    hide ReadToken, TokenAccepts, MatchesAll, Bounds;
    if tokens == [] {
      assert MatchesAll([], v) by { NothingToMatch(v); }
    } else {
      var n := |tokens| - 1;
      ExpandAllMeans(tokens[..n], v);
      var read := ReadToken(tokens[n]).value;
      ReadTokenMeans(tokens[n], v);
      MatchesBoth(ExpandAll(tokens[..n]).value, Bounds(read.0, read.1), v);
      assert forall i | 0 <= i < n :: tokens[..n][i] == tokens[i];
    }
  }

  lemma NothingToMatch(v: SemVer)
    ensures MatchesAll([], v)
  {
  }

  /** A range accepts exactly the stable versions of which each of its tokens holds, and the prereleases that
      each of its tokens takes. */
  lemma RequirementMeaning(input: string, v: SemVer)
    requires ParseRequirement(input).Range?
    ensures TokensOf(input) != []
    ensures MatchesAll(ParseRequirement(input).comparators, v) <==>
      forall i | 0 <= i < |TokensOf(input)| :: TokenAccepts(TokensOf(input)[i], v)
  {
    hide TokensOf, TokenAccepts, MatchesAll, ExpandAll;
    ExpandAllMeans(TokensOf(input), v);
  }

  // ---------- Conjunction ----------

  lemma TokensUnfold(s: string)
    requires s != "" && !IsSeparator(s[0])
    ensures var n := FirstWhere(s, IsSeparator); n > 0 && Tokens(s) == [s[..n]] + Tokens(s[n..])
  {
  }

  lemma {:induction false} TokensAround(x: string, c: char, y: string)
    requires IsSeparator(c)
    ensures Tokens(x + [c] + y) == Tokens(x) + Tokens(y)
    decreases |x|
  {
    var s := x + [c] + y;
    hide IsSeparator, FirstWhere;
    if x == "" {
      assert s[0] == c && s[1..] == y;
    } else {
      hide Tokens;
      assert s[0] == x[0];
      if IsSeparator(x[0]) {
        TokensSkip(x);
        TokensSkip(s);
        assert s[1..] == x[1..] + [c] + y;
        TokensAround(x[1..], c, y);
      } else {
        TokensUnfold(x);
        TokensUnfold(s);
        var n := FirstWhere(x, IsSeparator);
        FirstWhereIn(x, c, y);
        assert s[..n] == x[..n] && s[n..] == x[n..] + [c] + y;
        TokensAround(x[n..], c, y);
        assert [x[..n]] + (Tokens(x[n..]) + Tokens(y)) == [x[..n]] + Tokens(x[n..]) + Tokens(y);
      }
    }
  }

  lemma TokensSkip(s: string)
    requires s != "" && IsSeparator(s[0])
    ensures Tokens(s) == Tokens(s[1..])
  {
  }

  lemma FirstWhereIn(x: string, c: char, y: string)
    requires IsSeparator(c)
    ensures FirstWhere(x + [c] + y, IsSeparator) == FirstWhere(x, IsSeparator)
  {
    hide IsSeparator, FirstWhere;
    var s := x + [c] + y;
    var n, m := FirstWhere(x, IsSeparator), FirstWhere(s, IsSeparator);
    assert forall j | 0 <= j < |x| :: s[j] == x[j];
    assert s[|x|] == c;
  }

  lemma {:induction false} GlueComma(x: string, y: string, afterOp: bool)
    ensures Glue(x + "," + y, afterOp) == Glue(x, afterOp) + "," + Glue(y, false)
    decreases |x|
  {
    var s := x + "," + y;
    if x == "" {
      assert s[0] == ',' && s[1..] == y;
    } else {
      assert s[0] == x[0] && s[1..] == x[1..] + "," + y;
      if afterOp && IsSpace(x[0]) {
        GlueComma(x[1..], y, true);
      } else {
        GlueComma(x[1..], y, IsOpChar(x[0]));
      }
    }
  }

  lemma {:induction false} GlueEnd(x: string, c: char, afterOp: bool)
    requires IsSpace(c)
    ensures Glue(x + [c], afterOp) in {Glue(x, afterOp), Glue(x, afterOp) + [c]}
    decreases |x|
  {
    hide IsSpace;
    var s := x + [c];
    if x == "" {
      var none: string := "";
      assert s[0] == c && s[1..] == none;
      assert Glue(none, true) == none && Glue(none, IsOpChar(c)) == none;
      assert [c] + none == none + [c];
    } else {
      assert s[0] == x[0] && s[1..] == x[1..] + [c];
      if afterOp && IsSpace(x[0]) {
        GlueEnd(x[1..], c, true);
      } else {
        var rest := Glue(x[1..], IsOpChar(x[0]));
        GlueEnd(x[1..], c, IsOpChar(x[0]));
        assert [x[0]] + (rest + [c]) == [x[0]] + rest + [c];
      }
    }
  }

  lemma {:induction false} TrimStartIrrelevant(s: string)
    ensures Tokens(Glue(TrimStart(s, IsSpace), false)) == Tokens(Glue(s, false))
  {
    if s != "" && IsSpace(s[0]) {
      TrimStartIrrelevant(s[1..]);
      assert !IsOpChar(s[0]);
      var g := Glue(s[1..], false);
      assert ([s[0]] + g)[1..] == g;
    }
  }

  lemma {:induction false} TrimEndIrrelevant(s: string)
    ensures Tokens(Glue(TrimEnd(s, IsSpace), false)) == Tokens(Glue(s, false))
    decreases |s|
  {
    if s != "" && IsSpace(s[|s| - 1]) {
      var front, c := s[..|s| - 1], s[|s| - 1];
      TrimEndIrrelevant(front);
      assert s == front + [c];
      GlueEnd(front, c, false);
      TokensAround(Glue(front, false), c, "");
      assert Glue(front, false) + [c] + "" == Glue(front, false) + [c];
    }
  }

  // Trimming first changes no token.
  lemma TokensOfInput(input: string)
    ensures TokensOf(input) == Tokens(Glue(input, false))
  {
    TrimStartIrrelevant(input);
    TrimEndIrrelevant(TrimStart(input, IsSpace));
  }

  lemma {:induction false} ExpandAllConcat(a: seq<string>, b: seq<string>)
    requires ExpandAll(a).Some? && ExpandAll(b).Some?
    ensures ExpandAll(a + b) == Some(ExpandAll(a).value + ExpandAll(b).value)
    decreases |b|
  {
    hide Expand;
    if b == [] {
      assert a + b == a;
      assert ExpandAll(a).value + [] == ExpandAll(a).value;
    } else {
      var n := |b| - 1;
      assert (a + b)[..|a| + n] == a + b[..n];
      ExpandAllConcat(a, b[..n]);
      var x, y, z := ExpandAll(a).value, ExpandAll(b[..n]).value, Expand(b[n]).value;
      assert x + y + z == x + (y + z);
    }
  }

  /** Two ranges joined by a comma accept exactly what both accept. */
  lemma CommaConjoins(a: string, b: string, v: SemVer)
    requires ParseRequirement(a).Range? && ParseRequirement(b).Range?
    ensures ParseRequirement(a + "," + b) == Range(ParseRequirement(a).comparators + ParseRequirement(b).comparators)
    ensures MatchesAll(ParseRequirement(a + "," + b).comparators, v) <==>
      MatchesAll(ParseRequirement(a).comparators, v) && MatchesAll(ParseRequirement(b).comparators, v)
  {
    hide Tokens, Glue, Trim, ExpandAll;
    TokensOfInput(a);
    TokensOfInput(b);
    TokensOfInput(a + "," + b);
    GlueComma(a, b, false);
    TokensAround(Glue(a, false), ',', Glue(b, false));
    ExpandAllConcat(Tokens(Glue(a, false)), Tokens(Glue(b, false)));
    MatchesBoth(ParseRequirement(a).comparators, ParseRequirement(b).comparators, v);
  }

  /** Text is a range exactly when it holds a token and each of its tokens reads. */
  lemma RangeIff(input: string)
    ensures ParseRequirement(input).Range? <==>
      TokensOf(input) != [] && forall i | 0 <= i < |TokensOf(input)| :: ReadToken(TokensOf(input)[i]).Some?
    ensures ParseRequirement(input).Exact? ==> ParseRequirement(input).tag == input
  {
    hide TokensOf, ReadToken;
    ExpandAllIff(TokensOf(input));
  }

  lemma {:induction false} ExpandAllIff(tokens: seq<string>)
    ensures ExpandAll(tokens).Some? <==> forall i | 0 <= i < |tokens| :: ReadToken(tokens[i]).Some?
    decreases |tokens|
  {
    hide ReadToken, Bounds;
    if tokens != [] {
      var n := |tokens| - 1;
      ExpandAllIff(tokens[..n]);
      assert forall i | 0 <= i < n :: tokens[..n][i] == tokens[i];
    }
  }

  predicate AllSpace(s: string) {
    forall i | 0 <= i < |s| :: IsSpace(s[i])
  }

  lemma {:induction false} GlueSpaces(spaces: string, rest: string)
    requires AllSpace(spaces)
    ensures Glue(spaces + rest, true) == Glue(rest, true)
  {
    hide IsSpace;
    if spaces == "" {
      assert spaces + rest == rest;
    } else {
      assert (spaces + rest)[0] == spaces[0] && (spaces + rest)[1..] == spaces[1..] + rest;
      GlueSpaces(spaces[1..], rest);
    }
  }

  lemma {:induction false} GlueAfterOperator(x: string, op: char, spaces: string, y: string, afterOp: bool)
    requires IsOpChar(op) && AllSpace(spaces)
    ensures Glue(x + [op] + (spaces + y), afterOp) == Glue(x + [op] + y, afterOp)
    decreases |x|
  {
    var s, t := x + [op] + (spaces + y), x + [op] + y;
    if x == "" {
      assert s[0] == op && s[1..] == spaces + y && t[0] == op && t[1..] == y;
      GlueSpaces(spaces, y);
    } else {
      assert s[0] == x[0] && s[1..] == x[1..] + [op] + (spaces + y);
      assert t[0] == x[0] && t[1..] == x[1..] + [op] + y;
      GlueAfterOperator(x[1..], op, spaces, y, if afterOp && IsSpace(x[0]) then true else IsOpChar(x[0]));
    }
  }

  /** Space between an operator and its version changes no bounds, wherever it stands and however much there is. */
  lemma SpaceAfterOperator(x: string, op: char, spaces: string, y: string)
    requires IsOpChar(op) && AllSpace(spaces)
    ensures ParseBounds(x + [op] + (spaces + y)) == ParseBounds(x + [op] + y)
  {
    hide Glue, Tokens, Trim, ExpandAll;
    TokensOfInput(x + [op] + (spaces + y));
    TokensOfInput(x + [op] + y);
    GlueAfterOperator(x, op, spaces, y, false);
  }

  lemma {:induction false} GlueSpace(x: string, c: char, y: string, afterOp: bool)
    requires IsSpace(c) && x != "" && !IsOpChar(x[|x| - 1]) && !IsSpace(x[|x| - 1])
    ensures Glue(x + [c] + y, afterOp) == Glue(x, afterOp) + [c] + Glue(y, false)
    decreases |x|
  {
    var s := x + [c] + y;
    assert s[0] == x[0] && s[1..] == x[1..] + [c] + y;
    if |x| == 1 {
      GlueOne(x, c, y, afterOp);
    } else {
      hide IsSpace, IsOpChar;
      assert x[1..][|x| - 2] == x[|x| - 1];
      var next := if afterOp && IsSpace(x[0]) then true else IsOpChar(x[0]);
      GlueSpace(x[1..], c, y, next);
      var g, h := Glue(x[1..], next), Glue(y, false);
      assert [x[0]] + (g + [c] + h) == ([x[0]] + g) + [c] + h;
    }
  }

  lemma GlueOne(x: string, c: char, y: string, afterOp: bool)
    requires IsSpace(c) && |x| == 1 && !IsOpChar(x[0]) && !IsSpace(x[0])
    ensures Glue(x + [c] + y, afterOp) == Glue(x, afterOp) + [c] + Glue(y, false)
  {
    assert !IsOpChar(c);
    hide IsSpace, IsOpChar;
    var s, t := x + [c] + y, [c] + y;
    assert s[0] == x[0] && s[1..] == t && t[0] == c && t[1..] == y && x[1..] == "";
    assert Glue(s, afterOp) == [x[0]] + Glue(t, false);
    assert Glue(x, afterOp) == [x[0]] + Glue("", false) == [x[0]];
    assert Glue(t, false) == [c] + Glue(y, false);
    assert [x[0]] + ([c] + Glue(y, false)) == [x[0]] + [c] + Glue(y, false);
  }

  /** After anything but an operator or more space, space separates tokens as a comma does. */
  lemma SpaceIsComma(x: string, c: char, y: string)
    requires IsSpace(c) && x != "" && !IsOpChar(x[|x| - 1]) && !IsSpace(x[|x| - 1])
    ensures ParseBounds(x + [c] + y) == ParseBounds(x + "," + y)
  {
    hide Glue, Tokens, Trim, ExpandAll, IsSpace;
    TokensOfInput(x + [c] + y);
    TokensOfInput(x + "," + y);
    GlueSpace(x, c, y, false);
    GlueComma(x, y, false);
    TokensAround(Glue(x, false), c, Glue(y, false));
    TokensAround(Glue(x, false), ',', Glue(y, false));
  }

  /** The class `\s` is Unicode's white space, without the next-line character and with the byte-order mark. */
  lemma SpaceIsUnicodeSpace(c: char)
    ensures IsSpace(c) <==> c == '\U{feff}' || (IsWhiteSpace(c) && c != '\U{85}')
  {
  }

  // ---------- Malformed ranges ----------

  /** A tag with a wildcard before its last segment, or more than three numbers, after a first number. */
  ghost predicate Malformed(segments: seq<string>) {
    && |segments| >= 2 && IsNumber(segments[0])
    && ((AllNumbers(segments) && |segments| > 3) || exists k :: WildcardAt(segments, k))
  }

  ghost predicate WildcardAt(segments: seq<string>, k: int) {
    1 <= k < |segments| - 1 && IsWildcard(segments[k]) && AllNumbers(segments[..k])
  }

  method LooksLikeMalformedDottedNumericRequirement(input: string) returns (r: bool)
    ensures r <==> Malformed(Split(input, '.'))
  {
    hide Split;
    var segments := Split(input, '.');
    if |segments| < 2 || !IsNumber(segments[0]) { return false; }
    var allNumeric, sawWildcard := true, false;
    var i := 1;
    while i < |segments|
      invariant 1 <= i <= |segments|
      invariant allNumeric == !sawWildcard
      invariant !sawWildcard ==> AllNumbers(segments[..i])
      invariant sawWildcard ==> i >= 2 && IsWildcard(segments[i - 1]) && AllNumbers(segments[..i - 1])
    {
      var segment := segments[i];
      if sawWildcard {
        assert WildcardAt(segments, i - 1);
        return true;
      }
      if IsWildcard(segment) {
        sawWildcard, allNumeric := true, false;
      } else {
        if segment == "" || !IsNumber(segment) {
          NotMalformedAt(segments, i);
          return false;
        }
        assert segments[..i + 1] == segments[..i] + [segment];
      }
      i := i + 1;
    }
    assert segments[..|segments|] == segments;
    if sawWildcard {
      NotMalformedEnd(segments);
    } else {
      AllNumbersNoWildcard(segments);
    }
    return allNumeric && |segments| > 3;
  }

  lemma NotMalformedAt(segments: seq<string>, i: nat)
    requires i < |segments| && AllNumbers(segments[..i]) && !IsNumber(segments[i]) && !IsWildcard(segments[i])
    ensures !Malformed(segments)
  {
    hide IsNumber, IsWildcard;
    forall k ensures !WildcardAt(segments, k) {
      WildcardBounded(segments, k, i);
    }
  }

  lemma WildcardBounded(segments: seq<string>, k: int, i: nat)
    requires i < |segments| && AllNumbers(segments[..i]) && !IsNumber(segments[i])
    ensures WildcardAt(segments, k) ==> k == i
  {
    if WildcardAt(segments, k) {
      WildcardIsNoNumber(segments[k]);
      hide IsNumber, IsWildcard;
      assert forall j | 0 <= j < i :: segments[..i][j] == segments[j];
      assert forall j | 0 <= j < k :: segments[..k][j] == segments[j];
    }
  }

  lemma NotMalformedEnd(segments: seq<string>)
    requires |segments| >= 2 && IsWildcard(segments[|segments| - 1]) && AllNumbers(segments[..|segments| - 1])
    ensures !Malformed(segments)
  {
    var last := |segments| - 1;
    WildcardIsNoNumber(segments[last]);
    hide IsNumber, IsWildcard;
    forall k ensures !WildcardAt(segments, k) {
      WildcardBounded(segments, k, last);
    }
  }

  lemma AllNumbersNoWildcard(segments: seq<string>)
    requires AllNumbers(segments)
    ensures !exists k :: WildcardAt(segments, k)
  {
    forall k ensures !WildcardAt(segments, k) {
      if WildcardAt(segments, k) { WildcardIsNoNumber(segments[k]); }
    }
  }

  lemma {:induction false} SplitOfPrefix(parts: seq<string>, rest: string, c: char)
    requires parts != [] && forall p | p in parts :: c !in p
    ensures Split(Join(parts, c) + [c] + rest, c) == parts + Split(rest, c)
    decreases |parts|
  {
    hide Split;
    if |parts| == 1 {
      SplitFirst(parts[0], rest, c);
      assert parts == [parts[0]];
    } else {
      hide Join;
      var tail := Join(parts[1..], c);
      JoinHead(parts, c);
      assert parts[0] + [c] + tail + [c] + rest == parts[0] + [c] + (tail + [c] + rest);
      SplitFirst(parts[0], tail + [c] + rest, c);
      SplitOfPrefix(parts[1..], rest, c);
      assert parts == [parts[0]] + parts[1..];
      assert [parts[0]] + (parts[1..] + Split(rest, c)) == [parts[0]] + parts[1..] + Split(rest, c);
    }
  }

  // Characters that leave a token alone: neither operator, separator, dash nor build mark.
  predicate Plainly(s: string) {
    forall i | 0 <= i < |s| :: IsDigit(s[i]) || s[i] in {'.', '*', 'x', 'X'}
  }

  lemma {:induction false} GluePlain(p: string, rest: string)
    requires Plainly(p)
    ensures Glue(p + rest, false) == p + Glue(rest, false)
    decreases |p|
  {
    if p == "" {
      assert p + rest == rest;
    } else {
      var s := p + rest;
      assert s[0] == p[0] && s[1..] == p[1..] + rest;
      assert !IsOpChar(p[0]) && !IsSpace(p[0]);
      GluePlain(p[1..], rest);
      assert p == [p[0]] + p[1..];
    }
  }

  lemma FirstTokenBegins(p: string, rest: string) returns (u: string)
    requires Plainly(p) && p != ""
    ensures Tokens(p + rest) != [] && Tokens(p + rest)[0] == p + u
    ensures forall i | 0 <= i < |u| :: !IsSeparator(u[i])
  {
    var s := p + rest;
    forall i | 0 <= i < |p| ensures !IsSeparator(s[i]) {
      assert s[i] == p[i];
    }
    hide IsSeparator;
    var n := FirstWhere(s, IsSeparator);
    assert n >= |p|;
    u := rest[..n - |p|];
    assert s[..n] == p + u;
    assert forall i | 0 <= i < |u| :: u[i] == s[|p| + i];
  }

  lemma NoTrim(token: string)
    requires token != "" && forall i | 0 <= i < |token| :: !IsSpace(token[i])
    ensures TrimStart(token, IsSpace) == token && TrimEnd(token, IsSpace) == token
  {
  }

  lemma HeadOfPlain(p: string, u: string) returns (w: string)
    requires Plainly(p)
    ensures Head(p + u, '+') == p + w
  {
    var s := p + u;
    var i := Index(s, '+');
    assert forall j | 0 <= j < |p| :: s[j] == p[j];
    assert i >= |p|;
    w := u[..i - |p|];
    assert s[..i] == p + w;
  }

  lemma BeforeDashOfPlain(p: string, u: string) returns (w: string)
    requires Plainly(p)
    ensures BeforeDash(p + u) == p + w
  {
    var s := p + u;
    var i := Index(s, '-');
    assert forall j | 0 <= j < |p| :: s[j] == p[j];
    assert i >= |p|;
    w := if DashAt(s).Some? then u[..i - |p|] else u;
    assert DashAt(s).Some? ==> s[..i] == p + w;
  }

  // A token that begins with these segments and a dot is no partial version if one of them is no number.
  lemma BadTokenPrefix(parts: seq<string>, p: string, u: string, k: nat)
    requires parts != [] && (forall x | x in parts :: '.' !in x) && p == Join(parts, '.') + "." && Plainly(p)
    requires p[0] != 'v' && k < |parts| && !IsNumber(parts[k])
    ensures ParsePartial(p + u).None?
  {
    hide Split, Join, Plainly, ParseSegments, BeforeDash, AfterDash, Head;
    var token := p + u;
    assert token[0] == p[0] && StripV(token) == token;
    var w := HeadOfPlain(p, u);
    var y := BeforeDashOfPlain(p, w);
    SplitOfPrefix(parts, y, '.');
    assert p + y == Join(parts, '.') + ['.'] + y;
    var segments := parts + Split(y, '.');
    assert segments[k] == parts[k];
    BadSegment(segments, k);
  }

  lemma DigitIsBare(token: string)
    requires token != "" && IsDigit(token[0])
    ensures SplitOperator(token) == (Bare, token)
  {
    assert ">="[0] == '>' && "<="[0] == '<';
  }

  lemma PlainTokenIsBare(token: string)
    requires token != "" && IsDigit(token[0]) && (forall i | 0 <= i < |token| :: !IsSpace(token[i]))
    requires ParsePartial(token).None?
    ensures Expand(token).None?
  {
    NoTrim(token);
    assert SplitOperator(token) == (Bare, token) by { DigitIsBare(token); }
    hide ParsePartial, IsSpace, SplitOperator, TrimStart, TrimEnd, IsLineTerminator, IsDigit;
  }

  lemma JoinPlain(parts: seq<string>, k: nat)
    requires k < |parts| && IsNumber(parts[0])
    requires forall i | 0 <= i < |parts| :: IsNumber(parts[i]) || IsWildcard(parts[i])
    ensures Plainly(Join(parts[..k + 1], '.')) && Join(parts[..k + 1], '.') != "" && IsDigit(Join(parts[..k + 1], '.')[0])
    ensures forall x | x in parts :: '.' !in x
  {
    forall x | x in parts ensures '.' !in x && Plainly(x) {
      var i :| 0 <= i < |parts| && parts[i] == x;
    }
    PlainJoin(parts[..k + 1]);
    assert Join(parts[..k + 1], '.')[0] == parts[0][0];
  }

  lemma {:induction false} PlainJoin(parts: seq<string>)
    requires forall x | x in parts :: Plainly(x)
    ensures Plainly(Join(parts, '.'))
    decreases |parts|
  {
    if parts != [] {
      assert Plainly(parts[0]);
      PlainJoin(parts[1..]);
      PlainConcat(parts[0], Join(parts[1..], '.'));
    }
  }

  lemma {:induction false} JoinCut(parts: seq<string>, k: nat)
    requires k + 1 < |parts|
    ensures Join(parts, '.') == Join(parts[..k + 1], '.') + "." + Join(parts[k + 1..], '.')
    decreases k
  {
    if k == 0 {
      assert parts[..1] == [parts[0]];
    } else {
      JoinCut(parts[1..], k - 1);
      assert parts[1..][..k] == parts[..k + 1][1..] && parts[1..][k..] == parts[k + 1..];
      assert parts[..k + 1][0] == parts[0];
    }
  }

  // An input whose segments up to k are plain, k not being the last.
  lemma BadPrefixIsExact(input: string, k: nat)
    requires var segments := Split(input, '.');
      && k + 1 < |segments| && IsNumber(segments[0])
      && (forall i | 0 <= i <= k :: IsNumber(segments[i]) || IsWildcard(segments[i]))
      && exists i :: 0 <= i <= k && !IsNumber(segments[i])
    ensures ParseRequirement(input) == Exact(input)
  {
    hide Tokens, Glue, Trim, Expand, ExpandAll, Split, IsNumber, IsWildcard, ParsePartial, Plainly, Join, IsSeparator;
    var segments := Split(input, '.');
    var parts := segments[..k + 1];
    JoinSplit(input, '.');
    JoinCut(segments, k);
    JoinPlain(parts, k);
    assert parts[..k + 1] == parts;
    var p := Join(parts, '.') + ".";
    var rest := Join(segments[k + 1..], '.');
    assert Plainly(p) by { PlainDot(Join(parts, '.')); }
    TokensOfInput(input);
    GluePlain(p, rest);
    var u := FirstTokenBegins(p, Glue(rest, false));
    var i :| 0 <= i <= k && !IsNumber(segments[i]);
    assert p[0] == Join(parts, '.')[0];
    BadTokenPrefix(parts, p, u, i);
    PlainNoSpace(p, u);
    PlainTokenIsBare(p + u);
    OneBadToken(Tokens(Glue(input, false)), 0);
  }

  lemma PlainConcat(a: string, b: string)
    requires Plainly(a) && Plainly(b)
    ensures Plainly(a + "." + b)
  {
  }

  lemma PlainDot(s: string)
    requires Plainly(s)
    ensures Plainly(s + ".")
  {
  }

  lemma PlainNoSpace(p: string, u: string)
    requires Plainly(p) && forall i | 0 <= i < |u| :: !IsSeparator(u[i])
    ensures forall i | 0 <= i < |p + u| :: !IsSpace((p + u)[i])
  {
    forall i | 0 <= i < |p + u| ensures !IsSpace((p + u)[i]) {
      if i >= |p| { assert !IsSeparator(u[i - |p|]); }
    }
  }

  lemma ManyNumbersAreExact(input: string)
    requires var segments := Split(input, '.'); AllNumbers(segments) && |segments| > 3
    ensures ParseRequirement(input) == Exact(input)
  {
    hide Tokens, Glue, Trim, ExpandAll, Split, Join, Plainly, IsSeparator;
    var segments := Split(input, '.');
    JoinSplit(input, '.');
    JoinPlain(segments, |segments| - 1);
    assert segments[..|segments|] == segments;
    TokensOfInput(input);
    GluePlain(input, "");
    assert input + "" == input;
    assert Glue("", false) == "" by { GlueNothing(); }
    var u := FirstTokenBegins(input, "");
    assert Tokens(input) != [] && Tokens(input)[0] == input + u;
    PlainWhole(input, u);
    ManyNumbersNoPartial(input);
    PlainNoSpace(input, "");
    PlainTokenIsBare(input);
    OneBadToken(Tokens(input), 0);
  }

  lemma GlueNothing()
    ensures Glue("", false) == ""
  {
  }

  lemma PlainWhole(p: string, u: string)
    requires Plainly(p) && p != "" && Tokens(p + "") != [] && Tokens(p + "")[0] == p + u
    ensures u == ""
  {
    assert p + "" == p;
    var n := FirstWhere(p, IsSeparator);
    assert forall i | 0 <= i < |p| :: !IsSeparator(p[i]);
    assert |p[..n]| <= |p|;
  }

  lemma ManyNumbersNoPartial(input: string)
    requires var segments := Split(input, '.'); AllNumbers(segments) && |segments| > 3
    requires Plainly(input) && input != "" && IsDigit(input[0])
    ensures ParsePartial(input).None?
  {
    var segments := Split(input, '.');
    IndexNone(input, '+');
    IndexNone(input, '-');
    WildcardIsNoNumber(segments[|segments| - 1]);
    hide Split, IsNumber, Index;
    assert input[..|input|] == input;
  }

  /** What is reported as a malformed range is never one that would have parsed as a range. */
  lemma MalformedIsNeverRange(input: string)
    requires Malformed(Split(input, '.'))
    ensures ParseRequirement(input) == Exact(input)
  {
    hide Split, ParseRequirement, IsNumber, IsWildcard;
    var segments := Split(input, '.');
    if AllNumbers(segments) && |segments| > 3 {
      ManyNumbersAreExact(input);
    } else {
      var k :| WildcardAt(segments, k);
      assert forall i | 0 <= i < k :: segments[..k][i] == segments[i];
      WildcardIsNoNumber(segments[k]);
      BadPrefixIsExact(input, k);
    }
  }

  // ---------- Matching a published spelling ----------

  function Matches(requirement: Requirement, version: string): bool {
    match requirement
    case Exact(tag) => version == tag
    case Range(comparators) =>
      var parsed := ParseVersion(version);
      parsed.Some? && MatchesAll(comparators, parsed.value)
  }

  /** A range requirement accepts every published version between two that it accepts. */
  lemma RequirementsAreConvex(input: string, low: string, mid: string, high: string)
    requires ParseRequirement(input).Range?
    requires Matches(ParseRequirement(input), low) && Matches(ParseRequirement(input), high)
    requires ParseVersion(mid).Some?
    requires NotAbove(ParseVersion(low).value, ParseVersion(mid).value)
    requires NotAbove(ParseVersion(mid).value, ParseVersion(high).value)
    ensures Matches(ParseRequirement(input), mid)
  {
    hide ParseVersion, ParseRequirement, MatchesAll, NotAbove;
    RangesAreConvex(ParseRequirement(input).comparators,
      ParseVersion(low).value, ParseVersion(mid).value, ParseVersion(high).value);
  }

  /** The requirement `*` constrains nothing. */
  lemma StarIsEmptyRange()
    ensures ParseRequirement("*") == Range([])
  {
    TokensOfInput("*");
    GluePlain("*", "");
    GlueNothing();
    assert "*" + "" == "*";
    StarToken();
    StarExpands();
    hide Tokens, Glue, Trim, Expand;
    var one: seq<string> := ["*"];
    assert one[..0] == [];
    assert ExpandAll([]) == Some([]);
    assert ExpandAll(["*"]) == Some([] + []);
  }

  lemma StarToken()
    ensures Tokens("*") == ["*"]
  {
    var s := "*";
    assert !IsSeparator(s[0]);
    assert s[1..] == "";
    assert FirstWhere(s[1..], IsSeparator) == 0;
    assert FirstWhere(s, IsSeparator) == 1;
    assert s[..1] == s;
  }

  lemma StarExpands()
    ensures Expand("*") == Some([])
  {
    var s := "*";
    NoTrim(s);
    IndexNone(s, '+');
    IndexNone(s, '-');
    SplitSingle(s, '.');
    assert s[..1] == s;
    hide Index;
    var one: seq<string> := [s];
    assert one[..0] == [];
    assert ParseSegments([s]) == Some(([], true));
  }

  // ---------- Spelled tokens ----------

  function OperatorText(operator: Operator): string {
    match operator
    case Bare => ""
    case Caret => "^"
    case Tilde => "~"
    case Plain(Eq) => "="
    case Plain(Gt) => ">"
    case Plain(Ge) => ">="
    case Plain(Lt) => "<"
    case Plain(Le) => "<="
  }

  function Printed(parts: seq<nat>): seq<string> {
    seq(|parts|, i requires 0 <= i < |parts| => Print(parts[i]))
  }

  function SpelledSegments(parts: seq<nat>, wildcard: Option<string>): seq<string> {
    Printed(parts) + if wildcard.Some? then [wildcard.value] else []
  }

  // Numbers, perhaps a final wildcard, perhaps a prerelease.
  function SpelledPartial(parts: seq<nat>, wildcard: Option<string>, pre: Option<string>): string {
    Join(SpelledSegments(parts, wildcard), '.') + Suffix('-', pre)
  }

  // Up to three numbers, or up to two and a wildcard in any of its spellings.
  predicate Spellable(parts: seq<nat>, wildcard: Option<string>) {
    if wildcard.Some? then |parts| <= 2 && wildcard.value in {"*", "x", "X"} else 1 <= |parts| <= 3
  }

  predicate LegiblePre(pre: string) {
    pre != "" && forall i | 0 <= i < |pre| :: pre[i] != '+' && !IsSpace(pre[i])
  }

  lemma PrintedReads(parts: seq<nat>)
    ensures AllCanonical(Printed(parts)) && Numbers(Printed(parts)) == parts
    ensures forall x | x in Printed(parts) :: '.' !in x && Plainly(x) && x != ""
  {
    var printed := Printed(parts);
    forall i | 0 <= i < |parts|
      ensures IsNumber(printed[i]) && !LeadingZero(printed[i]) && Decimal(printed[i]) == parts[i]
    {
      PrintRoundTrip(parts[i]);
    }
    hide Print, Decimal;
    assert forall x | x in printed :: IsNumber(x);
    assert forall i | 0 <= i < |parts| :: Numbers(printed)[i] == parts[i];
  }

  lemma SegmentsRead(parts: seq<nat>, wildcard: Option<string>)
    requires Spellable(parts, wildcard)
    ensures var segments := SpelledSegments(parts, wildcard);
      ParseSegments(segments) == Some((parts, wildcard.Some?)) && forall x | x in segments :: '.' !in x && Plainly(x) && x != ""
  {
    PrintedReads(parts);
    var printed, segments := Printed(parts), SpelledSegments(parts, wildcard);
    if wildcard.Some? {
      assert segments[..|segments| - 1] == printed;
    } else {
      assert segments == printed;
      WildcardIsNoNumber(printed[|printed| - 1]);
    }
  }

  lemma SpelledCore(parts: seq<nat>, wildcard: Option<string>)
    requires Spellable(parts, wildcard)
    ensures var core := Join(SpelledSegments(parts, wildcard), '.');
      Plainly(core) && core != "" && core[0] != '.' && Split(core, '.') == SpelledSegments(parts, wildcard)
  {
    SegmentsRead(parts, wildcard);
    var segments := SpelledSegments(parts, wildcard);
    assert segments != [];
    hide *;
    PlainJoin(segments);
    SplitJoin(segments, '.');
    NoDotFirst(segments);
  }

  lemma NoDotFirst(parts: seq<string>)
    requires parts != [] && forall x | x in parts :: '.' !in x && x != ""
    ensures Join(parts, '.') != "" && Join(parts, '.')[0] != '.'
  {
    var first := parts[0];
    assert first in parts && first[0] in first;
    assert Join(parts, '.')[0] == first[0];
  }

  lemma CoreReads(core: string, parts: seq<nat>, wildcard: bool, pre: Option<string>)
    requires Plainly(core) && core != "" && ParseSegments(Split(core, '.')) == Some((parts, wildcard))
    requires pre.Some? ==> LegiblePre(pre.value)
    ensures ParsePartial(core + Suffix('-', pre)) ==
      Some(Partial(parts, if pre.Some? then Split(pre.value, '.') else [], wildcard))
  {
    hide Split, ParseSegments, IsSpace;
    var raw := core + Suffix('-', pre);
    assert raw[0] == core[0] && StripV(raw) == raw;
    assert '-' !in core && '+' !in core;
    assert '+' !in raw;
    IndexNone(raw, '+');
    assert raw[..|raw|] == raw;
    DashSplits(core, pre);
  }

  lemma DashSplits(core: string, pre: Option<string>)
    requires core != "" && '-' !in core && (pre.Some? ==> pre.value != "")
    ensures BeforeDash(core + Suffix('-', pre)) == core && AfterDash(core + Suffix('-', pre)) == pre
  {
    var raw := core + Suffix('-', pre);
    if pre.Some? {
      IndexAfter(core, pre.value, '-');
      assert raw == core + ['-'] + pre.value;
      assert raw[..|core|] == core && raw[|core| + 1..] == pre.value;
    } else {
      assert raw == core;
      IndexNone(core, '-');
    }
  }

  lemma OperatorSplits(operator: Operator, rest: string)
    requires rest != "" && !IsOpChar(rest[0])
    ensures SplitOperator(OperatorText(operator) + rest) == (operator, rest)
  {
    var text := OperatorText(operator);
    var token := text + rest;
    assert token[|text|..] == rest && token[|text|] == rest[0];
    assert forall i | 0 <= i < |text| :: token[i] == text[i];
    assert ">=" <= token ==> token[0] == '>' && token[1] == '=' by { assert ">="[0] == '>' && ">="[1] == '='; }
    assert "<=" <= token ==> token[0] == '<' && token[1] == '=' by { assert "<="[0] == '<' && "<="[1] == '='; }
  }

  lemma SpelledHasNoSpace(core: string, pre: Option<string>)
    requires Plainly(core) && (pre.Some? ==> LegiblePre(pre.value))
    ensures forall i | 0 <= i < |core + Suffix('-', pre)| :: !IsSpace((core + Suffix('-', pre))[i])
  {
    var raw := core + Suffix('-', pre);
    forall i | 0 <= i < |raw| ensures !IsSpace(raw[i]) {
      if i > |core| { assert raw[i] == pre.value[i - |core| - 1]; }
    }
  }

  lemma LineTerminatorIsSpace(c: char)
    ensures IsLineTerminator(c) ==> IsSpace(c)
  {
  }

  lemma TokenReads(operator: Operator, rest: string, p: Partial)
    requires rest != "" && !IsOpChar(rest[0]) && (forall i | 0 <= i < |rest| :: !IsSpace(rest[i]))
    requires |p.parts| <= 3 && ParsePartial(rest) == Some(p)
    ensures ReadToken(OperatorText(operator) + rest) == Some((operator, p))
  {
    hide ParsePartial, SplitOperator, OperatorText, IsSpace, IsOpChar;
    OperatorSplits(operator, rest);
    NoTrim(rest);
    hide TrimStart, TrimEnd;
    forall i | 0 <= i < |rest| ensures !IsLineTerminator(rest[i]) { LineTerminatorIsSpace(rest[i]); }
  }

  lemma SpelledStart(core: string, pre: Option<string>)
    requires Plainly(core) && core != ""
    ensures core + Suffix('-', pre) != "" && !IsOpChar((core + Suffix('-', pre))[0])
  {
    assert (core + Suffix('-', pre))[0] == core[0];
  }

  /** A spelled token is read as its operator, numbers, wildcard and prerelease. */
  lemma TokenRoundTrip(operator: Operator, parts: seq<nat>, wildcard: Option<string>, pre: Option<string>)
    requires Spellable(parts, wildcard) && (pre.Some? ==> LegiblePre(pre.value))
    ensures ReadToken(OperatorText(operator) + SpelledPartial(parts, wildcard, pre)) ==
      Some((operator, Partial(parts, if pre.Some? then Split(pre.value, '.') else [], wildcard.Some?)))
  {
    SpelledCore(parts, wildcard);
    SegmentsRead(parts, wildcard);
    assert |parts| <= 3;
    hide SpelledSegments, Join, Split, ParseSegments, Plainly, LegiblePre, ParsePartial, ReadToken, OperatorText, IsSpace,
      IsOpChar, Spellable, Suffix;
    var core := Join(SpelledSegments(parts, wildcard), '.');
    CoreReads(core, parts, wildcard.Some?, pre);
    SpelledHasNoSpace(core, pre);
    SpelledStart(core, pre);
    TokenReads(operator, SpelledPartial(parts, wildcard, pre),
      Partial(parts, if pre.Some? then Split(pre.value, '.') else [], wildcard.Some?));
  }

  /** A spelled token accepts exactly the stable versions it describes and the prereleases it takes. */
  lemma SpelledTokenMeans(operator: Operator, parts: seq<nat>, wildcard: Option<string>, pre: Option<string>, v: SemVer)
    requires Spellable(parts, wildcard) && (pre.Some? ==> LegiblePre(pre.value))
    ensures var p := Partial(parts, if pre.Some? then Split(pre.value, '.') else [], wildcard.Some?);
      var bounds := Expand(OperatorText(operator) + SpelledPartial(parts, wildcard, pre));
      bounds.Some? && (MatchesAll(bounds.value, v) <==> if IsStable(v) then Says(operator, p, v) else Takes(operator, p, v))
  {
    hide ReadToken, Split, MatchesAll, Says, Takes, Bounds, SpelledPartial, OperatorText, LegiblePre;
    TokenRoundTrip(operator, parts, wildcard, pre);
    ReadTokenMeans(OperatorText(operator) + SpelledPartial(parts, wildcard, pre), v);
  }

  // ---------- Nothing else is read ----------

  predicate NoSpace(s: string) {
    forall i | 0 <= i < |s| :: !IsSpace(s[i])
  }

  // Nothing, or a plus and anything.
  predicate IsBuild(build: string) {
    build == "" || build[0] == '+'
  }

  lemma HeadDecorated(raw: string, build: string)
    requires '+' !in raw && IsBuild(build)
    ensures Head(raw + build, '+') == raw
  {
    if build == "" {
      assert raw + build == raw;
      IndexNone(raw, '+');
    } else {
      assert raw + build == raw + ['+'] + build[1..];
      IndexAfter(raw, build[1..], '+');
    }
  }

  lemma PartialDecorated(raw: string, build: string)
    requires raw != "" && raw[0] != 'v' && '+' !in raw && IsBuild(build)
    ensures ParsePartial("v" + raw + build) == ParsePartial(raw + build) == ParsePartial(raw)
  {
    HeadDecorated(raw, build);
    HeadDecorated(raw, "");
    hide Split, ParseSegments, BeforeDash, AfterDash, Head;
    assert "v" + raw + build == ['v'] + (raw + build);
    assert (['v'] + (raw + build))[1..] == raw + build && (raw + build)[0] == raw[0];
    assert raw + "" == raw;
  }

  lemma ReadsAfter(operator: Operator, rest: string)
    requires rest != "" && !IsOpChar(rest[0]) && NoSpace(rest)
    ensures ReadToken(OperatorText(operator) + rest) ==
      if ParsePartial(rest).None? then None else Some((operator, ParsePartial(rest).value))
  {
    hide ParsePartial, SplitOperator, OperatorText, IsSpace, IsOpChar;
    OperatorSplits(operator, rest);
    NoTrim(rest);
    hide TrimStart, TrimEnd;
    forall i | 0 <= i < |rest| ensures !IsLineTerminator(rest[i]) { LineTerminatorIsSpace(rest[i]); }
  }

  /** One leading `v` and a build label change nothing in a token. */
  lemma DecorationsIgnored(operator: Operator, raw: string, build: string)
    requires raw != "" && raw[0] != 'v' && !IsOpChar(raw[0]) && '+' !in raw && IsBuild(build) && NoSpace(raw) && NoSpace(build)
    ensures ReadToken(OperatorText(operator) + (raw + build)) == ReadToken(OperatorText(operator) + raw)
    ensures ReadToken(OperatorText(operator) + ("v" + raw + build)) == ReadToken(OperatorText(operator) + raw)
  {
    PartialDecorated(raw, build);
    assert NoSpace("v") && !IsOpChar('v') by { assert !IsSpace('v'); }
    hide IsSpace, IsOpChar, OperatorText, ReadToken, ParsePartial, IsBuild;
    NoSpaceJoined(raw, build);
    NoSpaceJoined("v", raw);
    NoSpaceJoined("v" + raw, build);
    hide NoSpace;
    assert (raw + build)[0] == raw[0] && ("v" + raw + build)[0] == 'v';
    ReadsAfter(operator, raw);
    ReadsAfter(operator, raw + build);
    ReadsAfter(operator, "v" + raw + build);
  }

  lemma NoSpaceJoined(a: string, b: string)
    requires NoSpace(a) && NoSpace(b)
    ensures NoSpace(a + b)
  {
    hide IsSpace;
  }

  lemma OperatorInverse(token: string)
    ensures token == OperatorText(SplitOperator(token).0) + SplitOperator(token).1
  {
    var (operator, rest) := SplitOperator(token);
    if ">=" <= token || "<=" <= token { assert token == token[..2] + token[2..]; }
    if token != "" { assert token == [token[0]] + token[1..]; }
  }

  lemma CanonicalPrinted(segments: seq<string>)
    requires AllCanonical(segments)
    ensures Printed(Numbers(segments)) == segments
  {
    forall i | 0 <= i < |segments| ensures Print(Numbers(segments)[i]) == segments[i] { DecimalRoundTrip(segments[i]); }
    hide Print, Decimal;
  }

  lemma SegmentsInverse(segments: seq<string>) returns (wildcard: Option<string>)
    requires segments != [] && segments != [""] && ParseSegments(segments).Some?
    ensures var (parts, starred) := ParseSegments(segments).value;
      Spellable(parts, wildcard) && starred == wildcard.Some? && SpelledSegments(parts, wildcard) == segments
  {
    var n := |segments| - 1;
    assert segments == segments[..n] + [segments[n]];
    if IsWildcard(segments[n]) {
      wildcard := Some(segments[n]);
      CanonicalPrinted(segments[..n]);
    } else {
      wildcard := None;
      CanonicalPrinted(segments);
    }
  }

  /** Whatever is read as a partial version is spelled as one: perhaps a `v`, then up to three numerals without
      leading zeros or up to two and a final wildcard, then perhaps a prerelease and perhaps a build label. */
  lemma PartialInverse(raw: string) returns (v: string, wildcard: Option<string>, pre: Option<string>, build: string)
    requires ParsePartial(raw).Some?
    ensures var p := ParsePartial(raw).value;
      && Spellable(p.parts, wildcard) && p.wildcard == wildcard.Some?
      && p.pre == (if pre.Some? then Split(pre.value, '.') else []) && (pre.Some? ==> pre.value != "" && '+' !in pre.value)
      && v in {"", "v"} && IsBuild(build)
      && raw == v + SpelledPartial(p.parts, wildcard, pre) + build
  {
    v := StripVInverse(raw);
    var stripped := StripV(raw);
    hide StripV;
    var input := Head(stripped, '+');
    build := stripped[|input|..];
    HeadInverse(stripped);
    hide Head;
    pre := AfterDash(input);
    DashInverse(input);
    wildcard := PartialCoreInverse(BeforeDash(input));
    hide Split, ParseSegments, BeforeDash, AfterDash, SpelledSegments, Spellable, Join;
    var spelled := SpelledPartial(ParsePartial(raw).value.parts, wildcard, pre);
    assert spelled == input;
    if pre.Some? { TailOf(BeforeDash(input), '-', pre.value); }
    hide *;
    assert raw == v + (spelled + build);
    Associate(v, spelled, build);
  }

  lemma Associate(a: string, b: string, c: string)
    ensures a + (b + c) == a + b + c
  {
  }

  lemma TailOf(front: string, c: char, tail: string)
    ensures forall d | d in tail :: d in front + ([c] + tail)
  {
    var s := front + ([c] + tail);
    assert forall i | 0 <= i < |tail| :: tail[i] == s[|front| + 1 + i];
  }

  lemma HeadInverse(s: string)
    ensures s == Head(s, '+') + s[|Head(s, '+')|..] && '+' !in Head(s, '+') && IsBuild(s[|Head(s, '+')|..])
  {
  }

  lemma PartialCoreInverse(core: string) returns (wildcard: Option<string>)
    requires core != "" && ParseSegments(Split(core, '.')).Some?
    ensures var (parts, starred) := ParseSegments(Split(core, '.')).value;
      Spellable(parts, wildcard) && starred == wildcard.Some? && Join(SpelledSegments(parts, wildcard), '.') == core
  {
    var segments := Split(core, '.');
    JoinSplit(core, '.');
    hide Split, ParseSegments;
    assert Join([""], '.') == "";
    wildcard := SegmentsInverse(segments);
  }

  /** So text without space is read as a token only if it is an operator and such a partial version. */
  lemma TokenInverse(token: string) returns (v: string, wildcard: Option<string>, pre: Option<string>, build: string)
    requires ReadToken(token).Some? && NoSpace(token)
    ensures var (operator, p) := ReadToken(token).value;
      && Spellable(p.parts, wildcard) && p.wildcard == wildcard.Some?
      && p.pre == (if pre.Some? then Split(pre.value, '.') else []) && (pre.Some? ==> pre.value != "" && '+' !in pre.value)
      && v in {"", "v"} && IsBuild(build)
      && token == OperatorText(operator) + (v + SpelledPartial(p.parts, wildcard, pre) + build)
  {
    OperatorInverse(token);
    var rest := SplitOperator(token).1;
    NoSpaceTail(OperatorText(SplitOperator(token).0), rest);
    PartialOf(token);
    hide *;
    v, wildcard, pre, build := PartialInverse(rest);
  }

  lemma NoSpaceTail(front: string, rest: string)
    requires NoSpace(front + rest)
    ensures NoSpace(rest)
  {
    assert forall i | 0 <= i < |rest| :: (front + rest)[|front| + i] == rest[i];
  }

  lemma PartialOf(token: string)
    requires ReadToken(token).Some? && NoSpace(SplitOperator(token).1)
    ensures ReadToken(token).value.0 == SplitOperator(token).0
    ensures ParsePartial(SplitOperator(token).1) == Some(ReadToken(token).value.1)
  {
    hide IsSpace, SplitOperator, ParsePartial;
    var rest := SplitOperator(token).1;
    if rest != "" { NoTrim(rest); }
  }
}
