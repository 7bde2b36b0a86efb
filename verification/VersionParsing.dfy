/** Reading version spellings and range requirements (`src/ts/version.ts`). */
module VersionParsing {
  import opened TextParts
  import opened Versions
  import opened Wrappers

  // ---------- Strict semantic versions ----------

  // The class [0-9A-Za-z.-].
  predicate IsLabelChar(c: char) {
    IsDigit(c) || 'A' <= c <= 'Z' || 'a' <= c <= 'z' || c == '.' || c == '-'
  }

  predicate IsLabel(s: string) {
    s != "" && forall i | 0 <= i < |s| :: IsLabelChar(s[i])
  }

  // Letters, digits and hyphens, in parts separated by dots.
  predicate DottedWords(s: string) {
    s != "" && forall i | 0 <= i < |s| :: IsLetter(s[i]) || IsDigit(s[i]) || s[i] == '-' || s[i] == '.'
  }

  predicate AllNumbers(segments: seq<string>) {
    forall i | 0 <= i < |segments| :: IsNumber(segments[i])
  }

  // Numerals a semantic version admits.
  predicate AllCanonical(segments: seq<string>) {
    forall i | 0 <= i < |segments| :: IsNumber(segments[i]) && !LeadingZero(segments[i])
  }

  function Numbers(segments: seq<string>): seq<nat>
    requires AllNumbers(segments)
  {
    seq(|segments|, i requires 0 <= i < |segments| => Decimal(segments[i]))
  }

  function ParseCore(core: string): Option<seq<nat>> {
    var segments := Split(core, '.');
    if |segments| == 3 && AllCanonical(segments) then Some(Numbers(segments)) else None
  }

  function ParseHead(head: string): Option<SemVer> {
    var dash := Index(head, '-');
    if dash < |head| && !IsLabel(head[dash + 1..]) then None
    else
      var core := ParseCore(head[..dash]);
      if core.None? then None
      else Some(SemVer(core.value[0], core.value[1], core.value[2],
                       if dash == |head| then [] else Split(head[dash + 1..], '.')))
  }

  function ParseStrict(raw: string): Option<SemVer> {
    var plus := Index(raw, '+');
    if plus < |raw| && !IsLabel(raw[plus + 1..]) then None else ParseHead(raw[..plus])
  }

  function CoreText(parts: seq<nat>): string
    requires |parts| <= 3
  {
    var p := PadTo3(parts);
    Join([Print(p[0]), Print(p[1]), Print(p[2])], '.')
  }

  function PadTo3(parts: seq<nat>): (p: seq<nat>)
    requires |parts| <= 3
    ensures |p| == 3
  {
    parts + seq(3 - |parts|, _ => 0)
  }

  function Suffix(mark: char, text: Option<string>): string {
    if text.Some? then [mark] + text.value else ""
  }

  /** The grammar of semantic versions: three canonical numerals, then an optional prerelease and build label. */
  ghost predicate Spells(raw: string, v: SemVer, pre: Option<string>, build: Option<string>) {
    && raw == CoreText([v.major, v.minor, v.patch]) + Suffix('-', pre) + Suffix('+', build)
    && (pre.Some? ==> DottedWords(pre.value)) && (build.Some? ==> DottedWords(build.value))
    && v.pre == if pre.Some? then Split(pre.value, '.') else []
  }

  lemma PrintsApart(n: nat)
    ensures forall c | c in Print(n) :: IsDigit(c)
    ensures '.' !in Print(n) && '-' !in Print(n) && '+' !in Print(n) && 'v' !in Print(n)
  {
    PrintRoundTrip(n);
  }

  lemma CoreTextFacts(parts: seq<nat>)
    requires |parts| <= 3
    ensures var p := PadTo3(parts);
      Split(CoreText(parts), '.') == [Print(p[0]), Print(p[1]), Print(p[2])] && ParseCore(CoreText(parts)) == Some(p)
    ensures CoreText(parts) != "" && IsDigit(CoreText(parts)[0])
    ensures forall c | c in CoreText(parts) :: IsDigit(c) || c == '.'
  {
    var p := PadTo3(parts);
    var segments := [Print(p[0]), Print(p[1]), Print(p[2])];
    PrintsApart(p[0]);
    PrintsApart(p[1]);
    PrintsApart(p[2]);
    SplitJoin(segments, '.');
    PrintRoundTrip(p[0]);
    PrintRoundTrip(p[1]);
    PrintRoundTrip(p[2]);
    JoinThree(segments[0], segments[1], segments[2], '.');
    hide Print, Decimal, Split, Join;
    assert Numbers(segments) == p;
  }

  lemma HeadRoundTrip(v: SemVer, pre: Option<string>)
    requires pre.Some? ==> IsLabel(pre.value)
    requires v.pre == if pre.Some? then Split(pre.value, '.') else []
    ensures ParseHead(CoreText([v.major, v.minor, v.patch]) + Suffix('-', pre)) == Some(v)
  {
    var parts := [v.major, v.minor, v.patch];
    CoreTextFacts(parts);
    assert PadTo3(parts) == parts;
    hide CoreText, ParseCore, Split, PadTo3, ParseHead;
    assert '-' !in CoreText(parts);
    HeadOfCore(CoreText(parts), parts, v, pre);
  }

  lemma HeadOfCore(core: string, parts: seq<nat>, v: SemVer, pre: Option<string>)
    requires '-' !in core && |parts| == 3 && ParseCore(core) == Some(parts) && parts == [v.major, v.minor, v.patch]
    requires pre.Some? ==> IsLabel(pre.value)
    requires v.pre == if pre.Some? then Split(pre.value, '.') else []
    ensures ParseHead(core + Suffix('-', pre)) == Some(v)
  {
    hide ParseCore, Split, IsLabel, Index;
    var head := core + Suffix('-', pre);
    if pre.Some? {
      IndexAfter(core, pre.value, '-');
      assert core + ['-'] + pre.value == head;
      assert head[..|core|] == core && head[|core| + 1..] == pre.value;
    } else {
      IndexNone(core, '-');
      assert head == core && head[..|core|] == core;
    }
  }

  /** Every spelling of the grammar is read back as its version. */
  lemma StrictRoundTrip(raw: string, v: SemVer, pre: Option<string>, build: Option<string>)
    requires Spells(raw, v, pre, build)
    ensures ParseStrict(raw) == Some(v)
  {
    var parts := [v.major, v.minor, v.patch];
    CoreTextFacts(parts);
    HeadRoundTrip(v, pre);
    hide CoreText, ParseHead, ParseStrict, Split, PadTo3, ParseCore;
    var head := CoreText(parts) + Suffix('-', pre);
    forall c | c in head ensures c != '+' {
      if pre.Some? && c in pre.value {
        assert IsLabelChar(c);
      }
    }
    StrictOfHead(head, build);
  }

  lemma StrictOfHead(head: string, build: Option<string>)
    requires '+' !in head && (build.Some? ==> IsLabel(build.value))
    ensures ParseStrict(head + Suffix('+', build)) == ParseHead(head)
  {
    hide ParseHead;
    var raw := head + Suffix('+', build);
    if build.Some? {
      IndexAfter(head, build.value, '+');
      assert raw == head + ['+'] + build.value;
      assert raw[..|head|] == head && raw[|head| + 1..] == build.value;
    } else {
      assert raw == head;
      IndexNone(head, '+');
      assert raw[..|head|] == head;
    }
  }

  lemma CoreInverse(core: string)
    requires ParseCore(core).Some?
    ensures |ParseCore(core).value| == 3 && core == CoreText(ParseCore(core).value)
  {
    var segments := Split(core, '.');
    JoinSplit(core, '.');
    DecimalRoundTrip(segments[0]);
    DecimalRoundTrip(segments[1]);
    DecimalRoundTrip(segments[2]);
    hide Split, Decimal, Print, Join;
    var n := Numbers(segments);
    assert PadTo3(n) == n;
    assert segments == [Print(n[0]), Print(n[1]), Print(n[2])];
  }

  lemma HeadInverse(head: string) returns (pre: Option<string>)
    requires ParseHead(head).Some?
    ensures Spells(head, ParseHead(head).value, pre, None)
  {
    hide ParseCore, CoreText, Split, Index;
    var dash := Index(head, '-');
    pre := if dash < |head| then Some(head[dash + 1..]) else None;
    assert head == head[..dash] + Suffix('-', pre) + Suffix('+', None);
    CoreInverse(head[..dash]);
    var v := ParseHead(head).value;
    assert [v.major, v.minor, v.patch] == ParseCore(head[..dash]).value;
  }

  /** Nothing outside the grammar is read as a strict version. */
  lemma StrictInverse(raw: string) returns (pre: Option<string>, build: Option<string>)
    requires ParseStrict(raw).Some?
    ensures Spells(raw, ParseStrict(raw).value, pre, build)
  {
    hide ParseHead, CoreText, Split, Index;
    var plus := Index(raw, '+');
    build := if plus < |raw| then Some(raw[plus + 1..]) else None;
    pre := HeadInverse(raw[..plus]);
    assert raw == raw[..plus] + Suffix('+', build);
  }

  // ---------- Foreign spellings ----------

  function StripV(raw: string): string {
    if raw != "" && raw[0] == 'v' then raw[1..] else raw
  }

  // A dash with something on either side separates a prerelease.
  function DashAt(input: string): Option<nat> {
    var dash := Index(input, '-');
    if 0 < dash < |input| - 1 then Some(dash) else None
  }

  function BeforeDash(input: string): string {
    if DashAt(input).Some? then input[..DashAt(input).value] else input
  }

  function AfterDash(input: string): Option<string> {
    if DashAt(input).Some? then Some(input[DashAt(input).value + 1..]) else None
  }

  function NormalizeCalver(raw: string): Option<string> {
    var input := StripV(raw);
    var segments := Split(BeforeDash(input), '.');
    if AllNumbers(segments) && |segments| <= 3 then Some(CoreText(Numbers(segments)) + Suffix('-', AfterDash(input)))
    else None
  }

  function NormalizeGo(raw: string): Option<string> {
    var core := Head(StripV(raw), '+');
    if ParseStrict(core).None? then None else Some(core)
  }

  datatype Pep440Label = Pep440Label(name: string, prerelease: bool)

  // The table of labels.
  const PEP440_LABELS: map<string, Pep440Label> := map[
    "a" := Pep440Label("alpha", true), "alpha" := Pep440Label("alpha", true),
    "b" := Pep440Label("beta", true), "beta" := Pep440Label("beta", true),
    "c" := Pep440Label("rc", true), "rc" := Pep440Label("rc", true),
    "pre" := Pep440Label("rc", true), "preview" := Pep440Label("rc", true),
    "dev" := Pep440Label("dev", true),
    "post" := Pep440Label("post", false), "rev" := Pep440Label("post", false), "r" := Pep440Label("post", false)]

  // The property names that every plain object inherits.
  const INHERITED: set<string> := {
    "constructor", "hasOwnProperty", "isPrototypeOf", "propertyIsEnumerable", "toLocaleString", "toString", "valueOf",
    "__proto__", "__defineGetter__", "__defineSetter__", "__lookupGetter__", "__lookupSetter__" }

  // The table is a plain object: a lookup also finds inherited properties, whose own `label` and `prerelease`
  // are undefined.
  function LabelFor(name: string): Option<Pep440Label> {
    if name in PEP440_LABELS then Some(PEP440_LABELS[name])
    else if name in INHERITED then Some(Pep440Label("undefined", false))
    else None
  }

  // No letter outside ASCII lower-cases to a string that is read differently below.
  function LowerCase(s: string): string {
    seq(|s|, i requires 0 <= i < |s| => if 'A' <= s[i] <= 'Z' then (s[i] as int + 32) as char else s[i])
  }

  predicate IsLower(c: char) {
    'a' <= c <= 'z'
  }

  function FirstWhere(s: string, p: char -> bool): (i: nat)
    ensures i <= |s| && (forall j | 0 <= j < i :: !p(s[j])) && (i < |s| ==> p(s[i]))
  {
    if s == "" || p(s[0]) then 0 else 1 + FirstWhere(s[1..], p)
  }

  function DropTrailing(s: string, c: char): string {
    if s != "" && s[|s| - 1] == c then DropTrailing(s[..|s| - 1], c) else s
  }

  function NonEmpty(segments: seq<string>): seq<string> {
    if segments == [] then []
    else
      var front, last := NonEmpty(segments[..|segments| - 1]), segments[|segments| - 1];
      if last == "" then front else front + [last]
  }

  // The marked part: a known label, then digits or nothing.
  function MarkerText(suffix: string): Option<string> {
    var digit := FirstWhere(suffix, IsDigit);
    var num := if digit == |suffix| then "0" else suffix[digit..];
    var mapped := LabelFor(suffix[..digit]);
    if !IsNumber(num) || mapped.None? then None
    else Some((if mapped.value.prerelease then "-" else "+") + mapped.value.name + "." + num)
  }

  function NormalizePep440(raw: string): Option<string> {
    var input := LowerCase(StripV(raw));
    var marker := FirstWhere(input, IsLower);
    if marker == |input| then None
    else
      var segments := NonEmpty(Split(DropTrailing(input[..marker], '.'), '.'));
      if !AllNumbers(segments) || |segments| > 3 then None
      else
        var mark := MarkerText(input[marker..]);
        if mark.None? then None else Some(CoreText(Numbers(segments)) + mark.value)
  }

  function ParseNormalized(normalized: Option<string>): Option<SemVer> {
    if normalized.None? then None else ParseStrict(Head(normalized.value, '+'))
  }

  function OrElse<T>(first: Option<T>, second: Option<T>): Option<T> {
    if first.Some? then first else second
  }

  /** The version a published spelling stands for; None for an opaque tag. */
  function ParseVersion(raw: string): Option<SemVer> {
    OrElse(ParseStrict(raw),
      OrElse(if raw != "" && raw[0] == 'v' then ParseStrict(raw[1..]) else None,
        OrElse(ParseNormalized(NormalizeGo(raw)),
          OrElse(ParseNormalized(NormalizeCalver(raw)), ParseNormalized(NormalizePep440(raw))))))
  }

  // ---------- Parsing identities ----------

  lemma StrictStartsWithDigit(raw: string)
    requires ParseStrict(raw).Some?
    ensures raw != "" && IsDigit(raw[0])
  {
    var pre, build := StrictInverse(raw);
    var v := ParseStrict(raw).value;
    CoreTextFacts([v.major, v.minor, v.patch]);
    hide CoreText, ParseStrict;
  }

  lemma DottedNumbersFacts(segments: seq<string>)
    requires 1 <= |segments| <= 3 && AllNumbers(segments)
    ensures var raw := Join(segments, '.');
      && Split(raw, '.') == segments && raw != "" && raw[0] != 'v'
      && '-' !in raw && '+' !in raw
  {
    forall p | p in segments ensures '.' !in p && '-' !in p && '+' !in p {
      var i :| 0 <= i < |segments| && segments[i] == p;
    }
    SplitJoin(segments, '.');
    DottedChars(segments);
    assert Join(segments, '.')[0] == segments[0][0];
  }

  lemma {:induction false} DottedChars(segments: seq<string>)
    requires AllNumbers(segments)
    ensures forall c | c in Join(segments, '.') :: IsDigit(c) || c == '.'
    decreases |segments|
  {
    if |segments| > 1 {
      assert forall i | 0 <= i < |segments| - 1 :: segments[1..][i] == segments[i + 1];
      DottedChars(segments[1..]);
      assert IsNumber(segments[0]);
    } else if |segments| == 1 {
      assert IsNumber(segments[0]);
    }
  }

  lemma CoreTextParses(parts: seq<nat>)
    requires |parts| <= 3
    ensures var p := PadTo3(parts); ParseStrict(CoreText(parts)) == Some(SemVer(p[0], p[1], p[2], []))
    ensures Head(CoreText(parts), '+') == CoreText(parts)
  {
    var p := PadTo3(parts);
    CoreTextFacts(parts);
    IndexNone(CoreText(parts), '+');
    assert PadTo3([p[0], p[1], p[2]]) == p;
    StrictRoundTrip(CoreText(parts), SemVer(p[0], p[1], p[2], []), None, None) by {
      assert CoreText([p[0], p[1], p[2]]) == CoreText(parts);
    }
  }

  /** One to three numeric segments, with any leading zeros, stand for those numbers padded with zeros. */
  lemma NumericSegmentsParse(segments: seq<string>)
    requires 1 <= |segments| <= 3 && AllNumbers(segments)
    ensures var p := PadTo3(Numbers(segments));
      ParseVersion(Join(segments, '.')) == Some(SemVer(p[0], p[1], p[2], []))
  {
    var raw, p := Join(segments, '.'), PadTo3(Numbers(segments));
    DottedNumbersFacts(segments);
    StrictOfNumbers(segments);
    CalverOfNumbers(segments);
    IndexNone(raw, '+');
    hide ParseStrict, Split, PadTo3, NormalizePep440, NormalizeCalver, Numbers, Join, Index, IsNumber, Decimal, ParseNormalized;
    assert Head(raw, '+') == raw;
    NotNormalized();
  }

  lemma CalverOfNumbers(segments: seq<string>)
    requires 1 <= |segments| <= 3 && AllNumbers(segments)
    ensures var p := PadTo3(Numbers(segments));
      ParseNormalized(NormalizeCalver(Join(segments, '.'))) == Some(SemVer(p[0], p[1], p[2], []))
  {
    var raw := Join(segments, '.');
    DottedNumbersFacts(segments);
    IndexNone(raw, '-');
    CoreTextParses(Numbers(segments));
    hide CoreText, ParseStrict, Split, PadTo3, Numbers, Join, Index, IsNumber, Decimal;
    assert BeforeDash(raw) == raw && AfterDash(raw) == None;
    assert CoreText(Numbers(segments)) + "" == CoreText(Numbers(segments));
  }

  lemma StrictOfNumbers(segments: seq<string>)
    requires 1 <= |segments| <= 3 && AllNumbers(segments)
    ensures var p := PadTo3(Numbers(segments));
      ParseStrict(Join(segments, '.')) in {None, Some(SemVer(p[0], p[1], p[2], []))}
  {
    var raw := Join(segments, '.');
    DottedNumbersFacts(segments);
    IndexNone(raw, '+');
    IndexNone(raw, '-');
    hide Split, Join, Decimal, Index;
    assert raw[..|raw|] == raw;
  }

  /** With a prerelease behind them they stand for those numbers with that prerelease, dot by dot. */
  lemma NumericPrereleaseParses(segments: seq<string>, pre: string)
    requires 1 <= |segments| <= 3 && AllNumbers(segments) && DottedWords(pre)
    ensures var p := PadTo3(Numbers(segments));
      ParseVersion(Join(segments, '.') + "-" + pre) == Some(SemVer(p[0], p[1], p[2], Split(pre, '.')))
  {
    var core := Join(segments, '.');
    var raw := core + "-" + pre;
    DottedNumbersFacts(segments);
    assert '+' !in pre;
    assert raw == core + ['-'] + pre;
    RawFacts(core, pre);
    StrictOfPrerelease(segments, pre, raw);
    CalverOfPrerelease(segments, pre, raw);
    GoOfStrict(raw);
    FirstOfThree(raw);
    hide *;
  }

  lemma RawFacts(core: string, pre: string)
    requires core != "" && core[0] != 'v' && '-' !in core && '+' !in core && '+' !in pre
    ensures var raw := core + ['-'] + pre;
      && raw != "" && raw[0] != 'v' && Index(raw, '-') == |core| && Index(raw, '+') == |raw| && Head(raw, '+') == raw
  {
    hide Index;
    var raw := core + ['-'] + pre;
    assert raw[0] == core[0];
    IndexNone(raw, '+');
    IndexAfter(core, pre, '-');
    assert raw[..|raw|] == raw;
  }

  // Without a leading v the strict form is tried first, then the Go form, then the calendar form.
  lemma FirstOfThree(raw: string)
    requires raw != "" && raw[0] != 'v' && ParseNormalized(NormalizeCalver(raw)).Some?
    ensures ParseVersion(raw) in {ParseStrict(raw), ParseNormalized(NormalizeGo(raw)), ParseNormalized(NormalizeCalver(raw))}
    ensures ParseVersion(raw) != None
  {
    hide ParseStrict, NormalizePep440, NormalizeCalver, NormalizeGo, ParseNormalized;
  }

  lemma GoOfStrict(raw: string)
    requires raw != "" && raw[0] != 'v' && Head(raw, '+') == raw
    ensures ParseNormalized(NormalizeGo(raw)) in {None, ParseStrict(raw)}
  {
    hide ParseStrict, Head;
  }

  lemma StrictOfPrerelease(segments: seq<string>, pre: string, raw: string)
    requires 1 <= |segments| <= 3 && AllNumbers(segments) && DottedWords(pre)
    requires raw == Join(segments, '.') + ['-'] + pre && Index(raw, '-') == |Join(segments, '.')| && Index(raw, '+') == |raw|
    ensures var p := PadTo3(Numbers(segments));
      ParseStrict(raw) in {None, Some(SemVer(p[0], p[1], p[2], Split(pre, '.')))}
  {
    DottedNumbersFacts(segments);
    hide Split, Join, Decimal, Index;
    assert raw[..|raw|] == raw;
    assert raw[..|Join(segments, '.')|] == Join(segments, '.') && raw[|Join(segments, '.')| + 1..] == pre;
  }

  lemma CalverOfPrerelease(segments: seq<string>, pre: string, raw: string)
    requires 1 <= |segments| <= 3 && AllNumbers(segments) && DottedWords(pre)
    requires raw == Join(segments, '.') + ['-'] + pre && Index(raw, '-') == |Join(segments, '.')|
    ensures var p := PadTo3(Numbers(segments));
      ParseNormalized(NormalizeCalver(raw)) == Some(SemVer(p[0], p[1], p[2], Split(pre, '.')))
  {
    var core, p := Join(segments, '.'), PadTo3(Numbers(segments));
    DottedNumbersFacts(segments);
    CoreTextFacts(Numbers(segments));
    assert '+' !in pre;
    hide Split, Join, Decimal, Index, ParseStrict, PadTo3, Numbers, IsNumber, DottedWords, CoreText;
    AroundDash(core, pre);
    var normalized := CoreText(Numbers(segments)) + Suffix('-', Some(pre));
    assert NormalizeCalver(raw) == Some(normalized);
    IndexNone(normalized, '+');
    assert Head(normalized, '+') == normalized;
    NormalizedReads(Numbers(segments), pre);
  }

  lemma AroundDash(core: string, pre: string)
    requires core != "" && core[0] != 'v' && '-' !in core && pre != ""
    ensures var raw := core + ['-'] + pre; StripV(raw) == raw && BeforeDash(raw) == core && AfterDash(raw) == Some(pre)
  {
    hide Index;
    var raw := core + ['-'] + pre;
    assert raw[0] == core[0];
    IndexAfter(core, pre, '-');
    assert raw[..|core|] == core && raw[|core| + 1..] == pre;
  }

  lemma NormalizedReads(parts: seq<nat>, pre: string)
    requires |parts| <= 3 && DottedWords(pre)
    ensures var p := PadTo3(parts);
      ParseStrict(CoreText(parts) + Suffix('-', Some(pre))) == Some(SemVer(p[0], p[1], p[2], Split(pre, '.')))
  {
    var p := PadTo3(parts);
    assert PadTo3([p[0], p[1], p[2]]) == p;
    assert CoreText([p[0], p[1], p[2]]) == CoreText(parts);
    hide ParseStrict, Split, CoreText, DottedWords, PadTo3;
    var raw := CoreText(parts) + Suffix('-', Some(pre));
    assert raw + Suffix('+', None) == raw;
    StrictRoundTrip(raw, SemVer(p[0], p[1], p[2], Split(pre, '.')), Some(pre), None);
  }

  /** One leading `v` on a spelling that has none changes nothing. */
  lemma LeadingVIgnored(raw: string)
    requires raw == "" || raw[0] != 'v'
    ensures ParseVersion("v" + raw) == ParseVersion(raw)
  {
    var tagged := "v" + raw;
    assert tagged[1..] == raw && tagged[0] == 'v';
    assert ParseStrict(tagged).None? by {
      hide ParseStrict;
      if ParseStrict(tagged).Some? { StrictStartsWithDigit(tagged); }
    }
    hide ParseStrict, NormalizePep440, LowerCase, CoreText, Split, Index;
    assert StripV(tagged) == StripV(raw) == raw;
    SameStripped(tagged, raw);
  }

  lemma SameStripped(a: string, b: string)
    requires StripV(a) == StripV(b)
    ensures NormalizeGo(a) == NormalizeGo(b) && NormalizeCalver(a) == NormalizeCalver(b)
    ensures NormalizePep440(a) == NormalizePep440(b)
  {
  }

  /** Anything after a `+` on a strictly valid version changes nothing. */
  lemma BuildIgnored(raw: string, rest: string)
    requires ParseStrict(raw).Some?
    ensures ParseVersion(raw + "+" + rest) == ParseVersion(raw) == ParseStrict(raw)
  {
    StrictStartsWithDigit(raw);
    var longer := raw + "+" + rest;
    var core := Head(raw, '+');
    StrictCore(raw);
    HeadOfLonger(raw, rest);
    assert longer[0] == raw[0];
    if ParseStrict(longer).Some? { StrictCore(longer); }
    StrictCore(core);
    hide ParseStrict, NormalizePep440, NormalizeCalver, Index;
    assert StripV(longer) == longer;
  }

  // A strict version is read from what stands before its build label.
  lemma StrictCore(raw: string)
    requires ParseStrict(raw).Some?
    ensures ParseStrict(Head(raw, '+')) == ParseStrict(raw)
    ensures Head(Head(raw, '+'), '+') == Head(raw, '+')
  {
    hide ParseHead;
    var core := Head(raw, '+');
    IndexNone(core, '+');
    assert core[..|core|] == core;
  }

  lemma HeadOfLonger(raw: string, rest: string)
    ensures Head(raw + "+" + rest, '+') == Head(raw, '+')
  {
    var i := Index(raw, '+');
    var longer := raw + "+" + rest;
    if i < |raw| {
      assert longer == raw[..i] + ['+'] + (raw[i + 1..] + "+" + rest);
      IndexAfter(raw[..i], raw[i + 1..] + "+" + rest, '+');
    } else {
      assert raw[..i] == raw;
      IndexAfter(raw, rest, '+');
    }
  }

  /** Calendar spellings normalize to a form that normalizes to itself. */
  lemma CalverFixpoint(raw: string)
    requires NormalizeCalver(raw).Some?
    ensures NormalizeCalver(NormalizeCalver(raw).value) == NormalizeCalver(raw)
  {
    var input := StripV(raw);
    var parts := Numbers(Split(BeforeDash(input), '.'));
    var p := PadTo3(parts);
    CoreTextFacts(parts);
    PrintRoundTrip(p[0]);
    PrintRoundTrip(p[1]);
    PrintRoundTrip(p[2]);
    hide Split, Print, Decimal;
    var core, pre := CoreText(parts), AfterDash(input);
    assert PadTo3(p) == p;
    assert CoreText(p) == CoreText(parts);
    hide CoreText, Index;
    var out := core + Suffix('-', pre);
    assert StripV(out) == out;
    if pre.Some? {
      IndexAfter(core, pre.value, '-');
      assert out == core + ['-'] + pre.value;
      assert BeforeDash(out) == core && AfterDash(out) == pre;
    } else {
      IndexNone(core, '-');
      assert out == core;
    }
    assert Numbers(Split(core, '.')) == p;
  }

  lemma DashInverse(input: string)
    ensures input == BeforeDash(input) + Suffix('-', AfterDash(input))
    ensures AfterDash(input).Some? ==> AfterDash(input).value != ""
  {
  }

  lemma StripVInverse(raw: string) returns (v: string)
    ensures v in {"", "v"} && raw == v + StripV(raw)
  {
    v := if raw != "" && raw[0] == 'v' then "v" else "";
    if v == "v" { assert raw == ['v'] + raw[1..]; }
  }

  /** A calendar spelling is perhaps a `v`, then one to three numerals and perhaps a prerelease, and nothing else. */
  lemma CalverInverse(raw: string) returns (segments: seq<string>, pre: Option<string>)
    requires NormalizeCalver(raw).Some?
    ensures 1 <= |segments| <= 3 && AllNumbers(segments) && (pre.Some? ==> pre.value != "")
    ensures raw in {Join(segments, '.') + Suffix('-', pre), "v" + (Join(segments, '.') + Suffix('-', pre))}
    ensures NormalizeCalver(raw) == Some(CoreText(Numbers(segments)) + Suffix('-', pre))
  {
    var v := StripVInverse(raw);
    var input := StripV(raw);
    segments, pre := Split(BeforeDash(input), '.'), AfterDash(input);
    JoinSplit(BeforeDash(input), '.');
    DashInverse(input);
    hide StripV, BeforeDash, AfterDash, Split, Join, CoreText, Numbers;
    if v == "" { assert v + input == input; }
  }

  // ---------- The PEP 440 subset ----------

  lemma LabelFacts(text: string)
    requires text in PEP440_LABELS
    ensures IsLabel(PEP440_LABELS[text].name) && '.' !in PEP440_LABELS[text].name && '+' !in PEP440_LABELS[text].name
  {
  }

  // All inherited names but one have a capital, or start with an underscore.
  lemma CapitalOrUnderscore(name: string) returns (k: nat)
    requires name in INHERITED && name != "constructor"
    ensures k < |name| && ('A' <= name[k] <= 'Z' || (k == 0 && name[k] == '_'))
  {
    k := if name == "hasOwnProperty" then 3
         else if name == "isPrototypeOf" || name == "toLocaleString" || name == "toString" then 2
         else if name == "propertyIsEnumerable" then 8
         else if name == "valueOf" then 5
         else 0;
  }

  lemma InheritedLabels(name: string)
    requires name != "" && IsLower(name[0]) && forall i | 0 <= i < |name| :: !('A' <= name[i] <= 'Z')
    ensures name in INHERITED <==> name == "constructor"
  {
    if name in INHERITED && name != "constructor" { var k := CapitalOrUnderscore(name); }
  }

  // A spelling with some other character than digits and dots, and no dash or build mark, is no strict or
  // calendar version.
  lemma LetterRefused(raw: string, k: nat)
    requires '-' !in raw && '+' !in raw && k < |raw| && !IsDigit(raw[k]) && raw[k] != '.' && raw[0] != 'v'
    ensures ParseStrict(raw).None? && NormalizeGo(raw).None? && NormalizeCalver(raw).None?
  {
    IndexNone(raw, '+');
    IndexNone(raw, '-');
    assert raw[..|raw|] == raw;
    var segments := Split(raw, '.');
    assert raw[k] in raw;
    if AllNumbers(segments) {
      DottedChars(segments);
      JoinSplit(raw, '.');
    }
    hide Split, Index;
  }

  // Digits and dots, in any arrangement.
  predicate IsRelease(release: string) {
    forall i | 0 <= i < |release| :: IsDigit(release[i]) || release[i] == '.'
  }

  predicate IsWord(text: string) {
    text != "" && forall i | 0 <= i < |text| :: IsLetter(text[i])
  }

  lemma MarkedAfter(release: string, suffix: string)
    requires IsRelease(release) && suffix != "" && IsLower(suffix[0])
    ensures FirstWhere(release + suffix, IsLower) == |release|
  {
    var s := release + suffix;
    var i := FirstWhere(s, IsLower);
    assert forall j | 0 <= j < |release| :: s[j] == release[j];
    assert s[|release|] == suffix[0];
  }

  // A label may stand without a number, or with one.
  predicate IsCount(num: string) {
    num == "" || IsNumber(num)
  }

  function CountText(num: string): string {
    if num == "" then "0" else num
  }

  function MarkFor(entry: Pep440Label, num: string): string {
    (if entry.prerelease then "-" else "+") + entry.name + "." + CountText(num)
  }

  lemma MarkerReads(text: string, num: string)
    requires IsWord(text) && IsCount(num)
    ensures MarkerText(text + num) == if LabelFor(text).Some? then Some(MarkFor(LabelFor(text).value, num)) else None
  {
    hide LabelFor;
    var suffix := text + num;
    var i := FirstWhere(suffix, IsDigit);
    assert forall j | 0 <= j < |text| :: suffix[j] == text[j];
    assert num != "" ==> suffix[|text|] == num[0];
    assert suffix[..|text|] == text && suffix[|text|..] == num;
  }

  lemma PrereleaseParses(parts: seq<nat>, name: string, num: string)
    requires |parts| <= 3 && IsNumber(num) && IsLabel(name) && '.' !in name && '+' !in name
    ensures var p := PadTo3(parts);
      ParseNormalized(Some(CoreText(parts) + ("-" + name + "." + num))) == Some(SemVer(p[0], p[1], p[2], [name, num]))
  {
    var p, core := PadTo3(parts), CoreText(parts);
    CoreTextFacts(parts);
    assert PadTo3([p[0], p[1], p[2]]) == p;
    assert CoreText([p[0], p[1], p[2]]) == core;
    LabelWithNumber(name, num);
    SplitFirstLabel(name, num);
    hide CoreText, ParseStrict, Index, PadTo3, ParseCore, IsLabel, Split, IsNumber;
    var text := name + "." + num;
    var out := core + ("-" + text);
    assert out == core + Suffix('-', Some(text)) + Suffix('+', None);
    assert "-" + name + "." + num == "-" + text;
    StrictRoundTrip(out, SemVer(p[0], p[1], p[2], [name, num]), Some(text), None);
    assert '+' !in out;
    IndexNone(out, '+');
    assert out[..|out|] == out;
  }

  lemma PostReleaseParses(parts: seq<nat>, name: string, num: string)
    requires |parts| <= 3
    ensures var p := PadTo3(parts);
      ParseNormalized(Some(CoreText(parts) + ("+" + name + "." + num))) == Some(SemVer(p[0], p[1], p[2], []))
  {
    var core, text := CoreText(parts), name + "." + num;
    CoreTextFacts(parts);
    CoreTextParses(parts);
    hide CoreText, ParseStrict, Index, PadTo3, ParseCore;
    var out := core + ("+" + name + "." + num);
    IndexAfter(core, text, '+');
    assert out == core + ['+'] + text;
    assert out[..|core|] == core;
  }

  lemma LabelWithNumber(name: string, num: string)
    requires IsLabel(name) && IsNumber(num) && '+' !in name
    ensures IsLabel(name + "." + num) && '+' !in name + "." + num
  {
  }

  lemma SplitFirstLabel(name: string, num: string)
    requires '.' !in name && IsNumber(num)
    ensures Split(name + "." + num, '.') == [name, num]
  {
    var parts := [name, num];
    assert '.' !in num;
    SplitJoin(parts, '.');
    assert parts[1..] == [num];
    assert Join([num], '.') == num;
    assert Join(parts, '.') == name + ['.'] + num;
  }

  lemma Reassemble(s: string, i: nat)
    requires i < |s|
    ensures s == s[..i] + [s[i]] + s[i + 1..]
  {
  }

  lemma {:induction false} SplitTrailing(s: string, c: char)
    ensures Split(s + [c], c) == Split(s, c) + [""]
    decreases |s|
  {
    hide Split, Index;
    var i, none := Index(s, c), "";
    SplitSingle(none, c);
    if i < |s| {
      var head, tail := s[..i], s[i + 1..];
      SplitTrailing(tail, c);
      SplitFirst(head, tail, c);
      SplitFirst(head, tail + [c], c);
      Reassemble(s, i);
      assert head + [c] + (tail + [c]) == head + [c] + tail + [c];
      assert [head] + (Split(tail, c) + [none]) == [head] + Split(tail, c) + [none];
    } else {
      assert s[..i] == s;
      SplitSingle(s, c);
      SplitFirst(s, none, c);
      assert s + [c] + none == s + [c];
    }
  }

  // The numbers a release is made of; empty segments are passed over.
  function ReleaseSegments(release: string): seq<string> {
    NonEmpty(Split(release, '.'))
  }

  lemma {:induction false} TrailingDotsPassedOver(release: string)
    ensures ReleaseSegments(DropTrailing(release, '.')) == ReleaseSegments(release)
    decreases |release|
  {
    if release != "" && release[|release| - 1] == '.' {
      var front := release[..|release| - 1];
      TrailingDotsPassedOver(front);
      assert release == front + ['.'];
      SplitTrailing(front, '.');
      assert (Split(front, '.') + [""])[..|Split(front, '.')|] == Split(front, '.');
    }
  }

  lemma {:induction false} SplitWithin(s: string, c: char)
    ensures forall p, x | p in Split(s, c) && x in p :: x in s
    decreases |s|
  {
    var i := Index(s, c);
    if i < |s| { SplitWithin(s[i + 1..], c); }
  }

  lemma {:induction false} NonEmptyWithin(segments: seq<string>)
    ensures forall p | p in NonEmpty(segments) :: p in segments && p != ""
    decreases |segments|
  {
    if segments != [] { NonEmptyWithin(segments[..|segments| - 1]); }
  }

  lemma ReleaseNumbers(release: string)
    requires IsRelease(release)
    ensures AllNumbers(ReleaseSegments(release))
  {
    var parts := ReleaseSegments(release);
    SplitWithin(release, '.');
    JoinSplit(release, '.');
    NonEmptyWithin(Split(release, '.'));
    hide Split, NonEmpty;
    forall i | 0 <= i < |parts| ensures IsNumber(parts[i]) {
      var p := parts[i];
      assert p in parts;
      forall j | 0 <= j < |p| ensures IsDigit(p[j]) { assert p[j] in p && p[j] in release; }
    }
  }

  lemma {:induction false} DropTrailingKeeps(release: string)
    requires IsRelease(release)
    ensures IsRelease(DropTrailing(release, '.'))
    decreases |release|
  {
    if release != "" { DropTrailingKeeps(release[..|release| - 1]); }
  }

  lemma LowerSpelling(release: string, text: string, num: string)
    requires IsRelease(release) && IsWord(text) && IsCount(num) && (release != "" || text[0] != 'v')
    ensures var raw := release + text + num;
      && StripV(raw) == raw && LowerCase(raw) == release + (LowerCase(text) + num)
      && '-' !in raw && '+' !in raw && raw != "" && raw[0] != 'v' && raw[|release|] == text[0]
  {
    var raw := release + text + num;
    forall i | 0 <= i < |raw| ensures raw[i] != '-' && raw[i] != '+' {
      if i < |release| { assert raw[i] == release[i]; }
    }
    var lower := release + (LowerCase(text) + num);
    forall i | 0 <= i < |raw| ensures LowerCase(raw)[i] == lower[i] {
    }
    assert raw[0] == if release == "" then text[0] else release[0];
  }

  lemma LowerWord(text: string)
    requires IsWord(text)
    ensures IsWord(LowerCase(text)) && forall i | 0 <= i < |text| :: IsLower(LowerCase(text)[i])
  {
  }

  lemma Pep440Normalizes(release: string, text: string, num: string)
    requires IsRelease(release) && IsWord(text) && IsCount(num) && (release != "" || text[0] != 'v')
    ensures var segments, entry := ReleaseSegments(release), LabelFor(LowerCase(text));
      && AllNumbers(segments)
      && NormalizePep440(release + text + num) ==
           if |segments| <= 3 && entry.Some? then Some(CoreText(Numbers(segments)) + MarkFor(entry.value, num)) else None
  {
    LowerSpelling(release, text, num);
    LowerWord(text);
    var raw, suffix := release + text + num, LowerCase(text) + num;
    MarkedAfter(release, suffix);
    MarkerReads(LowerCase(text), num);
    ReleaseNumbers(release);
    TrailingDotsPassedOver(release);
    hide LabelFor, IsLabel, CoreText, Split, MarkerText, FirstWhere, NonEmpty, Numbers, DropTrailing, AllNumbers,
      IsNumber, LowerCase, IsLower, IsDigit, MarkFor, IsRelease, IsWord, StripV;
    assert (release + suffix)[..|release|] == release && (release + suffix)[|release|..] == suffix;
  }

  lemma LabelledRefusedOtherwise(release: string, text: string, num: string)
    requires IsRelease(release) && IsWord(text) && IsCount(num) && (release != "" || text[0] != 'v')
    ensures var raw := release + text + num;
      ParseStrict(raw).None? && NormalizeGo(raw).None? && NormalizeCalver(raw).None? && raw != "" && raw[0] != 'v'
  {
    LowerSpelling(release, text, num);
    assert IsLetter(text[0]);
    hide ParseStrict, NormalizeGo, NormalizeCalver, LowerCase;
    LetterRefused(release + text + num, |release|);
  }

  lemma ParsedAsPep440(raw: string)
    requires ParseStrict(raw).None? && NormalizeGo(raw).None? && NormalizeCalver(raw).None? && raw != "" && raw[0] != 'v'
    ensures ParseVersion(raw) == ParseNormalized(NormalizePep440(raw))
  {
    hide ParseStrict, NormalizeGo, NormalizeCalver, NormalizePep440;
    NotNormalized();
  }

  function PrereleaseOf(entry: Pep440Label, num: string): seq<string> {
    if entry.prerelease then [entry.name, CountText(num)] else []
  }

  lemma LabelNames(name: string)
    requires LabelFor(name).Some?
    ensures var entry := LabelFor(name).value; entry.prerelease ==>
      IsLabel(entry.name) && '.' !in entry.name && '+' !in entry.name
  {
    if name in PEP440_LABELS { LabelFacts(name); }
  }

  lemma MarkedParses(parts: seq<nat>, entry: Pep440Label, num: string)
    requires |parts| <= 3 && IsCount(num)
    requires entry.prerelease ==> IsLabel(entry.name) && '.' !in entry.name && '+' !in entry.name
    ensures var p := PadTo3(parts);
      ParseNormalized(Some(CoreText(parts) + MarkFor(entry, num))) == Some(SemVer(p[0], p[1], p[2], PrereleaseOf(entry, num)))
  {
    assert IsNumber(CountText(num));
    hide ParseNormalized, CoreText, PadTo3, IsNumber, IsLabel, CountText;
    if entry.prerelease {
      PrereleaseParses(parts, entry.name, CountText(num));
    } else {
      PostReleaseParses(parts, entry.name, CountText(num));
    }
  }

  /**
   * Digits and dots, then letters, then perhaps a number, are read exactly when there are at most three numbers
   * before the letters and the letters name a label: as the release, zeros filling in, with the label and
   * its number (zero when missing) as prerelease if the label is one.
   */
  lemma Pep440Parses(release: string, text: string, num: string)
    requires IsRelease(release) && IsWord(text) && IsCount(num) && (release != "" || text[0] != 'v')
    ensures AllNumbers(ReleaseSegments(release))
    ensures var segments, entry := ReleaseSegments(release), LabelFor(LowerCase(text));
      ParseVersion(release + text + num) ==
      if |segments| > 3 || entry.None? then None
      else var p := PadTo3(Numbers(segments)); Some(SemVer(p[0], p[1], p[2], PrereleaseOf(entry.value, num)))
  {
    hide ParseStrict, ParseVersion, ParseNormalized, CoreText, PadTo3, LabelFor, NormalizeGo, NormalizeCalver, NormalizePep440,
      Numbers, AllNumbers, IsNumber, IsLabel, ReleaseSegments, LowerCase, IsWord, IsRelease, IsCount, MarkFor, PrereleaseOf;
    LabelledRefusedOtherwise(release, text, num);
    Pep440Normalizes(release, text, num);
    ParsedAsPep440(release + text + num);
    var segments, entry := ReleaseSegments(release), LabelFor(LowerCase(text));
    if |segments| <= 3 && entry.Some? {
      LabelNames(LowerCase(text));
      NumbersLength(segments);
      MarkedParses(Numbers(segments), entry.value, num);
    } else {
      NotNormalized();
    }
  }

  /** Such a spelling is accepted exactly when its letters are a label of the table or the one inherited name. */
  lemma LabelAcceptedIff(release: string, text: string, num: string)
    requires IsRelease(release) && IsWord(text) && IsCount(num) && (release != "" || text[0] != 'v')
    ensures ParseVersion(release + text + num).Some? <==>
      |ReleaseSegments(release)| <= 3 && (LowerCase(text) in PEP440_LABELS || LowerCase(text) == "constructor")
  {
    Pep440Parses(release, text, num);
    LowerWord(text);
    hide ParseVersion, ReleaseSegments, PadTo3, Numbers, AllNumbers, PrereleaseOf, PEP440_LABELS, INHERITED;
    var name := LowerCase(text);
    assert forall i | 0 <= i < |name| :: IsLower(name[i]);
    InheritedLabels(name);
  }

  /** Outside the table, the release with the inherited name is all that is accepted, and it is read as the bare release. */
  lemma AcceptedOutsideTableIff(release: string, text: string, num: string)
    requires IsRelease(release) && IsWord(text) && IsCount(num) && (release != "" || text[0] != 'v')
    requires LowerCase(text) !in PEP440_LABELS && |ReleaseSegments(release)| <= 3
    ensures ParseVersion(release + text + num).Some? <==> LowerCase(text) == "constructor"
    ensures AllNumbers(ReleaseSegments(release))
    ensures LowerCase(text) == "constructor" ==>
      var p := PadTo3(Numbers(ReleaseSegments(release)));
      ParseVersion(release + text + num) == Some(SemVer(p[0], p[1], p[2], []))
  {
    LabelAcceptedIff(release, text, num);
    Pep440Parses(release, text, num);
    hide ParseVersion, ReleaseSegments, PadTo3, Numbers, AllNumbers, PEP440_LABELS;
  }

  lemma {:induction false} DroppedAreMarks(s: string, c: char)
    ensures forall d | d in s :: d == c || d in DropTrailing(s, c)
    ensures |DropTrailing(s, c)| <= |s|
  {
    if s != "" && s[|s| - 1] == c {
      DroppedAreMarks(s[..|s| - 1], c);
      assert s == s[..|s| - 1] + [s[|s| - 1]];
    }
  }

  lemma {:induction false} JoinedChar(parts: seq<string>, c: char, d: char)
    requires d in Join(parts, c) && d != c
    ensures exists x :: x in parts && d in x
    decreases |parts|
  {
    if |parts| > 1 && d !in parts[0] { JoinedChar(parts[1..], c, d); }
  }

  lemma DottedNumbersAre(s: string)
    requires AllNumbers(NonEmpty(Split(DropTrailing(s, '.'), '.')))
    ensures IsRelease(s)
  {
    var kept := DropTrailing(s, '.');
    var parts := Split(kept, '.');
    DroppedAreMarks(s, '.');
    JoinSplit(kept, '.');
    hide DropTrailing, Split, Join;
    forall i | 0 <= i < |s| ensures IsDigit(s[i]) || s[i] == '.' {
      if s[i] != '.' {
        assert s[i] in s && s[i] in kept;
        JoinedChar(parts, '.', s[i]);
        var x :| x in parts && s[i] in x;
        var at :| 0 <= at < |parts| && parts[at] == x;
        NonEmptyHolds(parts, at);
        var k :| 0 <= k < |NonEmpty(parts)| && NonEmpty(parts)[k] == x;
      }
    }
  }

  /** Whatever is read by its label is, with letters in lower case and without a leading `v`, digits and dots, a word
      that is known or inherited, and perhaps a number. */
  lemma Pep440Inverse(raw: string) returns (release: string, word: string, num: string)
    requires NormalizePep440(raw).Some?
    ensures LowerCase(StripV(raw)) == release + word + num
    ensures IsRelease(release) && (word in PEP440_LABELS || word == "constructor") && IsCount(num)
  {
    var suffix: string;
    release, suffix := Pep440Parts(raw);
    hide NormalizePep440, MarkerText, LowerCase, StripV, DropTrailing, NonEmpty, Split, AllNumbers, IsRelease, IsCount, INHERITED, PEP440_LABELS;
    DottedNumbersAre(release);
    word, num := MarkerInverse(suffix);
    Regroup(release, word, num);
  }

  lemma Pep440Parts(raw: string) returns (release: string, suffix: string)
    requires NormalizePep440(raw).Some?
    ensures LowerCase(StripV(raw)) == release + suffix
    ensures AllNumbers(NonEmpty(Split(DropTrailing(release, '.'), '.')))
    ensures MarkerText(suffix).Some? && suffix != "" && IsLower(suffix[0])
    ensures forall i | 0 <= i < |suffix| :: !('A' <= suffix[i] <= 'Z')
  {
    LowerHasNoCapital(StripV(raw));
    hide LowerCase, StripV, DropTrailing, NonEmpty, Split, MarkerText;
    var input := LowerCase(StripV(raw));
    var marker := FirstWhere(input, IsLower);
    release, suffix := input[..marker], input[marker..];
    assert forall i | 0 <= i < |suffix| :: suffix[i] == input[marker + i];
  }

  lemma Regroup(a: string, b: string, c: string)
    ensures a + (b + c) == a + b + c
  {
  }

  lemma MarkerInverse(suffix: string) returns (word: string, num: string)
    requires MarkerText(suffix).Some? && suffix != "" && IsLower(suffix[0])
    requires forall i | 0 <= i < |suffix| :: !('A' <= suffix[i] <= 'Z')
    ensures suffix == word + num && (word in PEP440_LABELS || word == "constructor") && IsCount(num)
  {
    var digit := FirstWhere(suffix, IsDigit);
    word, num := suffix[..digit], suffix[digit..];
    assert LabelFor(word).Some?;
    if word == "" { LabelNotEmpty(); }
    hide FirstWhere, MarkerText, PEP440_LABELS, INHERITED;
    InheritedLabels(word);
  }

  lemma LabelNotEmpty()
    ensures LabelFor("").None?
  {
  }

  lemma LowerHasNoCapital(s: string)
    ensures forall i | 0 <= i < |LowerCase(s)| :: !('A' <= LowerCase(s)[i] <= 'Z')
  {
  }

  lemma OneDotTwo(release: string)
    requires release == "1.2"
    ensures IsRelease(release) && ReleaseSegments(release) == ["1", "2"] && Numbers(["1", "2"]) == [1, 2]
  {
    var one, two := "1", "2";
    OneDigit(one[0]);
    OneDigit(two[0]);
    assert one == [one[0]] && two == [two[0]];
    TwoNumbers(one, two);
    assert release == one + "." + two;
  }

  lemma TwoNumbers(a: string, b: string)
    requires IsNumber(a) && IsNumber(b)
    ensures ReleaseSegments(a + "." + b) == [a, b] && Numbers([a, b]) == [Decimal(a), Decimal(b)]
  {
    SplitFirst(a, b, '.');
    SplitSingle(b, '.');
    hide Split, Decimal;
    NonEmptyKeeps([a, b]);
    assert [a] + [b] == [a, b];
  }

  lemma {:induction false} NonEmptyKeeps(segments: seq<string>)
    requires AllNumbers(segments)
    ensures NonEmpty(segments) == segments
    decreases |segments|
  {
    if segments != [] {
      var n := |segments| - 1;
      assert IsNumber(segments[n]);
      NonEmptyKeeps(segments[..n]);
      assert segments == segments[..n] + [segments[n]];
    }
  }

  /** One spelling without a label of the table that is read as a release. */
  lemma ConstructorIsALabel()
    ensures ParseVersion("1.2" + "constructor" + "") == Some(SemVer(1, 2, 0, []))
  {
    var release, text := "1.2", "constructor";
    OneDotTwo(release);
    LowerConstructor(text);
    assert PadTo3([1, 2]) == [1, 2, 0];
    hide *;
    AcceptedOutsideTableIff(release, text, "");
  }

  lemma LowerConstructor(text: string)
    requires text == "constructor"
    ensures LowerCase(text) == text && IsWord(text) && text !in PEP440_LABELS && IsCount("")
  {
    assert |text| == 11;
  }

  lemma NotNormalized()
    ensures ParseNormalized(None) == None
  {
  }

  // ---------- The reading loops ----------

  lemma NumbersGrow(segments: seq<string>, i: nat)
    requires i < |segments| && AllNumbers(segments[..i]) && IsNumber(segments[i])
    ensures AllNumbers(segments[..i + 1]) && Numbers(segments[..i + 1]) == Numbers(segments[..i]) + [Decimal(segments[i])]
  {
    assert segments[..i + 1] == segments[..i] + [segments[i]];
  }

  method ReadCalver(raw: string) returns (r: Option<string>)
    ensures r == NormalizeCalver(raw)
  {
    hide Split, CoreText, Decimal;
    var input := StripV(raw);
    var pre := AfterDash(input);
    input := BeforeDash(input);
    var parts: seq<nat> := [];
    var segments := Split(input, '.');
    for i := 0 to |segments|
      invariant AllNumbers(segments[..i]) && parts == Numbers(segments[..i])
    {
      if !IsNumber(segments[i]) { return None; }
      NumbersGrow(segments, i);
      parts := parts + [Decimal(segments[i])];
    }
    assert segments[..|segments|] == segments;
    if |parts| == 0 || |parts| > 3 { return None; }
    return Some(CoreText(parts) + Suffix('-', pre));
  }

  lemma {:induction false} NonEmptyHolds(segments: seq<string>, i: nat)
    requires i < |segments| && segments[i] != ""
    ensures segments[i] in NonEmpty(segments)
    decreases |segments|
  {
    if i < |segments| - 1 { NonEmptyHolds(segments[..|segments| - 1], i); }
  }

  lemma NonEmptyGrows(segments: seq<string>, i: nat)
    requires i < |segments|
    ensures NonEmpty(segments[..i + 1]) ==
      if segments[i] == "" then NonEmpty(segments[..i]) else NonEmpty(segments[..i]) + [segments[i]]
  {
    assert segments[..i + 1][..i] == segments[..i];
  }

  lemma NumbersAppend(segments: seq<string>, segment: string)
    requires AllNumbers(segments) && IsNumber(segment)
    ensures AllNumbers(segments + [segment]) && Numbers(segments + [segment]) == Numbers(segments) + [Decimal(segment)]
  {
  }

  method ReadPep440(raw: string) returns (r: Option<string>)
    ensures r == NormalizePep440(raw)
  {
    hide Split, CoreText, Decimal, NonEmpty, MarkerText, Numbers, FirstWhere, DropTrailing, LowerCase;
    var input := LowerCase(StripV(raw));
    var marker := FirstWhere(input, IsLower);
    if marker == |input| { return None; }
    var release := DropTrailing(input[..marker], '.');
    var nums: seq<nat> := [];
    var segments := Split(release, '.');
    assert NonEmpty(segments[..0]) == [] by { NothingNonEmpty(); }
    assert nums == Numbers([]) by { NoNumbers(); }
    for i := 0 to |segments|
      invariant AllNumbers(NonEmpty(segments[..i])) && nums == Numbers(NonEmpty(segments[..i]))
    {
      var segment := segments[i];
      NonEmptyGrows(segments, i);
      if segment != "" {
        if !IsNumber(segment) {
          NonEmptyHolds(segments, i);
          return None;
        }
        NumbersAppend(NonEmpty(segments[..i]), segment);
        nums := nums + [Decimal(segment)];
      }
    }
    assert segments[..|segments|] == segments;
    NumbersLength(NonEmpty(segments));
    if |nums| > 3 { return None; }
    var mark := MarkerText(input[marker..]);
    return if mark.None? then None else Some(CoreText(nums) + mark.value);
  }

  lemma NumbersLength(segments: seq<string>)
    requires AllNumbers(segments)
    ensures |Numbers(segments)| == |segments|
  {
  }

  lemma NothingNonEmpty()
    ensures NonEmpty([]) == []
  {
  }

  lemma NoNumbers()
    ensures Numbers([]) == []
  {
  }
}
