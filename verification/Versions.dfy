/** Version precedence and the range algebra over it (`src/ts/version.ts`). */
module Versions {
  import opened Utf16
  import opened TextParts
  import opened Wrappers

  // Build metadata is not kept: precedence ignores it.
  datatype SemVer = SemVer(major: nat, minor: nat, patch: nat, pre: seq<string>)

  predicate IsStable(v: SemVer) {
    v.pre == []
  }

  // ---------- Precedence ----------

  function CompareNumbers(a: nat, b: nat): Ordering {
    if a < b then Less else if a > b then Greater else Equal
  }

  function CompareIdentifiers(l: string, r: string): Ordering {
    if IsNumber(l) && IsNumber(r) then CompareNumbers(Decimal(l), Decimal(r))
    else if IsNumber(l) then Less
    else if IsNumber(r) then Greater
    else Compare(l, r)
  }

  function FirstDifference(a: seq<string>, b: seq<string>): Ordering {
    if a == [] || b == [] then CompareNumbers(|a|, |b|)
    else
      var first := CompareIdentifiers(a[0], b[0]);
      if first != Equal then first else FirstDifference(a[1..], b[1..])
  }

  function ComparePre(a: seq<string>, b: seq<string>): Ordering {
    if a == [] && b == [] then Equal
    else if a == [] then Greater
    else if b == [] then Less
    else FirstDifference(a, b)
  }

  function Then(first: Ordering, second: Ordering): Ordering {
    if first != Equal then first else second
  }

  function CompareVersions(a: SemVer, b: SemVer): Ordering {
    Then(CompareNumbers(a.major, b.major),
      Then(CompareNumbers(a.minor, b.minor),
        Then(CompareNumbers(a.patch, b.patch), ComparePre(a.pre, b.pre))))
  }

  lemma IdentifierOrder(a: string, b: string, c: string)
    ensures CompareIdentifiers(a, a) == Equal
    ensures CompareIdentifiers(b, a) == Flip(CompareIdentifiers(a, b))
    ensures CompareIdentifiers(a, b) == Equal ==> CompareIdentifiers(a, c) == CompareIdentifiers(b, c)
    ensures CompareIdentifiers(a, b) == Less && CompareIdentifiers(b, c) == Less ==> CompareIdentifiers(a, c) == Less
  {
    TotalOrder(a, b, c);
    TotalOrder(a, a, a);
    hide Compare;
  }

  lemma {:induction false} FirstDifferenceOrder(a: seq<string>, b: seq<string>, c: seq<string>)
    ensures FirstDifference(a, a) == Equal
    ensures FirstDifference(b, a) == Flip(FirstDifference(a, b))
    ensures FirstDifference(a, b) == Equal ==> FirstDifference(a, c) == FirstDifference(b, c)
    ensures FirstDifference(a, b) == Less && FirstDifference(b, c) == Less ==> FirstDifference(a, c) == Less
    decreases |a|
  {
    hide CompareIdentifiers;
    if a != [] {
      var tb, tc := if b == [] then [] else b[1..], if c == [] then [] else c[1..];
      FirstDifferenceOrder(a[1..], tb, tc);
      IdentifierOrder(a[0], a[0], a[0]);
      if b != [] {
        IdentifierOrder(a[0], b[0], if c == [] then "" else c[0]);
        if c != [] {
          IdentifierOrder(b[0], c[0], a[0]);
          IdentifierOrder(c[0], a[0], b[0]);
        }
      }
    }
  }

  lemma PreOrder(a: seq<string>, b: seq<string>, c: seq<string>)
    ensures ComparePre(a, a) == Equal
    ensures ComparePre(b, a) == Flip(ComparePre(a, b))
    ensures ComparePre(a, b) == Equal ==> ComparePre(a, c) == ComparePre(b, c)
    ensures ComparePre(a, b) == Less && ComparePre(b, c) == Less ==> ComparePre(a, c) == Less
  {
    FirstDifferenceOrder(a, b, c);
    hide FirstDifference;
  }

  lemma StrictOrder(a: SemVer, b: SemVer, c: SemVer)
    ensures CompareVersions(a, a) == Equal
    ensures CompareVersions(b, a) == Flip(CompareVersions(a, b))
    ensures CompareVersions(a, b) == Equal ==> CompareVersions(a, c) == CompareVersions(b, c)
    ensures CompareVersions(a, b) == Less && CompareVersions(b, c) == Less ==> CompareVersions(a, c) == Less
  {
    PreOrder(a.pre, b.pre, c.pre);
    PreOrder(b.pre, c.pre, a.pre);
    PreOrder(c.pre, a.pre, b.pre);
    hide ComparePre;
  }

  predicate NotAbove(a: SemVer, b: SemVer) {
    CompareVersions(a, b) != Greater
  }

  /** Precedence is a total preorder: any two versions are comparable, and "not above" is reflexive and transitive. */
  lemma TotalPreorder(a: SemVer, b: SemVer, c: SemVer)
    ensures NotAbove(a, a)
    ensures NotAbove(a, b) || NotAbove(b, a)
    ensures NotAbove(a, b) && NotAbove(b, a) <==> CompareVersions(a, b) == Equal
    ensures NotAbove(a, b) && NotAbove(b, c) ==> NotAbove(a, c)
  {
    StrictOrder(a, b, c);
    StrictOrder(b, c, a);
    StrictOrder(c, a, b);
    hide CompareVersions;
  }

  // ---------- Item 11 of Semantic Versioning 2.0.0 ----------

  // Items 9 and 11.4.2: identifiers are ASCII and compare in ASCII order.
  predicate Ascii(s: string) {
    forall i | 0 <= i < |s| :: s[i] as int < 0x80
  }

  // Equal identifiers, numerals being read as numbers.
  predicate SameIdentifier(a: string, b: string) {
    if IsNumber(a) && IsNumber(b) then Decimal(a) == Decimal(b) else a == b
  }

  // 11.4.1 to 11.4.3.
  ghost predicate IdentifierBelow(a: string, b: string) {
    if IsNumber(a) && IsNumber(b) then Decimal(a) < Decimal(b)
    else if IsNumber(a) != IsNumber(b) then IsNumber(a)
    else LexicallyBelow(a, b)
  }

  ghost predicate SameUpTo(a: seq<string>, b: seq<string>, k: nat) {
    k <= |a| && k <= |b| && forall i | 0 <= i < k :: SameIdentifier(a[i], b[i])
  }

  // 11.4: compared identifier by identifier until a difference is found; a larger set wins when all before it agree.
  ghost predicate PreBelow(a: seq<string>, b: seq<string>) {
    exists k: nat :: SameUpTo(a, b, k) && k < |b| && (k == |a| || IdentifierBelow(a[k], b[k]))
  }

  // 11.2: major, minor and patch, always numerically.
  predicate CoreBelow(a: SemVer, b: SemVer) {
    || a.major < b.major
    || (a.major == b.major && a.minor < b.minor)
    || (a.major == b.major && a.minor == b.minor && a.patch < b.patch)
  }

  predicate SameCore(a: SemVer, b: SemVer) {
    a.major == b.major && a.minor == b.minor && a.patch == b.patch
  }

  // 11.3: with the same core, a pre-release is below the release.
  ghost predicate Below(a: SemVer, b: SemVer) {
    || CoreBelow(a, b)
    || (SameCore(a, b) && a.pre != [] && (b.pre == [] || PreBelow(a.pre, b.pre)))
  }

  ghost predicate SamePrecedence(a: SemVer, b: SemVer) {
    SameCore(a, b) && |a.pre| == |b.pre| && SameUpTo(a.pre, b.pre, |a.pre|)
  }

  ghost predicate AsciiPre(v: SemVer) {
    forall i | 0 <= i < |v.pre| :: Ascii(v.pre[i])
  }

  lemma {:induction false} EncodeAscii(s: string)
    requires Ascii(s)
    ensures |Encode(s)| == |s| && forall i | 0 <= i < |s| :: Encode(s)[i] == s[i] as int
  {
    if s != [] { EncodeAscii(s[1..]); }
  }

  lemma BeforeIsBelow(a: string, b: string)
    requires Ascii(a) && Ascii(b) && Before(a, b)
    ensures LexicallyBelow(a, b)
  {
    EncodeAscii(a);
    EncodeAscii(b);
    var x, y := Encode(a), Encode(b);
    var k := UnitsLess(x, y);
    hide Encode, CompareUnits;
    forall i | 0 <= i < k ensures a[i] == b[i] {
      assert x[i] == x[..k][i] == y[..k][i] == y[i];
    }
    assert a[..k] == b[..k];
  }

  lemma BelowIsBefore(a: string, b: string)
    requires Ascii(a) && Ascii(b) && LexicallyBelow(a, b)
    ensures Before(a, b)
  {
    EncodeAscii(a);
    EncodeAscii(b);
    var x, y := Encode(a), Encode(b);
    hide Encode;
    var k: nat :| k <= |a| && k < |b| && a[..k] == b[..k] && (k == |a| || a[k] < b[k]);
    forall i | 0 <= i < k ensures x[i] == y[i] {
      assert a[i] == a[..k][i] == b[..k][i] == b[i];
    }
    assert x[..k] == y[..k];
    UnitsLessAt(x, y, k);
  }

  lemma AsciiOrder(a: string, b: string)
    requires Ascii(a) && Ascii(b)
    ensures Before(a, b) <==> LexicallyBelow(a, b)
  {
    hide Before, LexicallyBelow, Ascii;
    if Before(a, b) { BeforeIsBelow(a, b); }
    if LexicallyBelow(a, b) { BelowIsBefore(a, b); }
  }

  lemma IdentifiersAgree(a: string, b: string)
    requires Ascii(a) && Ascii(b)
    ensures CompareIdentifiers(a, b) == Less <==> IdentifierBelow(a, b)
    ensures CompareIdentifiers(a, b) == Equal <==> SameIdentifier(a, b)
  {
    AsciiOrder(a, b);
    TotalOrder(a, b, a);
    hide Compare, LexicallyBelow;
  }

  lemma {:induction false} PreAgrees(a: seq<string>, b: seq<string>)
    requires (forall i | 0 <= i < |a| :: Ascii(a[i])) && (forall i | 0 <= i < |b| :: Ascii(b[i]))
    ensures FirstDifference(a, b) == Less <==> PreBelow(a, b)
    ensures FirstDifference(a, b) == Equal <==> |a| == |b| && SameUpTo(a, b, |a|)
  {
    hide CompareIdentifiers, SameIdentifier, IdentifierBelow, Ascii;
    if a == [] || b == [] {
      if a == [] && b != [] { assert SameUpTo(a, b, 0); }
    } else {
      IdentifiersAgree(a[0], b[0]);
      PreAgrees(a[1..], b[1..]);
      if CompareIdentifiers(a[0], b[0]) == Equal {
        SameTails(a, b);
      } else {
        if CompareIdentifiers(a[0], b[0]) == Less { assert SameUpTo(a, b, 0); }
        DifferentHeads(a, b);
      }
    }
  }

  lemma DifferentHeads(a: seq<string>, b: seq<string>)
    requires a != [] && b != [] && !SameIdentifier(a[0], b[0])
    ensures PreBelow(a, b) ==> IdentifierBelow(a[0], b[0])
    ensures forall k: nat | SameUpTo(a, b, k) :: k == 0
  {
    hide SameIdentifier, IdentifierBelow;
  }

  lemma SameTails(a: seq<string>, b: seq<string>)
    requires a != [] && b != [] && SameIdentifier(a[0], b[0]) && !IdentifierBelow(a[0], b[0])
    ensures PreBelow(a, b) <==> PreBelow(a[1..], b[1..])
    ensures |a| == |b| ==> (SameUpTo(a, b, |a|) <==> SameUpTo(a[1..], b[1..], |a| - 1))
  {
    hide SameIdentifier, IdentifierBelow;
    if PreBelow(a, b) {
      var k: nat :| SameUpTo(a, b, k) && k < |b| && (k == |a| || IdentifierBelow(a[k], b[k]));
      assert SameUpTo(a[1..], b[1..], k - 1);
    }
    if PreBelow(a[1..], b[1..]) {
      var k: nat :| SameUpTo(a[1..], b[1..], k) && k < |b| - 1 && (k == |a| - 1 || IdentifierBelow(a[1..][k], b[1..][k]));
      SameCons(a, b, k);
    }
    if |a| == |b| && SameUpTo(a[1..], b[1..], |a| - 1) { SameCons(a, b, |a| - 1); }
  }

  lemma SameCons(a: seq<string>, b: seq<string>, k: nat)
    requires a != [] && b != [] && SameIdentifier(a[0], b[0]) && SameUpTo(a[1..], b[1..], k)
    ensures SameUpTo(a, b, k + 1)
  {
    hide SameIdentifier;
    forall i | 0 <= i < k + 1 ensures SameIdentifier(a[i], b[i]) {
      if i > 0 { assert a[i] == a[1..][i - 1] && b[i] == b[1..][i - 1]; }
    }
  }

  /** Precedence is that of item 11 of Semantic Versioning 2.0.0, numeric identifiers compared without leading zeros. */
  lemma PrecedenceIsItem11(a: SemVer, b: SemVer)
    requires AsciiPre(a) && AsciiPre(b)
    ensures CompareVersions(a, b) == Less <==> Below(a, b)
    ensures CompareVersions(a, b) == Equal <==> SamePrecedence(a, b)
  {
    PreAgrees(a.pre, b.pre);
    hide FirstDifference, PreBelow, SameIdentifier;
  }

  // ---------- Bounds ----------

  datatype Op = Eq | Gt | Ge | Lt | Le

  datatype VersionBound = VersionBound(op: Op, version: SemVer)

  predicate MatchesBound(bound: VersionBound, candidate: SemVer) {
    var ordering := CompareVersions(candidate, bound.version);
    match bound.op
    case Eq => ordering == Equal
    case Gt => ordering == Greater
    case Ge => ordering != Less
    case Lt => ordering == Less
    case Le => ordering != Greater
  }

  predicate MatchesAll(bounds: seq<VersionBound>, candidate: SemVer) {
    forall i | 0 <= i < |bounds| :: MatchesBound(bounds[i], candidate)
  }

  /** A range accepts everything between two versions it accepts. */
  lemma RangesAreConvex(bounds: seq<VersionBound>, low: SemVer, mid: SemVer, high: SemVer)
    requires MatchesAll(bounds, low) && MatchesAll(bounds, high)
    requires NotAbove(low, mid) && NotAbove(mid, high)
    ensures MatchesAll(bounds, mid)
  {
    hide CompareVersions;
    forall i | 0 <= i < |bounds| ensures MatchesBound(bounds[i], mid) {
      var b := bounds[i].version;
      assert MatchesBound(bounds[i], low) && MatchesBound(bounds[i], high);
      Sandwich(low, mid, high, b);
    }
  }

  lemma Sandwich(low: SemVer, mid: SemVer, high: SemVer, b: SemVer)
    requires NotAbove(low, mid) && NotAbove(mid, high)
    ensures CompareVersions(low, b) == Greater ==> CompareVersions(mid, b) == Greater
    ensures CompareVersions(low, b) != Less ==> CompareVersions(mid, b) != Less
    ensures CompareVersions(high, b) == Less ==> CompareVersions(mid, b) == Less
    ensures CompareVersions(high, b) != Greater ==> CompareVersions(mid, b) != Greater
  {
    StrictOrder(low, mid, b);
    StrictOrder(mid, low, b);
    StrictOrder(b, low, mid);
    StrictOrder(b, mid, high);
    StrictOrder(b, high, mid);
    StrictOrder(mid, high, b);
    StrictOrder(mid, b, low);
    StrictOrder(high, b, mid);
    StrictOrder(low, b, mid);
    hide CompareVersions;
  }

  // ---------- Expanding a range token ----------

  // One to three leading numbers, a prerelease, and whether a wildcard follows.
  datatype Partial = Partial(parts: seq<nat>, pre: seq<string>, wildcard: bool)

  datatype Operator = Bare | Caret | Tilde | Plain(op: Op)

  function AtLeast(parts: seq<nat>, pre: seq<string>): SemVer
    requires parts != []
  {
    SemVer(parts[0], if |parts| > 1 then parts[1] else 0, if |parts| > 2 then parts[2] else 0, pre)
  }

  function At(major: nat, minor: nat, patch: nat): SemVer {
    SemVer(major, minor, patch, [])
  }

  function CaretUpper(parts: seq<nat>): SemVer
    requires parts != []
  {
    if parts[0] != 0 then At(parts[0] + 1, 0, 0)
    else if |parts| < 2 then At(1, 0, 0)
    else if parts[1] != 0 then At(0, parts[1] + 1, 0)
    else if |parts| < 3 then At(0, 1, 0)
    else if parts[2] != 0 then At(0, 0, parts[2] + 1)
    else At(0, 0, 1)
  }

  function TildeUpper(parts: seq<nat>): SemVer
    requires parts != []
  {
    if |parts| < 2 then At(parts[0] + 1, 0, 0) else At(parts[0], parts[1] + 1, 0)
  }

  function Between(low: SemVer, high: SemVer): seq<VersionBound> {
    [VersionBound(Ge, low), VersionBound(Lt, high)]
  }

  function Bounds(operator: Operator, p: Partial): seq<VersionBound> {
    if p.parts == [] then []
    else
      var low := AtLeast(p.parts, p.pre);
      match operator
      case Bare => Between(low, if p.wildcard then TildeUpper(p.parts) else CaretUpper(p.parts))
      case Caret => Between(low, CaretUpper(p.parts))
      case Tilde => Between(low, TildeUpper(p.parts))
      case Plain(op) =>
        if op == Eq && |p.parts| != 3 then Between(low, TildeUpper(p.parts)) else [VersionBound(op, low)]
  }

  // ---------- What an expanded token means ----------

  function Segment(v: SemVer, i: nat): nat
    requires i < 3
  {
    if i == 0 then v.major else if i == 1 then v.minor else v.patch
  }

  // The first non-zero part, or the last part when all are zero.
  function LeftmostNonZero(parts: seq<nat>): (k: nat)
    requires parts != []
    ensures k < |parts| && (forall i | 0 <= i < k :: parts[i] == 0) && (parts[k] == 0 ==> k == |parts| - 1)
  {
    if parts[0] != 0 || |parts| == 1 then 0 else 1 + LeftmostNonZero(parts[1..])
  }

  predicate AgreesThrough(parts: seq<nat>, k: nat, v: SemVer)
    requires |parts| <= 3
  {
    forall i | 0 <= i <= k && i < |parts| :: Segment(v, i) == parts[i]
  }

  // The numbers of v, against those of the bound padded with zeros; prereleases play no part.
  predicate AtOrAbove(v: SemVer, low: SemVer) {
    !CoreBelow(v, low)
  }

  /** What a token says of a stable candidate, without reference to precedence. */
  ghost predicate Says(operator: Operator, p: Partial, v: SemVer)
    requires |p.parts| <= 3
  {
    p.parts != [] ==>
      var low := AtLeast(p.parts, p.pre);
      var sameLine := AtOrAbove(v, low) && AgreesThrough(p.parts, 1, v);
      var compatible := AtOrAbove(v, low) && AgreesThrough(p.parts, LeftmostNonZero(p.parts), v);
      match operator
      case Bare => if p.wildcard then sameLine else compatible
      case Caret => compatible
      case Tilde => sameLine
      case Plain(Eq) => if |p.parts| == 3 then SameCore(v, low) && p.pre == [] else sameLine
      case Plain(Ge) => AtOrAbove(v, low)
      case Plain(Gt) => AtOrAbove(v, low) && (SameCore(v, low) ==> p.pre != [])
      case Plain(Lt) => CoreBelow(v, low)
      case Plain(Le) => CoreBelow(v, low) || (SameCore(v, low) && p.pre == [])
  }

  lemma StableOrder(v: SemVer, low: SemVer)
    requires IsStable(v)
    ensures CompareVersions(v, low) == Less <==> CoreBelow(v, low)
    ensures CompareVersions(v, low) == Equal <==> SameCore(v, low) && low.pre == []
  {
  }

  lemma CaretLine(parts: seq<nat>, low: SemVer, v: SemVer)
    requires 0 < |parts| <= 3 && low == AtLeast(parts, low.pre) && AtOrAbove(v, low)
    ensures CoreBelow(v, CaretUpper(parts)) <==> AgreesThrough(parts, LeftmostNonZero(parts), v)
  {
    var k := LeftmostNonZero(parts);
    assert AgreesThrough(parts, k, v) <==>
      v.major == parts[0] && (k >= 1 ==> v.minor == parts[1]) && (k >= 2 ==> v.patch == parts[2]) by {
      assert Segment(v, 0) == v.major && Segment(v, 1) == v.minor && Segment(v, 2) == v.patch;
    }
  }

  lemma TildeLine(parts: seq<nat>, low: SemVer, v: SemVer)
    requires 0 < |parts| <= 3 && low == AtLeast(parts, low.pre) && AtOrAbove(v, low)
    ensures CoreBelow(v, TildeUpper(parts)) <==> AgreesThrough(parts, 1, v)
  {
    assert Segment(v, 0) == v.major && Segment(v, 1) == v.minor;
  }

  lemma BetweenMeans(low: SemVer, high: SemVer, v: SemVer)
    requires IsStable(v) && IsStable(high)
    ensures MatchesAll(Between(low, high), v) <==> AtOrAbove(v, low) && CoreBelow(v, high)
  {
    StableOrder(v, low);
    StableOrder(v, high);
    hide CompareVersions;
    var b := Between(low, high);
    assert MatchesAll(b, v) <==> MatchesBound(b[0], v) && MatchesBound(b[1], v);
  }

  /** The bounds of a token accept exactly the stable versions that the token describes. */
  lemma BoundsMeanWhatTheySay(operator: Operator, p: Partial, v: SemVer)
    requires |p.parts| <= 3 && IsStable(v)
    ensures MatchesAll(Bounds(operator, p), v) <==> Says(operator, p, v)
  {
    if p.parts != [] {
      var low := AtLeast(p.parts, p.pre);
      BetweenMeans(low, CaretUpper(p.parts), v);
      BetweenMeans(low, TildeUpper(p.parts), v);
      if AtOrAbove(v, low) {
        CaretLine(p.parts, low, v);
        TildeLine(p.parts, low, v);
      }
      StableOrder(v, low);
      hide CompareVersions, CaretUpper, TildeUpper, AgreesThrough, Between;
      if operator.Plain? {
        var one := [VersionBound(operator.op, low)];
        assert MatchesAll(one, v) <==> MatchesBound(one[0], v);
      }
    }
  }

  // ---------- Prerelease candidates ----------

  // Where the range of a token ends; a plain comparison has no such end.
  function UpperFor(operator: Operator, p: Partial): Option<SemVer>
    requires p.parts != []
  {
    match operator
    case Bare => Some(if p.wildcard then TildeUpper(p.parts) else CaretUpper(p.parts))
    case Caret => Some(CaretUpper(p.parts))
    case Tilde => Some(TildeUpper(p.parts))
    case Plain(op) => if op == Eq && |p.parts| != 3 then Some(TildeUpper(p.parts)) else None
  }

  /** What a token takes of prereleases: those above its bound up to and including those of its upper end. */
  ghost predicate Takes(operator: Operator, p: Partial, v: SemVer)
    requires |p.parts| <= 3
  {
    p.parts != [] ==>
      var low, upper := AtLeast(p.parts, p.pre), UpperFor(operator, p);
      var atBound := ComparePre(v.pre, p.pre);
      if upper.Some? then
        (CoreBelow(low, v) || (SameCore(v, low) && atBound != Less)) && !CoreBelow(upper.value, v)
      else match operator.op
        case Eq => SameCore(v, low) && atBound == Equal
        case Ge => CoreBelow(low, v) || (SameCore(v, low) && atBound != Less)
        case Gt => CoreBelow(low, v) || (SameCore(v, low) && atBound == Greater)
        case Lt => CoreBelow(v, low) || (SameCore(v, low) && atBound == Less)
        case Le => CoreBelow(v, low) || (SameCore(v, low) && atBound != Greater)
  }

  /** The prereleases that the bounds of a token treat otherwise than the token says. */
  ghost predicate Misread(operator: Operator, p: Partial, v: SemVer)
    requires |p.parts| <= 3
  {
    && p.parts != [] && !IsStable(v)
    && var low, upper := AtLeast(p.parts, p.pre), UpperFor(operator, p);
       var atBound := ComparePre(v.pre, p.pre);
       if upper.Some? then SameCore(v, upper.value) || (SameCore(v, low) && atBound == Less)
       else SameCore(v, low) && match operator.op
         case Eq => p.pre == [] || atBound == Equal
         case Ge => atBound == Less
         case Lt => atBound == Less
         case _ => p.pre != [] && atBound != Greater
  }

  lemma PrereleaseOrder(v: SemVer, low: SemVer)
    requires !IsStable(v)
    ensures CompareVersions(v, low) == Less <==> CoreBelow(v, low) || (SameCore(v, low) && ComparePre(v.pre, low.pre) == Less)
    ensures CompareVersions(v, low) == Equal <==> SameCore(v, low) && ComparePre(v.pre, low.pre) == Equal
    ensures IsStable(low) ==> ComparePre(v.pre, low.pre) == Less
    ensures CoreBelow(v, low) || SameCore(v, low) || CoreBelow(low, v)
    ensures SameCore(v, low) ==> !CoreBelow(v, low) && !CoreBelow(low, v)
    ensures !(CoreBelow(v, low) && CoreBelow(low, v))
  {
    hide FirstDifference;
  }

  lemma BetweenTakes(low: SemVer, high: SemVer, v: SemVer)
    requires !IsStable(v) && IsStable(high)
    ensures MatchesAll(Between(low, high), v) <==>
      (CoreBelow(low, v) || (SameCore(v, low) && ComparePre(v.pre, low.pre) != Less)) && !CoreBelow(high, v)
  {
    PrereleaseOrder(v, low);
    PrereleaseOrder(v, high);
    hide CompareVersions, ComparePre, CoreBelow, SameCore;
    var b := Between(low, high);
    assert MatchesAll(b, v) <==> MatchesBound(b[0], v) && MatchesBound(b[1], v);
  }

  lemma OneBoundMatches(op: Op, low: SemVer, v: SemVer)
    ensures MatchesAll([VersionBound(op, low)], v) <==> MatchesBound(VersionBound(op, low), v)
  {
    var one := [VersionBound(op, low)];
    assert MatchesAll(one, v) <==> MatchesBound(one[0], v);
  }

  /** The bounds of a token accept exactly the prereleases that it takes. */
  lemma BoundsTakePrereleases(operator: Operator, p: Partial, v: SemVer)
    requires |p.parts| <= 3 && !IsStable(v)
    ensures MatchesAll(Bounds(operator, p), v) <==> Takes(operator, p, v)
  {
    if p.parts != [] {
      var low := AtLeast(p.parts, p.pre);
      BetweenTakes(low, CaretUpper(p.parts), v);
      BetweenTakes(low, TildeUpper(p.parts), v);
      PrereleaseOrder(v, low);
      hide CompareVersions, ComparePre, CoreBelow, SameCore, CaretUpper, TildeUpper, Between, MatchesAll;
      if operator.Plain? { OneBoundMatches(operator.op, low, v); }
    }
  }

  lemma EndsApart(parts: seq<nat>, low: SemVer)
    requires 0 < |parts| <= 3 && low == AtLeast(parts, low.pre)
    ensures CoreBelow(low, CaretUpper(parts)) && CoreBelow(low, TildeUpper(parts))
    ensures IsStable(CaretUpper(parts)) && IsStable(TildeUpper(parts))
  {
  }

  // On a line from low to its upper end, the two readings part exactly at the prereleases of the ends.
  lemma LinePartsAtEnds(low: SemVer, upper: SemVer, v: SemVer)
    requires !IsStable(v) && CoreBelow(low, upper)
    ensures var atBound := ComparePre(v.pre, low.pre);
      (((CoreBelow(low, v) || (SameCore(v, low) && atBound != Less)) && !CoreBelow(upper, v)) <==>
       (AtOrAbove(v, low) && CoreBelow(v, upper))) <==>
      !(SameCore(v, upper) || (SameCore(v, low) && atBound == Less))
  {
    hide ComparePre;
  }

  /** A token's bounds and what it says agree on a version exactly when it is stable or away from the token's ends. */
  lemma SaysExactlyWhen(operator: Operator, p: Partial, v: SemVer)
    requires |p.parts| <= 3
    ensures (MatchesAll(Bounds(operator, p), v) <==> Says(operator, p, v)) <==> !Misread(operator, p, v)
  {
    if IsStable(v) {
      BoundsMeanWhatTheySay(operator, p, v);
    } else {
      BoundsTakePrereleases(operator, p, v);
      hide MatchesAll, Bounds;
      if p.parts != [] {
        var low := AtLeast(p.parts, p.pre);
        EndsApart(p.parts, low);
        if AtOrAbove(v, low) {
          CaretLine(p.parts, low, v);
          TildeLine(p.parts, low, v);
        }
        LinePartsAtEnds(low, CaretUpper(p.parts), v);
        LinePartsAtEnds(low, TildeUpper(p.parts), v);
        PrereleaseOrder(v, low);
        hide CompareVersions, ComparePre, CaretUpper, TildeUpper, AgreesThrough, CoreBelow, SameCore;
      }
    }
  }

  /** A caret range without a prerelease of its own takes the prereleases strictly above its bound that are not
      above its upper end, so those of the upper end are in and those of the bound are out. */
  lemma CaretTakesPrereleaseIff(parts: seq<nat>, v: SemVer)
    requires 0 < |parts| <= 3
    ensures var bounds, says := Bounds(Caret, Partial(parts, [], false)), Says(Caret, Partial(parts, [], false), v);
      && (!IsStable(v) ==>
           (MatchesAll(bounds, v) <==> CoreBelow(AtLeast(parts, []), v) && !CoreBelow(CaretUpper(parts), v)))
      && ((MatchesAll(bounds, v) <==> says) <==>
           IsStable(v) || !(SameCore(v, CaretUpper(parts)) || SameCore(v, AtLeast(parts, []))))
  {
    var p := Partial(parts, [], false);
    if !IsStable(v) {
      BoundsTakePrereleases(Caret, p, v);
      PrereleaseOrder(v, AtLeast(parts, []));
    }
    SaysExactlyWhen(Caret, p, v);
    hide MatchesAll, Bounds, Says, CaretUpper, CoreBelow, SameCore, ComparePre;
  }
}
