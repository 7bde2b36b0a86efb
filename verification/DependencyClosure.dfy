/** Normalization, ordering and digest of package dependency closures. */
module DependencyClosure {
  import opened CanonicalJson
  import opened Json
  import JsonReader
  import opened TextOutput
  import StableSort
  import opened Utf16
  import opened Wrappers

  const FORMAT_V1 := "zed-package-dependency-closure-v1"
  const MAX_DEPENDENCIES := 4096

  const TopLevelFields: set<string> := {
    "closure_digest", "dependencies", "dependency_lock_digest", "format", "resolver_id", "resolver_version", "root" }
  const RegistryIdentityFields: set<string> := {
    "artifact_digest", "ecosystem", "package_name", "package_version", "resolved_revision", "source_digest", "source_uri" }
  const HexIdentityFields: set<string> := {
    "artifact_digest", "ecosystem", "outer_checksum", "package_name", "package_version", "registry_uri",
    "resolved_revision", "source_digest", "source_uri" }

  datatype ClosureError =
    | NotObject
    | InvalidTopLevelShape
    | InvalidFormat
    | InvalidStringField
    | InvalidDigest
    | DependenciesNotArray
    | TooManyDependencies(actual: nat)
    | InvalidIdentityShape
    | UnsupportedEcosystem
    | DuplicateDependency
    | RootRepeated
    | UnsupportedCanonicalValue
    | DigestMismatch(supplied: string, recomputed: string)

  type Members = map<string, Value>

  // ---------- Fields ----------

  function StringField(m: Members, field: string): Result<string, ClosureError> {
    if field in m && m[field].String? then Ok(m[field].text) else Err(InvalidStringField)
  }

  function NonEmptyString(m: Members, field: string): Result<string, ClosureError> {
    var r := StringField(m, field);
    if r.Ok? && r.value == "" then Err(InvalidStringField) else r
  }

  function LowerChar(c: char): char {
    if 'A' <= c <= 'Z' then (c as int + 32) as char else c
  }

  function Lower(s: string): string {
    seq(|s|, i requires 0 <= i < |s| => LowerChar(s[i]))
  }

  predicate IsHexDigit(c: char) {
    '0' <= c <= '9' || 'a' <= c <= 'f' || 'A' <= c <= 'F'
  }

  predicate IsDigest(s: string) {
    |s| == 64 && forall i | 0 <= i < |s| :: IsHexDigit(s[i])
  }

  function DigestField(m: Members, field: string): Result<string, ClosureError> {
    var r := StringField(m, field);
    if r.Err? then r
    else if !IsDigest(r.value) then Err(InvalidDigest)
    else Ok(Lower(r.value))
  }

  lemma LowerFacts(s: string)
    ensures Lower(Lower(s)) == Lower(s)
    ensures IsDigest(Lower(s)) <==> IsDigest(s)
  {
    assert forall i | 0 <= i < |s| :: IsHexDigit(Lower(s)[i]) <==> IsHexDigit(s[i]);
  }

  // ---------- Identities ----------

  datatype IdentityKey = IdentityKey(
    ecosystem: string, registryUri: string, packageName: string, packageVersion: string,
    resolvedRevision: string, artifactDigest: string, sourceDigest: string, outerChecksum: string)

  function Fields(k: IdentityKey): seq<string> {
    [k.ecosystem, k.registryUri, k.packageName, k.packageVersion,
     k.resolvedRevision, k.artifactDigest, k.sourceDigest, k.outerChecksum]
  }

  function FirstDifference(a: seq<string>, b: seq<string>): Ordering
    requires |a| == |b|
  {
    if a == [] then Equal
    else if Compare(a[0], b[0]) != Equal then Compare(a[0], b[0])
    else FirstDifference(a[1..], b[1..])
  }

  function CompareKeys(a: IdentityKey, b: IdentityKey): Ordering {
    FirstDifference(Fields(a), Fields(b))
  }

  lemma {:induction false} FirstDifferenceOrders(a: seq<string>, b: seq<string>, c: seq<string>)
    requires |a| == |b| == |c|
    ensures FirstDifference(a, b) == Equal <==> a == b
    ensures FirstDifference(b, a) == Flip(FirstDifference(a, b))
    ensures FirstDifference(a, b) == Less && FirstDifference(b, c) == Less ==> FirstDifference(a, c) == Less
    decreases |a|
  {
    hide Compare;
    if a != [] {
      TotalOrder(a[0], b[0], c[0]);
      TotalOrder(b[0], c[0], a[0]);
      TotalOrder(a[0], c[0], b[0]);
      FirstDifferenceOrders(a[1..], b[1..], c[1..]);
      assert a == [a[0]] + a[1..] && b == [b[0]] + b[1..];
    }
  }

  /** Identity keys are totally ordered, and compare equal only when they are the same key. */
  lemma KeyOrder(a: IdentityKey, b: IdentityKey, c: IdentityKey)
    ensures CompareKeys(a, b) == Equal <==> a == b
    ensures CompareKeys(b, a) == Flip(CompareKeys(a, b))
    ensures CompareKeys(a, b) == Less && CompareKeys(b, c) == Less ==> CompareKeys(a, c) == Less
  {
    FirstDifferenceOrders(Fields(a), Fields(b), Fields(c));
    if Fields(a) == Fields(b) {
      assert Fields(a)[0] == Fields(b)[0] && Fields(a)[1] == Fields(b)[1] && Fields(a)[2] == Fields(b)[2];
      assert Fields(a)[3] == Fields(b)[3] && Fields(a)[4] == Fields(b)[4] && Fields(a)[5] == Fields(b)[5];
      assert Fields(a)[6] == Fields(b)[6] && Fields(a)[7] == Fields(b)[7];
    }
  }

  // ---------- Checking and lowering fields in order ----------

  // A field that must be a non-empty string, or a digest to be lowered in place.
  datatype Check = Check(field: string, isDigest: bool)

  const IdentityChecks: seq<Check> := [
    Check("package_name", false), Check("package_version", false), Check("source_uri", false),
    Check("resolved_revision", false), Check("source_digest", true), Check("artifact_digest", true) ]
  const HexChecks: seq<Check> := IdentityChecks + [ Check("registry_uri", false), Check("outer_checksum", true) ]
  const TopChecks: seq<Check> := [
    Check("dependency_lock_digest", true), Check("closure_digest", true),
    Check("resolver_id", false), Check("resolver_version", false) ]

  function ApplyOne(m: Members, c: Check): Result<Members, ClosureError> {
    if c.isDigest then
      var d := DigestField(m, c.field);
      if d.Ok? then Ok(m[c.field := String(d.value)]) else Err(d.error)
    else
      var t := NonEmptyString(m, c.field);
      if t.Ok? then Ok(m) else Err(t.error)
  }

  function Apply(m: Members, checks: seq<Check>): Result<Members, ClosureError>
    decreases |checks|
  {
    if checks == [] then Ok(m)
    else
      var r := ApplyOne(m, checks[0]);
      if r.Err? then r else Apply(r.value, checks[1..])
  }

  // The field passes its check as it stands, digests being lower case already.
  predicate Settled(m: Members, c: Check) {
    && c.field in m && m[c.field].String?
    && if c.isDigest then IsDigest(m[c.field].text) && Lower(m[c.field].text) == m[c.field].text
       else m[c.field].text != ""
  }

  lemma {:induction false} ApplySettles(m: Members, checks: seq<Check>)
    requires Apply(m, checks).Ok?
    ensures var w := Apply(m, checks).value;
      && w.Keys == m.Keys
      && (forall c | c in checks :: Settled(w, c))
      && (forall c | Settled(m, c) :: Settled(w, c))
      && (forall f | f in m && Check(f, true) !in checks :: w[f] == m[f])
    decreases |checks|
  {
    hide Lower, IsDigest;
    if checks != [] {
      var m1 := ApplyOne(m, checks[0]).value;
      ApplyOneSettles(m, checks[0]);
      ApplySettles(m1, checks[1..]);
      hide Apply, Settled;
      var w := Apply(m1, checks[1..]).value;
      forall c | c in checks ensures Settled(w, c) {
        assert c == checks[0] || c in checks[1..];
      }
    }
  }

  lemma ApplyOneSettles(m: Members, c: Check)
    requires ApplyOne(m, c).Ok?
    ensures var w := ApplyOne(m, c).value;
      && w.Keys == m.Keys && Settled(w, c)
      && (forall d | Settled(m, d) :: Settled(w, d))
      && (forall f | f in m && Check(f, true) != c :: w[f] == m[f])
  {
    if c.isDigest {
      LowerFacts(m[c.field].text);
    }
    hide Lower, IsDigest;
    var w := ApplyOne(m, c).value;
    forall d | Settled(m, d) ensures Settled(w, d) {
      if d.field == c.field && c.isDigest { LowerNonEmpty(m[c.field].text); }
    }
  }

  lemma LowerNonEmpty(s: string)
    ensures Lower(s) == "" ==> s == ""
  {
    assert |Lower(s)| == |s|;
  }

  lemma {:induction false} ApplyFixed(m: Members, checks: seq<Check>)
    requires forall c | c in checks :: Settled(m, c)
    ensures Apply(m, checks) == Ok(m)
    decreases |checks|
  {
    hide Lower, IsDigest;
    if checks != [] {
      assert Settled(m, checks[0]);
      assert m[checks[0].field := m[checks[0].field]] == m;
      ApplyFixed(m, checks[1..]);
    }
  }

  // ---------- Identities ----------

  predicate KnownEcosystem(e: string) {
    e == "hex" || e == "npm" || e == "cargo" || e == "python" || e == "git"
  }

  function ChecksFor(ecosystem: string): seq<Check> {
    if ecosystem == "hex" then HexChecks else IdentityChecks
  }

  function FieldsFor(ecosystem: string): set<string> {
    if ecosystem == "hex" then HexIdentityFields else RegistryIdentityFields
  }

  function TextAt(m: Members, field: string): string {
    if field in m && m[field].String? then m[field].text else ""
  }

  function KeyOf(m: Members): IdentityKey {
    var hex := TextAt(m, "ecosystem") == "hex";
    IdentityKey(
      TextAt(m, "ecosystem"), if hex then TextAt(m, "registry_uri") else "", TextAt(m, "package_name"),
      TextAt(m, "package_version"), TextAt(m, "resolved_revision"), TextAt(m, "artifact_digest"),
      TextAt(m, "source_digest"), if hex then TextAt(m, "outer_checksum") else "")
  }

  // A normalized identity with its sort key.
  datatype Keyed = Keyed(key: IdentityKey, value: Value)

  function NormalizeIdentity(v: Value): Result<Keyed, ClosureError> {
    if !v.Object? then Err(InvalidIdentityShape)
    else
      var ecosystem := StringField(v.members, "ecosystem");
      if ecosystem.Err? then Err(ecosystem.error)
      else if !KnownEcosystem(ecosystem.value) then Err(UnsupportedEcosystem)
      else if v.members.Keys != FieldsFor(ecosystem.value) then Err(InvalidIdentityShape)
      else
        var w := Apply(v.members, ChecksFor(ecosystem.value));
        if w.Err? then Err(w.error) else Ok(Keyed(KeyOf(w.value), Object(w.value)))
  }

  function CheckedFields(checks: seq<Check>): set<string> {
    set c | c in checks :: c.field
  }

  lemma CheckedFieldsAppend(a: seq<Check>, b: seq<Check>)
    ensures CheckedFields(a + b) == CheckedFields(a) + CheckedFields(b)
  {
  }

  lemma CheckedFieldsOfSix(a: Check, b: Check, c: Check, d: Check, e: Check, f: Check)
    ensures CheckedFields([a, b, c, d, e, f]) == {a.field, b.field, c.field, d.field, e.field, f.field}
  {
    var s := [a, b, c, d, e, f];
    assert s[0] == a && s[1] == b && s[2] == c && s[3] == d && s[4] == e && s[5] == f;
  }

  lemma CheckedFieldsOfTwo(a: Check, b: Check)
    ensures CheckedFields([a, b]) == {a.field, b.field}
  {
    var s := [a, b];
    assert s[0] == a && s[1] == b;
  }

  lemma IdentityFieldsChecked()
    ensures RegistryIdentityFields == CheckedFields(IdentityChecks) + {"ecosystem"}
  {
    CheckedFieldsOfSix(Check("package_name", false), Check("package_version", false), Check("source_uri", false),
      Check("resolved_revision", false), Check("source_digest", true), Check("artifact_digest", true));
  }

  lemma HexFieldsChecked()
    ensures HexIdentityFields == CheckedFields(HexChecks) + {"ecosystem"}
  {
    IdentityFieldsChecked();
    CheckedFieldsOfTwo(Check("registry_uri", false), Check("outer_checksum", true));
    CheckedFieldsAppend(IdentityChecks, [ Check("registry_uri", false), Check("outer_checksum", true) ]);
    hide CheckedFields;
  }

  lemma EveryFieldChecked(ecosystem: string)
    ensures FieldsFor(ecosystem) == CheckedFields(ChecksFor(ecosystem)) + {"ecosystem"}
  {
    IdentityFieldsChecked();
    HexFieldsChecked();
    hide CheckedFields;
  }

  lemma EcosystemUnchecked(ecosystem: string)
    ensures Check("ecosystem", true) !in ChecksFor(ecosystem)
  {
  }

  lemma AllStrings(w: Members, checks: seq<Check>)
    requires w.Keys == CheckedFields(checks) + {"ecosystem"} && w["ecosystem"].String?
    requires forall c | c in checks :: Settled(w, c)
    ensures Supported(Object(w))
  {
    forall f | f in w ensures Supported(w[f]) {
      if f != "ecosystem" {
        assert f in CheckedFields(checks);
        var c :| c in checks && c.field == f;
        assert Settled(w, c);
      }
    }
  }

  /** Normalizing twice is normalizing once: the result is stable, keyed alike and holds only strings. */
  lemma IdentityStable(v: Value)
    requires NormalizeIdentity(v).Ok?
    ensures var k := NormalizeIdentity(v).value; NormalizeIdentity(k.value) == Ok(k) && Supported(k.value)
  {
    hide Apply, ChecksFor, FieldsFor, KeyOf, KnownEcosystem, Settled, CheckedFields, Supported;
    var e := v.members["ecosystem"].text;
    var checks := ChecksFor(e);
    EveryFieldChecked(e);
    EcosystemUnchecked(e);
    ApplySettles(v.members, checks);
    var w := Apply(v.members, checks).value;
    ApplyFixed(w, checks);
    assert w["ecosystem"] == v.members["ecosystem"];
    AllStrings(w, checks);
  }

  // ---------- Hex case ----------

  /** Equal except for the letter case of the digest fields among `checks`. */
  ghost predicate SameFields(a: Members, b: Members, checks: seq<Check>) {
    && a.Keys == b.Keys
    && forall f | f in a ::
      a[f] == b[f] || (Check(f, true) in checks && a[f].String? && b[f].String? && Lower(a[f].text) == Lower(b[f].text))
  }

  lemma SameCheckOutcome(a: Members, b: Members, checks: seq<Check>)
    requires checks != [] && SameFields(a, b, checks)
    ensures ApplyOne(a, checks[0]).Ok? ==> ApplyOne(b, checks[0]).Ok?
    ensures ApplyOne(a, checks[0]).Ok? ==> SameFields(ApplyOne(a, checks[0]).value, ApplyOne(b, checks[0]).value, checks[1..])
    ensures ApplyOne(a, checks[0]).Err? ==> ApplyOne(a, checks[0]) == ApplyOne(b, checks[0])
  {
    var c := checks[0];
    if c.field in a && a[c.field].String? && b[c.field].String? {
      LowerFacts(a[c.field].text);
      LowerFacts(b[c.field].text);
      LowerNonEmpty(a[c.field].text);
      LowerNonEmpty(b[c.field].text);
      assert |Lower(a[c.field].text)| == |a[c.field].text| && |Lower(b[c.field].text)| == |b[c.field].text|;
    }
    hide Lower, IsDigest;
    assert forall d | d in checks :: d == c || d in checks[1..];
  }

  lemma {:induction false} SameApply(a: Members, b: Members, checks: seq<Check>)
    requires SameFields(a, b, checks)
    ensures Apply(a, checks) == Apply(b, checks)
    decreases |checks|
  {
    hide ApplyOne;
    if checks == [] {
      assert a == b;
    } else {
      SameCheckOutcome(a, b, checks);
      if ApplyOne(a, checks[0]).Ok? {
        SameApply(ApplyOne(a, checks[0]).value, ApplyOne(b, checks[0]).value, checks[1..]);
      }
    }
  }

  /** Identities that differ only in the letter case of their digests. */
  ghost predicate SameIdentity(v: Value, w: Value) {
    v == w ||
    (v.Object? && w.Object? && "ecosystem" in v.members && v.members["ecosystem"].String? &&
     SameFields(v.members, w.members, ChecksFor(v.members["ecosystem"].text)))
  }

  lemma SameIdentityNormalizes(v: Value, w: Value)
    requires SameIdentity(v, w)
    ensures NormalizeIdentity(v) == NormalizeIdentity(w)
  {
    hide Apply, ChecksFor, FieldsFor, KeyOf, KnownEcosystem;
    if v != w {
      var e := v.members["ecosystem"].text;
      EcosystemUnchecked(e);
      SameApply(v.members, w.members, ChecksFor(e));
      assert w.members["ecosystem"] == v.members["ecosystem"];
    }
  }

  // ---------- Ordering dependencies ----------

  predicate KeyAtMost(a: Keyed, b: Keyed) {
    CompareKeys(a.key, b.key) != Greater
  }

  // The stable sort by identity key.
  function SortByKey(deps: seq<Keyed>): seq<Keyed> {
    StableSort.Sort(deps, KeyAtMost)
  }

  ghost predicate Nondecreasing(deps: seq<Keyed>) {
    forall i, j | 0 <= i < j < |deps| :: CompareKeys(deps[i].key, deps[j].key) != Greater
  }

  ghost predicate StrictlyIncreasing(deps: seq<Keyed>) {
    forall i, j | 0 <= i < j < |deps| :: CompareKeys(deps[i].key, deps[j].key) == Less
  }

  lemma KeysAreOrdered()
    ensures StableSort.TotalPreorder(KeyAtMost)
  {
    hide CompareKeys;
    forall a: Keyed, b: Keyed, c: Keyed
      ensures (KeyAtMost(a, b) || KeyAtMost(b, a)) && (KeyAtMost(a, b) && KeyAtMost(b, c) ==> KeyAtMost(a, c))
    {
      KeyOrder(a.key, b.key, c.key);
      KeyOrder(b.key, c.key, a.key);
      KeyOrder(a.key, c.key, b.key);
    }
  }

  lemma SortSorts(deps: seq<Keyed>)
    ensures Nondecreasing(SortByKey(deps)) && multiset(SortByKey(deps)) == multiset(deps)
  {
    hide CompareKeys;
    KeysAreOrdered();
    StableSort.SortSorts(deps, KeyAtMost);
    var sorted := SortByKey(deps);
    forall i, j | 0 <= i < j < |sorted| ensures CompareKeys(sorted[i].key, sorted[j].key) != Greater {
      assert KeyAtMost(sorted[i], sorted[j]);
    }
  }

  predicate AdjacentRepeat(deps: seq<Keyed>) {
    exists i :: 0 <= i < |deps| - 1 && CompareKeys(deps[i].key, deps[i + 1].key) == Equal
  }

  /** A sorted list without equal neighbours is strictly increasing. */
  lemma NoRepeatIsStrict(deps: seq<Keyed>)
    requires Nondecreasing(deps)
    ensures !AdjacentRepeat(deps) <==> StrictlyIncreasing(deps)
  {
    hide CompareKeys;
    if !AdjacentRepeat(deps) {
      forall i, j | 0 <= i < j < |deps| ensures CompareKeys(deps[i].key, deps[j].key) == Less {
        StrictFrom(deps, i, j);
      }
    }
  }

  lemma {:induction false} StrictFrom(deps: seq<Keyed>, i: nat, j: nat)
    requires Nondecreasing(deps) && !AdjacentRepeat(deps) && i < j < |deps|
    ensures CompareKeys(deps[i].key, deps[j].key) == Less
    decreases j - i
  {
    hide CompareKeys;
    var k := j - 1;
    assert CompareKeys(deps[k].key, deps[k + 1].key) != Equal;
    if i < k {
      StrictFrom(deps, i, k);
      KeyOrder(deps[i].key, deps[k].key, deps[j].key);
    }
  }

  lemma HeadsAgree(a: seq<Keyed>, b: seq<Keyed>)
    requires StrictlyIncreasing(a) && StrictlyIncreasing(b) && multiset(a) == multiset(b) && a != [] && b != []
    ensures a[0] == b[0]
  {
    hide CompareKeys;
    var x, y := a[0], b[0];
    assert x in multiset(b) && y in multiset(a);
    var j :| 0 <= j < |b| && b[j] == x;
    var i :| 0 <= i < |a| && a[i] == y;
    KeyOrder(x.key, y.key, x.key);
  }

  lemma TailStrict(a: seq<Keyed>)
    requires StrictlyIncreasing(a) && a != []
    ensures StrictlyIncreasing(a[1..]) && multiset(a[1..]) == multiset(a) - multiset{a[0]}
  {
    hide CompareKeys;
    assert a == [a[0]] + a[1..];
  }

  /** There is one strictly increasing order of a collection of dependencies. */
  lemma {:induction false} StrictUnique(a: seq<Keyed>, b: seq<Keyed>)
    requires StrictlyIncreasing(a) && StrictlyIncreasing(b) && multiset(a) == multiset(b)
    ensures a == b
    decreases |a|
  {
    assert |multiset(a)| == |a| && |multiset(b)| == |b|;
    hide StrictlyIncreasing;
    if a != [] {
      HeadsAgree(a, b);
      TailStrict(a);
      TailStrict(b);
      StrictUnique(a[1..], b[1..]);
      assert a == [a[0]] + a[1..] && b == [b[0]] + b[1..];
    }
  }

  // ---------- Normalizing all dependencies ----------

  function NormalizeAll(items: seq<Value>): Result<seq<Keyed>, ClosureError>
    decreases |items|
  {
    if items == [] then Ok([])
    else
      var front := NormalizeAll(items[..|items| - 1]);
      if front.Err? then front
      else
        var last := NormalizeIdentity(items[|items| - 1]);
        if last.Err? then Err(last.error) else Ok(front.value + [last.value])
  }

  lemma {:induction false} NormalizeAllEach(items: seq<Value>)
    ensures NormalizeAll(items).Ok? <==> forall i | 0 <= i < |items| :: NormalizeIdentity(items[i]).Ok?
    ensures NormalizeAll(items).Ok? ==> |NormalizeAll(items).value| == |items|
    ensures NormalizeAll(items).Ok? ==>
      forall i | 0 <= i < |items| :: NormalizeAll(items).value[i] == NormalizeIdentity(items[i]).value
    decreases |items|
  {
    hide NormalizeIdentity;
    if items != [] {
      var n := |items| - 1;
      NormalizeAllEach(items[..n]);
      assert forall i | 0 <= i < n :: items[..n][i] == items[i];
    }
  }

  // Where the last item of a stands in its permutation b, and b without it.
  lemma MatchLast(a: seq<Value>, b: seq<Value>) returns (j: nat, rest: seq<Value>)
    requires multiset(a) == multiset(b) && a != []
    ensures j < |b| && b[j] == a[|a| - 1] && rest == b[..j] + b[j + 1..]
    ensures multiset(a[..|a| - 1]) == multiset(rest)
  {
    var n := |a| - 1;
    assert a == a[..n] + [a[n]];
    assert a[n] in multiset(b);
    j :| 0 <= j < |b| && b[j] == a[n];
    rest := b[..j] + b[j + 1..];
    assert b == b[..j] + [b[j]] + b[j + 1..];
    assert multiset(rest) == multiset(b) - multiset{b[j]} && multiset(a[..n]) == multiset(a) - multiset{a[n]};
  }

  /** Permuted dependencies normalize to permuted results. */
  lemma {:induction false} NormalizeAllPermuted(a: seq<Value>, b: seq<Value>)
    requires multiset(a) == multiset(b) && NormalizeAll(a).Ok?
    ensures NormalizeAll(b).Ok? && multiset(NormalizeAll(b).value) == multiset(NormalizeAll(a).value)
    decreases |a|
  {
    hide NormalizeIdentity;
    assert |multiset(a)| == |a| && |multiset(b)| == |b|;
    if a != [] {
      var n := |a| - 1;
      var j, rest := MatchLast(a, b);
      NormalizeAllPermuted(a[..n], rest);
      NormalizeAllInsert(b, j);
    }
  }

  lemma NormalizeAllInsert(b: seq<Value>, j: nat)
    requires j < |b| && NormalizeAll(b[..j] + b[j + 1..]).Ok? && NormalizeIdentity(b[j]).Ok?
    ensures NormalizeAll(b).Ok?
    ensures multiset(NormalizeAll(b).value) ==
      multiset(NormalizeAll(b[..j] + b[j + 1..]).value) + multiset{NormalizeIdentity(b[j]).value}
  {
    hide NormalizeIdentity, NormalizeAll;
    var rest := b[..j] + b[j + 1..];
    NormalizeAllEach(rest);
    NormalizeAllEach(b);
    forall i | 0 <= i < |b| ensures NormalizeIdentity(b[i]).Ok? {
      if i < j { assert rest[i] == b[i]; }
      if i > j { assert rest[i - 1] == b[i]; }
    }
    var out, outRest := NormalizeAll(b).value, NormalizeAll(rest).value;
    forall i | 0 <= i < |rest| ensures outRest[i] == (out[..j] + out[j + 1..])[i] {
      assert rest[i] == if i < j then b[i] else b[i + 1];
    }
    assert outRest == out[..j] + out[j + 1..];
    DropOne(out, j);
  }

  lemma DropOne(s: seq<Keyed>, j: nat)
    requires j < |s|
    ensures multiset(s) == multiset(s[..j] + s[j + 1..]) + multiset{s[j]}
  {
    assert s == s[..j] + [s[j]] + s[j + 1..];
  }

  // ---------- The whole closure ----------

  // A checked closure: its top-level members with digests lowered, its root and its ordered dependencies.
  datatype Closure = Closure(members: Members, root: Keyed, dependencies: seq<Keyed>)

  function Values(deps: seq<Keyed>): seq<Value> {
    seq(|deps|, i requires 0 <= i < |deps| => deps[i].value)
  }

  function Assemble(c: Closure): Members {
    c.members["root" := c.root.value]["dependencies" := Array(Values(c.dependencies))]
  }

  predicate RepeatsRoot(root: Keyed, deps: seq<Keyed>) {
    exists i :: 0 <= i < |deps| && CompareKeys(deps[i].key, root.key) == Equal
  }

  function OrderDependencies(root: Keyed, deps: seq<Keyed>): Result<seq<Keyed>, ClosureError> {
    var sorted := SortByKey(deps);
    if AdjacentRepeat(sorted) then Err(DuplicateDependency)
    else if RepeatsRoot(root, sorted) then Err(RootRepeated)
    else Ok(sorted)
  }

  // From the top-level members on: root, then dependencies.
  function NormalizeParts(m: Members): Result<Closure, ClosureError>
    requires "root" in m && "dependencies" in m
  {
    var root := NormalizeIdentity(m["root"]);
    if root.Err? then Err(root.error)
    else if !m["dependencies"].Array? then Err(DependenciesNotArray)
    else if |m["dependencies"].items| > MAX_DEPENDENCIES then Err(TooManyDependencies(|m["dependencies"].items|))
    else
      var deps := NormalizeAll(m["dependencies"].items);
      if deps.Err? then Err(deps.error)
      else
        var ordered := OrderDependencies(root.value, deps.value);
        if ordered.Err? then Err(ordered.error) else Ok(Closure(m, root.value, ordered.value))
  }

  function CheckTop(v: Value): Result<Members, ClosureError> {
    if !v.Object? then Err(NotObject)
    else if v.members.Keys != TopLevelFields then Err(InvalidTopLevelShape)
    else
      var format := StringField(v.members, "format");
      if format.Err? then Err(format.error)
      else if format.value != FORMAT_V1 then Err(InvalidFormat)
      else Apply(v.members, TopChecks)
  }

  lemma CheckTopKeeps(v: Value)
    requires CheckTop(v).Ok?
    ensures var m := CheckTop(v).value;
      && m.Keys == TopLevelFields && "root" in m && "dependencies" in m && "format" in m && "closure_digest" in m
      && m["root"] == v.members["root"] && m["dependencies"] == v.members["dependencies"] && m["format"] == v.members["format"]
      && (forall c | c in TopChecks :: Settled(m, c))
  {
    hide Settled, Lower, IsDigest;
    ApplySettles(v.members, TopChecks);
    TopChecksAre();
  }

  lemma TopChecksAre()
    ensures Check("root", true) !in TopChecks && Check("dependencies", true) !in TopChecks && Check("format", true) !in TopChecks
    ensures Check("closure_digest", true) in TopChecks
  {
    assert TopChecks[1] == Check("closure_digest", true);
  }

  /** The normalized closure, or the reason it is refused (`normalize_semantics`). */
  function Normalize(v: Value): Result<Closure, ClosureError> {
    var top := CheckTop(v);
    if top.Err? then Err(top.error)
    else
      CheckTopKeeps(v);
      NormalizeParts(top.value)
  }

  /** A hash prints as 64 lower-case hexadecimal digits. */
  ghost predicate PrintsDigests(hash: string -> string) {
    forall s: string :: IsDigest(hash(s)) && Lower(hash(s)) == hash(s)
  }

  function Preimage(m: Members): Value {
    Object(m - {"closure_digest"})
  }

  ghost function DigestOf(hash: string -> string, c: Closure): string
    requires Supported(Preimage(Assemble(c)))
  {
    hash(Text(Preimage(Assemble(c))))
  }

  datatype Evidence = Evidence(normalized: Value, closureDigest: string)

  ghost function Recompute(hash: string -> string, v: Value): Result<Evidence, ClosureError> {
    var r := Normalize(v);
    if r.Err? then Err(r.error)
    else if !Supported(Preimage(Assemble(r.value))) then Err(UnsupportedCanonicalValue)
    else
      var d := DigestOf(hash, r.value);
      Ok(Evidence(Object(Assemble(r.value)["closure_digest" := String(d)]), d))
  }

  ghost function Verify(hash: string -> string, v: Value): Result<Evidence, ClosureError> {
    var r := Normalize(v);
    if r.Err? then Err(r.error)
    else if !Supported(Preimage(Assemble(r.value))) then Err(UnsupportedCanonicalValue)
    else
      var d, supplied := DigestOf(hash, r.value), TextAt(r.value.members, "closure_digest");
      if supplied != d then Err(DigestMismatch(supplied, d))
      else Ok(Evidence(Object(Assemble(r.value)["closure_digest" := String(d)]), d))
  }

  // ---------- Order independence ----------

  /** Accepted dependencies may come in any order. */
  lemma OrderDependenciesPermuted(root: Keyed, a: seq<Keyed>, b: seq<Keyed>)
    requires multiset(a) == multiset(b) && OrderDependencies(root, a).Ok?
    ensures OrderDependencies(root, b) == OrderDependencies(root, a)
  {
    hide CompareKeys, SortByKey;
    var s, t := SortByKey(a), SortByKey(b);
    SortSorts(a);
    SortSorts(b);
    NoRepeatIsStrict(s);
    NoRepeatIsStrict(t);
    SameMultisetStrict(s, t);
    StrictUnique(s, t);
  }

  lemma SameMultisetStrict(s: seq<Keyed>, t: seq<Keyed>)
    requires StrictlyIncreasing(s) && Nondecreasing(t) && multiset(s) == multiset(t)
    ensures StrictlyIncreasing(t)
  {
    hide CompareKeys;
    forall i, j | 0 <= i < j < |t| ensures CompareKeys(t[i].key, t[j].key) == Less {
      if CompareKeys(t[i].key, t[j].key) == Equal {
        KeyOrder(t[i].key, t[j].key, t[i].key);
        EqualKeysClash(s, t, i, j);
      }
    }
  }

  lemma EqualKeysClash(s: seq<Keyed>, t: seq<Keyed>, i: nat, j: nat)
    requires StrictlyIncreasing(s) && multiset(s) == multiset(t) && i < j < |t|
    ensures t[i].key != t[j].key
  {
    hide CompareKeys;
    assert t[i] in multiset(s) && t[j] in multiset(s);
    var x :| 0 <= x < |s| && s[x] == t[i];
    var y :| 0 <= y < |s| && s[y] == t[j];
    KeyOrder(s[x].key, s[y].key, s[x].key);
    if x == y {
      TwiceMeansTwo(t, i, j);
      OnceInStrict(s, x);
    }
  }

  lemma TwiceMeansTwo(t: seq<Keyed>, i: nat, j: nat)
    requires i < j < |t| && t[i] == t[j]
    ensures multiset(t)[t[i]] >= 2
  {
    assert t == t[..j] + [t[j]] + t[j + 1..];
    assert t[..j][i] == t[i];
    assert multiset(t) == multiset(t[..j]) + multiset{t[j]} + multiset(t[j + 1..]);
  }

  lemma OnceInStrict(s: seq<Keyed>, x: nat)
    requires StrictlyIncreasing(s) && x < |s|
    ensures multiset(s)[s[x]] == 1
  {
    hide CompareKeys;
    assert s == s[..x] + [s[x]] + s[x + 1..];
    assert multiset(s) == multiset(s[..x]) + multiset{s[x]} + multiset(s[x + 1..]);
    KeyOrder(s[x].key, s[x].key, s[x].key);
    assert s[x] !in s[..x] && s[x] !in s[x + 1..];
  }

  // ---------- What a normalized closure is ----------

  ghost predicate Stable(k: Keyed) {
    NormalizeIdentity(k.value) == Ok(k) && Supported(k.value)
  }

  ghost predicate TopSettled(m: Members) {
    && m.Keys == TopLevelFields
    && (forall c | c in TopChecks :: Settled(m, c))
    && "format" in m && m["format"] == String(FORMAT_V1)
  }

  /** Lower-case digests, a stable root, and stable dependencies that increase strictly and exclude it. */
  ghost predicate Sound(c: Closure) {
    && TopSettled(c.members)
    && Stable(c.root)
    && |c.dependencies| <= MAX_DEPENDENCIES
    && (forall i | 0 <= i < |c.dependencies| :: Stable(c.dependencies[i]))
    && StrictlyIncreasing(c.dependencies)
    && !RepeatsRoot(c.root, c.dependencies)
  }

  lemma NormalizedStable(items: seq<Value>, k: Keyed)
    requires NormalizeAll(items).Ok? && k in NormalizeAll(items).value
    ensures Stable(k)
  {
    NormalizeAllEach(items);
    hide NormalizeIdentity, NormalizeAll, Supported;
    var i :| 0 <= i < |items| && NormalizeAll(items).value[i] == k;
    IdentityStable(items[i]);
  }

  /** Every accepted closure is sound. */
  lemma NormalizeSound(v: Value)
    requires Normalize(v).Ok?
    ensures Sound(Normalize(v).value)
  {
    hide NormalizeIdentity, NormalizeAll, Supported, SortByKey, CompareKeys, CheckTop, Settled, AdjacentRepeat;
    var m := CheckTop(v).value;
    CheckTopKeeps(v);
    FormatChecked(v);
    IdentityStable(m["root"]);
    var deps := NormalizeAll(m["dependencies"].items).value;
    NormalizeAllEach(m["dependencies"].items);
    var sorted := SortByKey(deps);
    SortSorts(deps);
    NoRepeatIsStrict(sorted);
    assert |multiset(sorted)| == |multiset(deps)|;
    forall i | 0 <= i < |sorted| ensures Stable(sorted[i]) {
      assert sorted[i] in multiset(deps);
      NormalizedStable(m["dependencies"].items, sorted[i]);
    }
  }

  lemma FormatChecked(v: Value)
    requires CheckTop(v).Ok?
    ensures "format" in v.members && v.members["format"] == String(FORMAT_V1)
  {
    hide Apply;
  }

  lemma TopFieldsChecked()
    ensures TopLevelFields == CheckedFields(TopChecks) + {"format", "root", "dependencies"}
  {
    var c := TopChecks;
    assert c[0] == Check("dependency_lock_digest", true) && c[1] == Check("closure_digest", true);
    assert c[2] == Check("resolver_id", false) && c[3] == Check("resolver_version", false);
  }

  lemma AssembleFields(c: Closure)
    requires TopSettled(c.members)
    ensures Assemble(c).Keys == TopLevelFields
    ensures "root" in Assemble(c) && Assemble(c)["root"] == c.root.value
    ensures "dependencies" in Assemble(c) && Assemble(c)["dependencies"] == Array(Values(c.dependencies))
    ensures forall f | f in c.members && f != "root" && f != "dependencies" :: Assemble(c)[f] == c.members[f]
  {
    TopFieldsChecked();
    hide Values, CheckedFields, Settled;
  }

  lemma ValuesSupported(deps: seq<Keyed>)
    requires forall i | 0 <= i < |deps| :: Stable(deps[i])
    ensures Supported(Array(Values(deps)))
  {
  }

  lemma CheckedFieldIsText(m: Members, f: string)
    requires TopSettled(m) && f in CheckedFields(TopChecks)
    ensures f in m && m[f].String?
  {
    hide TopLevelFields, Lower, IsDigest;
    var k :| k in TopChecks && k.field == f;
    assert Settled(m, k);
  }

  /** Only strings, arrays and objects remain, so the digest of an accepted closure always exists. */
  lemma SoundIsSupported(c: Closure)
    requires Sound(c)
    ensures Supported(Preimage(Assemble(c)))
  {
    AssembleFields(c);
    ValuesSupported(c.dependencies);
    assert Supported(c.root.value) by { hide TopSettled; }
    var m := Assemble(c);
    forall f | f in m && f != "closure_digest" ensures Supported(m[f]) {
      if f != "root" && f != "dependencies" { TopText(c.members, f); }
      hide *;
    }
    hide Values, Sound, Assemble;
  }

  // Beside root and dependencies a settled top level holds only text.
  lemma TopText(m: Members, f: string)
    requires TopSettled(m) && f in m && f != "root" && f != "dependencies"
    ensures Supported(m[f])
  {
    TopFieldsChecked();
    hide CheckedFields, Settled;
    if f != "format" { CheckedFieldIsText(m, f); }
  }

  // ---------- Recomputed evidence verifies ----------

  lemma ValuesNormalize(deps: seq<Keyed>)
    requires forall i | 0 <= i < |deps| :: Stable(deps[i])
    ensures NormalizeAll(Values(deps)) == Ok(deps)
  {
    hide NormalizeAll, NormalizeIdentity, Supported;
    var items := Values(deps);
    forall i | 0 <= i < |items| ensures NormalizeIdentity(items[i]) == Ok(deps[i]) {
      assert Stable(deps[i]);
    }
    NormalizeAllEach(items);
    assert NormalizeAll(items).value == deps;
  }

  lemma SortedAlready(deps: seq<Keyed>)
    requires StrictlyIncreasing(deps)
    ensures SortByKey(deps) == deps && !AdjacentRepeat(deps)
  {
    hide CompareKeys;
    SortSorts(deps);
    SameMultisetStrict(deps, SortByKey(deps));
    StrictUnique(deps, SortByKey(deps));
  }

  // Top-level members as evidence returns them.
  ghost predicate Returned(n: Members, c: Closure) {
    && TopSettled(n)
    && "root" in n && n["root"] == c.root.value
    && "dependencies" in n && n["dependencies"] == Array(Values(c.dependencies))
  }

  lemma ReturnedNormalizes(n: Members, c: Closure)
    requires Sound(c) && Returned(n, c)
    ensures Normalize(Object(n)) == Ok(Closure(n, c.root, c.dependencies))
  {
    hide NormalizeIdentity, NormalizeAll, Supported, SortByKey, StrictlyIncreasing, RepeatsRoot, AdjacentRepeat;
    ApplyFixed(n, TopChecks);
    assert CheckTop(Object(n)) == Ok(n) by { hide Settled, Apply; }
    ValuesNormalize(c.dependencies);
    SortedAlready(c.dependencies);
    assert |Values(c.dependencies)| == |c.dependencies|;
    hide Values, CheckTop, Settled;
    assert NormalizeParts(n) == Ok(Closure(n, c.root, c.dependencies));
  }

  lemma WithDigest(c: Closure, d: string)
    requires TopSettled(c.members)
    ensures var n := Assemble(c)["closure_digest" := String(d)];
      && n.Keys == TopLevelFields
      && "root" in n && n["root"] == c.root.value
      && "dependencies" in n && n["dependencies"] == Array(Values(c.dependencies))
      && forall f | f in c.members && f != "root" && f != "dependencies" && f != "closure_digest" :: n[f] == c.members[f]
  {
    AssembleFields(c);
    NamesApart();
    hide TopSettled, Values, Assemble;
    var n := Assemble(c)["closure_digest" := String(d)];
    assert n.Keys == Assemble(c).Keys + {"closure_digest"};
    assert "root" != "closure_digest" && "dependencies" != "closure_digest";
  }

  lemma SettledWithDigest(m: Members, n: Members, d: string, k: Check)
    requires TopSettled(m) && k in TopChecks && IsDigest(d) && Lower(d) == d
    requires "closure_digest" in n && n["closure_digest"] == String(d) && n.Keys == m.Keys
    requires forall f | f in m && f != "root" && f != "dependencies" && f != "closure_digest" :: n[f] == m[f]
    ensures Settled(n, k)
  {
    hide Lower, IsDigest;
    assert Settled(m, k);
    NamesApart();
    if k.field == "closure_digest" { OnlyDigestCheck(k); }
  }

  lemma EvidenceIsReturned(c: Closure, d: string)
    requires Sound(c) && IsDigest(d) && Lower(d) == d
    ensures var n := Assemble(c)["closure_digest" := String(d)];
      && Returned(n, c)
      && Preimage(n) == Preimage(Assemble(c))
      && TextAt(n, "closure_digest") == d
  {
    hide Values, Lower, IsDigest, Assemble, Stable, StrictlyIncreasing, RepeatsRoot, Settled;
    var n := Assemble(c)["closure_digest" := String(d)];
    WithDigest(c, d);
    NamesApart();
    forall k | k in TopChecks ensures Settled(n, k) {
      SettledWithDigest(c.members, n, d, k);
    }
    assert n - {"closure_digest"} == Assemble(c) - {"closure_digest"};
  }

  lemma NamesApart()
    ensures forall k | k in TopChecks :: k.field != "root" && k.field != "dependencies"
    ensures "closure_digest" in TopLevelFields && "format" != "closure_digest" && "format" != "root" && "format" != "dependencies"
  {
  }

  lemma OnlyDigestCheck(k: Check)
    requires k in TopChecks && k.field == "closure_digest"
    ensures k.isDigest
  {
  }

  lemma AssembleReturned(n: Members, c: Closure)
    requires Returned(n, c)
    ensures Assemble(Closure(n, c.root, c.dependencies)) == n
  {
    hide Values;
    assert n["root" := c.root.value] == n;
    assert n["dependencies" := Array(Values(c.dependencies))] == n;
  }

  /** Verification accepts what recomputation returned, and returns it unchanged. */
  lemma RecomputedVerifies(hash: string -> string, v: Value)
    requires PrintsDigests(hash) && Recompute(hash, v).Ok?
    ensures Verify(hash, Recompute(hash, v).value.normalized) == Recompute(hash, v)
  {
    hide Normalize, Assemble, Supported, Text, IsDigest, Lower, Sound, Returned;
    var c := Normalize(v).value;
    NormalizeSound(v);
    var d := DigestOf(hash, c);
    var n := Assemble(c)["closure_digest" := String(d)];
    EvidenceIsReturned(c, d);
    ReturnedNormalizes(n, c);
    AssembleReturned(n, c);
    assert n["closure_digest" := String(d)] == n;
  }

  /** An accepted closure always has evidence. */
  lemma AcceptedHasEvidence(hash: string -> string, v: Value)
    ensures Recompute(hash, v).Ok? <==> Normalize(v).Ok?
    ensures Recompute(hash, v) != Err(UnsupportedCanonicalValue) || Normalize(v) == Err(UnsupportedCanonicalValue)
  {
    hide Normalize, Assemble, Supported, Text, Sound;
    if Normalize(v).Ok? {
      NormalizeSound(v);
      SoundIsSupported(Normalize(v).value);
    }
  }

  /** The returned dependencies increase strictly by their own keys and none has the root's key. */
  lemma EvidenceOrdered(hash: string -> string, v: Value)
    requires Recompute(hash, v).Ok?
    ensures var c := Normalize(v).value;
      && Sound(c)
      && "dependencies" in Recompute(hash, v).value.normalized.members
      && Recompute(hash, v).value.normalized.members["dependencies"] == Array(Values(c.dependencies))
      && (forall i | 0 <= i < |c.dependencies| ::
           NormalizeIdentity(Values(c.dependencies)[i]) == Ok(c.dependencies[i]) && c.dependencies[i].key != c.root.key)
  {
    hide Normalize, Supported, Text, NormalizeIdentity;
    var c := Normalize(v).value;
    NormalizeSound(v);
    forall i | 0 <= i < |c.dependencies|
      ensures NormalizeIdentity(Values(c.dependencies)[i]) == Ok(c.dependencies[i]) && c.dependencies[i].key != c.root.key
    {
      assert Stable(c.dependencies[i]);
      KeyOrder(c.dependencies[i].key, c.root.key, c.root.key);
    }
    AssembleFields(c);
    NamesApart();
  }

  // ---------- The order of the returned dependencies, read off their members ----------

  // The members by which identities are ordered, the first that differs deciding.
  const OrderingMembers: seq<string> := [
    "ecosystem", "registry_uri", "package_name", "package_version",
    "resolved_revision", "artifact_digest", "source_digest", "outer_checksum" ]

  // The text of a member, and nothing when it is absent.
  function MemberText(v: Value, field: string): string {
    if v.Object? && field in v.members && v.members[field].String? then v.members[field].text else ""
  }

  /** At the first ordering member in which the two identities differ, a has the text that comes first. */
  ghost predicate ComesBefore(a: Value, b: Value) {
    exists k :: 0 <= k < |OrderingMembers|
      && (forall i | 0 <= i < k :: MemberText(a, OrderingMembers[i]) == MemberText(b, OrderingMembers[i]))
      && Before(MemberText(a, OrderingMembers[k]), MemberText(b, OrderingMembers[k]))
  }

  ghost predicate DifferInMember(a: Value, b: Value) {
    exists k :: 0 <= k < |OrderingMembers| && MemberText(a, OrderingMembers[k]) != MemberText(b, OrderingMembers[k])
  }

  lemma {:induction false} FirstDifferenceAt(a: seq<string>, b: seq<string>) returns (k: nat)
    requires |a| == |b| && FirstDifference(a, b) == Less
    ensures k < |a| && a[..k] == b[..k] && Before(a[k], b[k])
  {
    hide Compare;
    if Compare(a[0], b[0]) != Equal {
      k := 0;
    } else {
      TotalOrder(a[0], b[0], a[0]);
      var rest := FirstDifferenceAt(a[1..], b[1..]);
      k := rest + 1;
      assert a[..k] == [a[0]] + a[1..][..rest] && b[..k] == [b[0]] + b[1..][..rest];
    }
  }

  lemma MembersOf(k: Keyed)
    requires Stable(k)
    ensures k.value.Object? && k.key == KeyOf(k.value.members)
    ensures k.key.ecosystem != "hex" ==> "registry_uri" !in k.value.members && "outer_checksum" !in k.value.members
  {
    hide Apply, ChecksFor, KnownEcosystem, Supported;
    ApplySettles(k.value.members, ChecksFor(k.value.members["ecosystem"].text));
  }

  lemma FieldsAreMembers(k: Keyed)
    requires Stable(k)
    ensures |Fields(k.key)| == |OrderingMembers|
    ensures forall i | 0 <= i < |OrderingMembers| :: Fields(k.key)[i] == MemberText(k.value, OrderingMembers[i])
  {
    MembersOf(k);
    hide Stable;
    var f := Fields(k.key);
    assert OrderingMembers[0] == "ecosystem" && OrderingMembers[1] == "registry_uri" && OrderingMembers[2] == "package_name";
    assert OrderingMembers[3] == "package_version" && OrderingMembers[4] == "resolved_revision";
    assert OrderingMembers[5] == "artifact_digest" && OrderingMembers[6] == "source_digest" && OrderingMembers[7] == "outer_checksum";
  }

  lemma KeysComeBefore(a: Keyed, b: Keyed)
    requires Stable(a) && Stable(b) && CompareKeys(a.key, b.key) == Less
    ensures ComesBefore(a.value, b.value)
  {
    FieldsAreMembers(a);
    FieldsAreMembers(b);
    var x, y := Fields(a.key), Fields(b.key);
    var k := FirstDifferenceAt(x, y);
    hide Stable, Fields, Before;
    forall i | 0 <= i < k ensures MemberText(a.value, OrderingMembers[i]) == MemberText(b.value, OrderingMembers[i]) {
      assert x[i] == x[..k][i] == y[..k][i] == y[i];
    }
  }

  /** Each returned dependency comes before every later one, and differs from the root in some ordering member. */
  lemma EvidenceAscends(hash: string -> string, v: Value)
    requires Recompute(hash, v).Ok?
    ensures Recompute(hash, v).value.normalized.Object?
    ensures var m := Recompute(hash, v).value.normalized.members;
      && "dependencies" in m && m["dependencies"].Array? && "root" in m
      && (forall i, j | 0 <= i < j < |m["dependencies"].items| :: ComesBefore(m["dependencies"].items[i], m["dependencies"].items[j]))
      && (forall i | 0 <= i < |m["dependencies"].items| :: DifferInMember(m["dependencies"].items[i], m["root"]))
  {
    EvidenceOrdered(hash, v);
    var c := Normalize(v).value;
    var m := Recompute(hash, v).value.normalized.members;
    var items := Values(c.dependencies);
    assert m["root"] == c.root.value by { hide Normalize, Stable, Values; AssembleFields(c); NamesApart(); }
    hide Recompute, Normalize, Stable, CompareKeys, Fields, MemberText, ComesBefore;
    forall i, j | 0 <= i < j < |items| ensures ComesBefore(items[i], items[j]) {
      KeysComeBefore(c.dependencies[i], c.dependencies[j]);
    }
    hide DifferInMember;
    forall i | 0 <= i < |items| ensures DifferInMember(items[i], c.root.value) {
      KeysDiffer(c.dependencies[i], c.root);
    }
  }

  lemma KeysDiffer(a: Keyed, b: Keyed)
    requires Stable(a) && Stable(b) && a.key != b.key
    ensures DifferInMember(a.value, b.value)
  {
    FieldsAreMembers(a);
    FieldsAreMembers(b);
    KeyOrder(a.key, b.key, a.key);
    var x, y := Fields(a.key), Fields(b.key);
    FirstDifferenceOrders(x, y, x);
    hide Stable, Fields, MemberText;
    assert x != y;
  }

  /** Unless the hash collides on the two canonical texts, digests agree exactly when the evidence does. */
  lemma DigestBindsEvidence(hash: string -> string, v: Value, w: Value)
    requires Recompute(hash, v).Ok? && Recompute(hash, w).Ok?
    requires var a, b := Preimage(Assemble(Normalize(v).value)), Preimage(Assemble(Normalize(w).value));
      hash(Text(a)) == hash(Text(b)) ==> Text(a) == Text(b)
    ensures Recompute(hash, v).value.closureDigest == Recompute(hash, w).value.closureDigest <==>
      Recompute(hash, v) == Recompute(hash, w)
  {
    hide Normalize, Assemble, Supported, Text;
    var a, b := Assemble(Normalize(v).value), Assemble(Normalize(w).value);
    JsonReader.TextInjective(Preimage(a), Preimage(b));
    if Preimage(a) == Preimage(b) {
      var d := DigestOf(hash, Normalize(v).value);
      SamePreimage(a, b, String(d));
    }
  }

  lemma SamePreimage(a: Members, b: Members, d: Value)
    requires a - {"closure_digest"} == b - {"closure_digest"}
    ensures a["closure_digest" := d] == b["closure_digest" := d]
  {
    var x, y := a["closure_digest" := d], b["closure_digest" := d];
    forall f ensures f in x <==> f in y {
      assert f != "closure_digest" ==> (f in a <==> f in a - {"closure_digest"}) && (f in b <==> f in b - {"closure_digest"});
    }
    forall f | f in x ensures x[f] == y[f] {
      if f != "closure_digest" {
        assert (a - {"closure_digest"})[f] == a[f] && (b - {"closure_digest"})[f] == b[f];
      }
    }
  }

  // ---------- Order and letter case do not matter ----------

  function WithParts(m: Members, root: Value, dependencies: Value): Members {
    m["root" := root]["dependencies" := dependencies]
  }

  /** The same closure, once its dependencies are put in the order `permuted`, up to the letter case of digests. */
  ghost predicate SameClosure(v: Value, w: Value, permuted: seq<Value>) {
    && v.Object? && w.Object?
    && "root" in v.members && "root" in w.members && SameIdentity(v.members["root"], w.members["root"])
    && "dependencies" in v.members && v.members["dependencies"].Array?
    && "dependencies" in w.members && w.members["dependencies"].Array?
    && multiset(permuted) == multiset(v.members["dependencies"].items)
    && SameItems(permuted, w.members["dependencies"].items)
    && SameFields(WithParts(v.members, w.members["root"], w.members["dependencies"]), w.members, TopChecks)
  }

  ghost predicate SameItems(a: seq<Value>, b: seq<Value>) {
    |a| == |b| && forall i | 0 <= i < |a| :: SameIdentity(a[i], b[i])
  }

  lemma {:induction false} SameItemsNormalize(a: seq<Value>, b: seq<Value>)
    requires SameItems(a, b)
    ensures NormalizeAll(a) == NormalizeAll(b)
    decreases |a|
  {
    hide NormalizeIdentity, SameIdentity;
    if a != [] {
      var n := |a| - 1;
      SameItemsNormalize(a[..n], b[..n]);
      SameIdentityNormalizes(a[n], b[n]);
    }
  }

  // Checking fields neither reads nor writes the others.
  lemma {:induction false} ApplyFrame(m: Members, checks: seq<Check>, f: string, x: Value)
    requires f in m && f !in CheckedFields(checks)
    ensures Apply(m[f := x], checks) ==
      (var r := Apply(m, checks); if r.Ok? then Ok(r.value[f := x]) else r)
    decreases |checks|
  {
    hide Lower, IsDigest;
    if checks != [] {
      var c := checks[0];
      assert c in checks;
      assert c.field != f && CheckedFields(checks[1..]) <= CheckedFields(checks);
      var r := ApplyOne(m, c);
      if r.Ok? {
        var m1 := r.value;
        assert m1.Keys == m.Keys;
        assert ApplyOne(m[f := x], c) == Ok(m1[f := x]) by {
          if c.isDigest {
            var d := String(DigestField(m, c.field).value);
            assert m[f := x][c.field := d] == m[c.field := d][f := x];
          }
        }
        ApplyFrame(m1, checks[1..], f, x);
      }
    }
  }

  lemma PartsUnchecked()
    ensures "root" !in CheckedFields(TopChecks) && "dependencies" !in CheckedFields(TopChecks)
  {
    NamesApart();
  }

  lemma CheckTopSame(v: Value, w: Value, permuted: seq<Value>)
    requires SameClosure(v, w, permuted) && CheckTop(v).Ok?
    ensures CheckTop(w) == Ok(WithParts(CheckTop(v).value, w.members["root"], w.members["dependencies"]))
  {
    CheckTopKeeps(v);
    hide Apply, SameIdentity, SameItems, Settled, CheckedFields, Lower;
    var root, deps := w.members["root"], w.members["dependencies"];
    PartsUnchecked();
    NamesApart();
    ApplyFrame(v.members, TopChecks, "root", root);
    ApplyFrame(v.members["root" := root], TopChecks, "dependencies", deps);
    SameApply(WithParts(v.members, root, deps), w.members, TopChecks);
    EcosystemApart();
    assert w.members.Keys == v.members.Keys;
    assert w.members["format"] == v.members["format"];
  }

  lemma EcosystemApart()
    ensures Check("format", true) !in TopChecks && "format" != "root" && "format" != "dependencies"
  {
  }

  lemma PartsSame(m: Members, root: Value, deps: seq<Value>, permuted: seq<Value>)
    requires "root" in m && "dependencies" in m && NormalizeParts(m).Ok?
    requires SameIdentity(m["root"], root) && SameItems(permuted, deps)
    requires m["dependencies"].Array? && multiset(permuted) == multiset(m["dependencies"].items)
    ensures var c := NormalizeParts(m).value;
      NormalizeParts(WithParts(m, root, Array(deps))) == Ok(Closure(WithParts(m, root, Array(deps)), c.root, c.dependencies))
  {
    hide NormalizeIdentity, NormalizeAll, SameIdentity, OrderDependencies;
    var items := m["dependencies"].items;
    SameIdentityNormalizes(m["root"], root);
    SameItemsNormalize(permuted, deps);
    assert |multiset(permuted)| == |multiset(items)|;
    NormalizeAllPermuted(items, permuted);
    OrderDependenciesPermuted(NormalizeIdentity(root).value, NormalizeAll(items).value, NormalizeAll(deps).value);
    assert WithParts(m, root, Array(deps))["root"] == root;
  }

  /**
   * Permuting the dependencies or changing the letter case of digests in an accepted closure changes
   * neither its normalized evidence nor its digest.
   */
  lemma OrderAndCaseDoNotMatter(hash: string -> string, v: Value, w: Value, permuted: seq<Value>)
    requires SameClosure(v, w, permuted) && Recompute(hash, v).Ok?
    ensures Recompute(hash, w) == Recompute(hash, v)
  {
    CheckTopSame(v, w, permuted);
    CheckTopKeeps(v);
    CheckTopKeeps(w);
    hide CheckTop, NormalizeParts, Supported, Text, SameIdentity, SameItems, SameFields, Settled, Values;
    var m, root, deps := CheckTop(v).value, w.members["root"], w.members["dependencies"];
    PartsSame(m, root, deps.items, permuted);
    var c := NormalizeParts(m).value;
    PartsKeepMembers(m);
    AssembleSame(c, root, deps);
  }

  lemma PartsKeepMembers(m: Members)
    requires "root" in m && "dependencies" in m && NormalizeParts(m).Ok?
    ensures NormalizeParts(m).value.members == m
  {
    hide NormalizeIdentity, NormalizeAll, OrderDependencies;
  }

  lemma AssembleSame(c: Closure, root: Value, deps: Value)
    ensures Assemble(c.(members := WithParts(c.members, root, deps))) == Assemble(c)
  {
    hide Values;
    var d := c.(members := WithParts(c.members, root, deps));
    assert Assemble(d).Keys == Assemble(c).Keys;
  }

  lemma SameFieldsOfItself(m: Members, checks: seq<Check>)
    ensures SameFields(m, m, checks)
  {
  }

  /** A closure is accepted in any order of its dependencies or in none, always with the same evidence. */
  lemma OrderDoesNotMatter(hash: string -> string, v: Value, w: Value)
    requires v.Object? && "dependencies" in v.members && v.members["dependencies"].Array? && "root" in v.members
    requires w.Object? && "dependencies" in w.members && w.members["dependencies"].Array?
    requires w.members == v.members["dependencies" := w.members["dependencies"]]
    requires multiset(v.members["dependencies"].items) == multiset(w.members["dependencies"].items)
    ensures Recompute(hash, v).Ok? <==> Recompute(hash, w).Ok?
    ensures Recompute(hash, v).Ok? ==> Recompute(hash, v) == Recompute(hash, w)
  {
    hide Recompute, SameFields;
    NamesApart();
    SameFieldsOfItself(v.members, TopChecks);
    SameFieldsOfItself(w.members, TopChecks);
    assert WithParts(v.members, w.members["root"], w.members["dependencies"]) == w.members;
    assert WithParts(w.members, v.members["root"], v.members["dependencies"]) == v.members;
    if Recompute(hash, v).Ok? { OrderAndCaseDoNotMatter(hash, v, w, w.members["dependencies"].items); }
    if Recompute(hash, w).Ok? { OrderAndCaseDoNotMatter(hash, w, v, v.members["dependencies"].items); }
  }

  /** An accepted closure holds no two dependencies with one key, wherever they stand in the input. */
  lemma AcceptedKeysDiffer(v: Value, i: nat, j: nat)
    requires Normalize(v).Ok? && "dependencies" in v.members && v.members["dependencies"].Array?
    requires var items := v.members["dependencies"].items; i < j < |items|
    ensures var items := v.members["dependencies"].items;
      NormalizeIdentity(items[i]).Ok? && NormalizeIdentity(items[j]).Ok? &&
      NormalizeIdentity(items[i]).value.key != NormalizeIdentity(items[j]).value.key
  {
    CheckTopKeeps(v);
    hide NormalizeIdentity, NormalizeAll, CheckTop, Settled, CompareKeys, SortByKey, AdjacentRepeat;
    var items := v.members["dependencies"].items;
    NormalizeAllEach(items);
    var deps := NormalizeAll(items).value;
    SortSorts(deps);
    NoRepeatIsStrict(SortByKey(deps));
    EqualKeysClash(SortByKey(deps), deps, i, j);
  }

  /** The sort key leaves out `source_uri`: identities that differ only there have one key. */
  lemma SourceUriNotInKey(m: Members, uri: string)
    requires NormalizeIdentity(Object(m)).Ok? && uri != ""
    ensures var n := NormalizeIdentity(Object(m["source_uri" := String(uri)]));
      n.Ok? && n.value.key == NormalizeIdentity(Object(m)).value.key
  {
    hide Lower, IsDigest, Settled, KnownEcosystem;
    var e := m["ecosystem"].text;
    var checks := ChecksFor(e);
    var m2 := m["source_uri" := String(uri)];
    assert "ecosystem" != "source_uri" && "source_uri" in FieldsFor(e);
    assert m2.Keys == m.Keys;
    SourceUriFrame(m, checks, uri);
    KeyIgnoresSourceUri(Apply(m, checks).value, uri);
  }

  lemma KeyIgnoresSourceUri(m: Members, uri: string)
    ensures KeyOf(m["source_uri" := String(uri)]) == KeyOf(m)
  {
  }

  lemma {:induction false} SourceUriFrame(m: Members, checks: seq<Check>, uri: string)
    requires Check("source_uri", true) !in checks && uri != "" && "source_uri" in m && Apply(m, checks).Ok?
    ensures Apply(m["source_uri" := String(uri)], checks) == Ok(Apply(m, checks).value["source_uri" := String(uri)])
    decreases |checks|
  {
    hide Lower, IsDigest;
    if checks != [] {
      var c, x := checks[0], String(uri);
      assert c in checks;
      var m1 := ApplyOne(m, c).value;
      assert m1.Keys == m.Keys;
      assert ApplyOne(m["source_uri" := x], c) == Ok(m1["source_uri" := x]) by {
        if c.isDigest {
          var d := String(DigestField(m, c.field).value);
          assert c.field != "source_uri";
          assert m["source_uri" := x][c.field := d] == m[c.field := d]["source_uri" := x];
        }
      }
      SourceUriFrame(m1, checks[1..], uri);
    }
  }

  // ---------- The procedures ----------

  lemma Step(start: Members, m: Members, checks: seq<Check>, k: nat)
    requires k < |checks| && Apply(start, checks) == Apply(m, checks[k..])
    ensures var one := ApplyOne(m, checks[k]);
      Apply(start, checks) == if one.Err? then one else Apply(one.value, checks[k + 1..])
  {
    assert checks[k..][1..] == checks[k + 1..];
  }

  // One text field that must not be empty, and one digest lowered in place.
  method CheckText(start: Members, m: Members, checks: seq<Check>, k: nat) returns (refusal: Option<ClosureError>)
    requires k < |checks| && !checks[k].isDigest && Apply(start, checks) == Apply(m, checks[k..])
    ensures Apply(start, checks) == if refusal.Some? then Err(refusal.value) else Apply(m, checks[k + 1..])
  {
    Step(start, m, checks, k);
    var text := NonEmptyString(m, checks[k].field);
    return if text.Err? then Some(text.error) else None;
  }

  method LowerDigest(start: Members, m: Members, checks: seq<Check>, k: nat) returns (r: Result<Members, ClosureError>)
    requires k < |checks| && checks[k].isDigest && Apply(start, checks) == Apply(m, checks[k..])
    ensures Apply(start, checks) == if r.Err? then r else Apply(r.value, checks[k + 1..])
  {
    Step(start, m, checks, k);
    var digest := DigestField(m, checks[k].field);
    return if digest.Err? then Err(digest.error) else Ok(m[checks[k].field := String(digest.value)]);
  }

  method NormalizeIdentityInPlace(value: Value) returns (r: Result<Keyed, ClosureError>)
    ensures r == NormalizeIdentity(value)
  {
    if !value.Object? { return Err(InvalidIdentityShape); }
    var members := value.members;
    var ecosystem := StringField(members, "ecosystem");
    if ecosystem.Err? { return Err(ecosystem.error); }
    if !KnownEcosystem(ecosystem.value) { return Err(UnsupportedEcosystem); }
    if members.Keys != FieldsFor(ecosystem.value) { return Err(InvalidIdentityShape); }
    var checks := ChecksFor(ecosystem.value);
    hide Apply, KeyOf, DigestField, StringField;
    assert checks[0..] == checks;
    for k := 0 to 4
      invariant Apply(value.members, checks) == Apply(members, checks[k..])
    {
      var refusal := CheckText(value.members, members, checks, k);
      if refusal.Some? { return Err(refusal.value); }
    }
    var source := LowerDigest(value.members, members, checks, 4);
    if source.Err? { return Err(source.error); }
    var artifact := LowerDigest(value.members, source.value, checks, 5);
    if artifact.Err? { return Err(artifact.error); }
    members := artifact.value;
    if ecosystem.value == "hex" {
      var refusal := CheckText(value.members, members, checks, 6);
      if refusal.Some? { return Err(refusal.value); }
      var outer := LowerDigest(value.members, members, checks, 7);
      if outer.Err? { return Err(outer.error); }
      members := outer.value;
    }
    AllApplied(members, checks, if ecosystem.value == "hex" then 8 else 6);
    return Ok(Keyed(KeyOf(members), Object(members)));
  }

  lemma AllApplied(m: Members, checks: seq<Check>, k: nat)
    requires k == |checks|
    ensures Apply(m, checks[k..]) == Ok(m)
  {
  }

  method NormalizeDependencies(original: seq<Value>) returns (r: Result<seq<Keyed>, ClosureError>)
    ensures r == NormalizeAll(original)
  {
    var normalized: seq<Keyed> := [];
    for i := 0 to |original|
      invariant NormalizeAll(original[..i]) == Ok(normalized)
    {
      var k := NormalizeIdentityInPlace(original[i]);
      assert original[..i + 1][..i] == original[..i];
      if k.Err? {
        RefusedPrefix(original, i + 1);
        return Err(k.error);
      }
      normalized := normalized + [k.value];
    }
    assert original[..|original|] == original;
    return Ok(normalized);
  }

  lemma {:induction false} RefusedPrefix(items: seq<Value>, n: nat)
    requires n <= |items| && NormalizeAll(items[..n]).Err?
    ensures NormalizeAll(items) == NormalizeAll(items[..n])
    decreases |items|
  {
    hide NormalizeIdentity;
    if n < |items| {
      assert items[..|items| - 1][..n] == items[..n];
      RefusedPrefix(items[..|items| - 1], n);
    } else {
      assert items[..n] == items;
    }
  }

  method RejectRepeats(root: IdentityKey, sorted: seq<Keyed>) returns (refusal: Option<ClosureError>)
    ensures refusal == Some(DuplicateDependency) <==> AdjacentRepeat(sorted)
    ensures refusal == Some(RootRepeated) <==>
      !AdjacentRepeat(sorted) && exists i :: 0 <= i < |sorted| && CompareKeys(sorted[i].key, root) == Equal
    ensures refusal in {None, Some(DuplicateDependency), Some(RootRepeated)}
  {
    hide CompareKeys;
    var i := 1;
    while i < |sorted|
      invariant 1 <= i
      invariant forall j | 0 <= j < i - 1 && j < |sorted| - 1 :: CompareKeys(sorted[j].key, sorted[j + 1].key) != Equal
    {
      if CompareKeys(sorted[i - 1].key, sorted[i].key) == Equal {
        return Some(DuplicateDependency);
      }
      i := i + 1;
    }
    i := 0;
    while i < |sorted|
      invariant 0 <= i <= |sorted|
      invariant forall j | 0 <= j < i :: CompareKeys(sorted[j].key, root) != Equal
    {
      if CompareKeys(sorted[i].key, root) == Equal {
        return Some(RootRepeated);
      }
      i := i + 1;
    }
    return None;
  }

  /** What `normalize_semantics` hands on: the normalized value and the digest that came with it. */
  function Handed(r: Result<Closure, ClosureError>): Result<(Value, string), ClosureError> {
    if r.Err? then Err(r.error)
    else Ok((Object(Assemble(r.value)), TextAt(r.value.members, "closure_digest")))
  }

  method NormalizeTopLevel(value: Value) returns (r: Result<Members, ClosureError>)
    ensures r == CheckTop(value)
  {
    if !value.Object? { return Err(NotObject); }
    var members := value.members;
    if members.Keys != TopLevelFields { return Err(InvalidTopLevelShape); }
    var format := StringField(members, "format");
    if format.Err? { return Err(format.error); }
    if format.value != FORMAT_V1 { return Err(InvalidFormat); }

    assert TopChecks[0..] == TopChecks;
    Step(members, members, TopChecks, 0);
    var lockDigest := DigestField(members, "dependency_lock_digest");
    if lockDigest.Err? { return Err(lockDigest.error); }
    members := members["dependency_lock_digest" := String(lockDigest.value)];

    Step(value.members, members, TopChecks, 1);
    var supplied := DigestField(members, "closure_digest");
    if supplied.Err? { return Err(supplied.error); }
    members := members["closure_digest" := String(supplied.value)];

    var fields := ["resolver_id", "resolver_version"];
    for i := 0 to 2
      invariant Apply(value.members, TopChecks) == Apply(members, TopChecks[2 + i..])
    {
      Step(value.members, members, TopChecks, 2 + i);
      assert TopChecks[2 + i] == Check(fields[i], false);
      var text := StringField(members, fields[i]);
      if text.Err? { return Err(text.error); }
      if text.value == "" { return Err(InvalidStringField); }
    }
    return Ok(members);
  }

  method NormalizeSemantics(value: Value) returns (r: Result<(Value, string), ClosureError>)
    ensures r == Handed(Normalize(value))
  {
    hide Apply, NormalizeIdentity, NormalizeAll, SortByKey, CompareKeys, Values, Settled;
    var top := NormalizeTopLevel(value);
    if top.Err? { return Err(top.error); }
    CheckTopKeeps(value);
    hide CheckTop;
    var members := top.value;
    var root := NormalizeIdentityInPlace(members["root"]);
    if root.Err? { return Err(root.error); }
    members := members["root" := root.value.value];

    if !members["dependencies"].Array? { return Err(DependenciesNotArray); }
    var original := members["dependencies"].items;
    if |original| > MAX_DEPENDENCIES { return Err(TooManyDependencies(|original|)); }
    var deps := NormalizeDependencies(original);
    if deps.Err? { return Err(deps.error); }
    var sorted := SortByKey(deps.value);
    var refusal := RejectRepeats(root.value.key, sorted);
    if refusal.Some? { return Err(refusal.value); }
    members := members["dependencies" := Array(Values(sorted))];
    return Ok((Object(members), TextAt(top.value, "closure_digest")));
  }

  method ComputeNormalizedDigest(hash: string -> string, normalized: Value) returns (r: Result<string, ClosureError>)
    requires normalized.Object?
    ensures r == if Supported(Preimage(normalized.members)) then Ok(hash(Text(Preimage(normalized.members))))
                 else Err(UnsupportedCanonicalValue)
  {
    var output := new Output();
    var ok := WriteCanonicalJson(Preimage(normalized.members), output);
    if !ok { return Err(UnsupportedCanonicalValue); }
    assert "" + Text(Preimage(normalized.members)) == Text(Preimage(normalized.members));
    return Ok(hash(output.text));
  }

  method RecomputePackageDependencyClosure(hash: string -> string, value: Value) returns (r: Result<Evidence, ClosureError>)
    ensures r == Recompute(hash, value)
  {
    hide Normalize, Assemble, Supported, Text;
    var handed := NormalizeSemantics(value);
    if handed.Err? { return Err(handed.error); }
    var (normalized, _) := handed.value;
    var digest := ComputeNormalizedDigest(hash, normalized);
    if digest.Err? { return Err(digest.error); }
    return Ok(Evidence(Object(normalized.members["closure_digest" := String(digest.value)]), digest.value));
  }

  method VerifyPackageDependencyClosure(hash: string -> string, value: Value) returns (r: Result<Evidence, ClosureError>)
    ensures r == Verify(hash, value)
  {
    hide Normalize, Assemble, Supported, Text;
    var handed := NormalizeSemantics(value);
    if handed.Err? { return Err(handed.error); }
    var (normalized, supplied) := handed.value;
    var recomputed := ComputeNormalizedDigest(hash, normalized);
    if recomputed.Err? { return Err(recomputed.error); }
    if supplied != recomputed.value { return Err(DigestMismatch(supplied, recomputed.value)); }
    return Ok(Evidence(Object(normalized.members["closure_digest" := String(recomputed.value)]), recomputed.value));
  }
}
