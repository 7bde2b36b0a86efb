/** Which dependency closures are admitted and what comes back, member by member. */
module ClosureAdmission {
  import opened CanonicalJson
  import opened DependencyClosure
  import opened Json
  import opened Utf16
  import opened Wrappers

  // ---------- Members ----------

  // The value of a hexadecimal digit of either case.
  function HexValue(c: char): Option<nat> {
    if '0' <= c <= '9' then Some(c as nat - '0' as nat)
    else if 'a' <= c <= 'f' then Some(c as nat - 'a' as nat + 10)
    else if 'A' <= c <= 'F' then Some(c as nat - 'A' as nat + 10)
    else None
  }

  predicate TextMember(m: Members, field: string) {
    field in m && m[field].String? && m[field].text != ""
  }

  predicate DigestMember(m: Members, field: string) {
    field in m && m[field].String? && |m[field].text| == 64 && forall i | 0 <= i < 64 :: HexValue(m[field].text[i]).Some?
  }

  /** Lowering a digest keeps its hexadecimal value digit by digit and leaves no capital letter. */
  lemma LowerKeepsDigits(s: string)
    requires IsDigest(s)
    ensures |Lower(s)| == |s|
    ensures forall i | 0 <= i < |s| :: HexValue(Lower(s)[i]) == HexValue(s[i]) && !('A' <= Lower(s)[i] <= 'Z')
  {
  }

  // ---------- Checks in sequence ----------

  predicate Passes(m: Members, c: Check) {
    if c.isDigest then DigestMember(m, c.field) else TextMember(m, c.field)
  }

  function LoweredValue(v: Value): Value {
    if v.String? then String(Lower(v.text)) else v
  }

  function LoweredAt(m: Members, checks: seq<Check>): Members {
    map f | f in m :: if Check(f, true) in checks then LoweredValue(m[f]) else m[f]
  }

  lemma OnePasses(m: Members, c: Check)
    ensures ApplyOne(m, c).Ok? <==> Passes(m, c)
    ensures ApplyOne(m, c).Ok? ==> ApplyOne(m, c).value == LoweredAt(m, [c])
  {
    if c.field in m && m[c.field].String? {
      var s := m[c.field].text;
      assert IsDigest(s) <==> |s| == 64 && forall i | 0 <= i < 64 :: HexValue(s[i]).Some?;
    }
    assert forall f :: Check(f, true) in [c] <==> c == Check(f, true);
    hide Lower;
    if ApplyOne(m, c).Ok? { assert ApplyOne(m, c).value.Keys == m.Keys; }
  }

  lemma PassesLowered(m: Members, c: Check, d: Check)
    requires Passes(m, c)
    ensures Passes(LoweredAt(m, [c]), d) <==> Passes(m, d)
  {
    var w := LoweredAt(m, [c]);
    assert forall f :: Check(f, true) in [c] <==> c == Check(f, true);
    if c.isDigest && d.field == c.field {
      var s := m[c.field].text;
      assert IsDigest(s);
      LowerKeepsDigits(s);
    }
  }

  lemma LoweredTwice(m: Members, checks: seq<Check>)
    requires checks != []
    ensures LoweredAt(LoweredAt(m, [checks[0]]), checks[1..]) == LoweredAt(m, checks)
  {
    var c := checks[0];
    assert forall f :: Check(f, true) in [c] <==> c == Check(f, true);
    assert forall d :: d in checks <==> d == c || d in checks[1..];
    forall f | f in m ensures LoweredAt(LoweredAt(m, [c]), checks[1..])[f] == LoweredAt(m, checks)[f] {
      if m[f].String? { LowerFacts(m[f].text); }
      hide Lower;
    }
  }

  /** A sequence of checks succeeds exactly when each passes on the members as they came in, and lowers exactly the
      checked digests. */
  lemma {:induction false} ApplyIff(m: Members, checks: seq<Check>)
    ensures Apply(m, checks).Ok? <==> forall c | c in checks :: Passes(m, c)
    ensures Apply(m, checks).Ok? ==> Apply(m, checks).value == LoweredAt(m, checks)
    decreases |checks|
  {
    if checks == [] {
      assert LoweredAt(m, checks) == m;
    } else {
      hide Passes, ApplyOne, LoweredAt;
      OnePasses(m, checks[0]);
      if ApplyOne(m, checks[0]).Ok? {
        var w := LoweredAt(m, [checks[0]]);
        ApplyIff(w, checks[1..]);
        LoweredTwice(m, checks);
        forall d ensures Passes(w, d) <==> Passes(m, d) { PassesLowered(m, checks[0], d); }
      }
      assert forall d :: d in checks <==> d == checks[0] || d in checks[1..];
    }
  }

  // ---------- Identities ----------

  const CommonMembers: set<string> := {
    "ecosystem", "package_name", "package_version", "resolved_revision", "source_uri", "source_digest", "artifact_digest" }
  const HexMembers: set<string> := {"registry_uri", "outer_checksum"}

  /** An identity of one of the five ecosystems with exactly its members, texts not empty and digests of 64
      hexadecimal digits; a Hex identity has a registry and an outer checksum besides. */
  predicate AdmittedIdentity(v: Value) {
    && v.Object? && TextMember(v.members, "ecosystem")
    && var m, e := v.members, v.members["ecosystem"].text;
    && (e == "hex" || e == "npm" || e == "cargo" || e == "python" || e == "git")
    && m.Keys == CommonMembers + (if e == "hex" then HexMembers else {})
    && TextMember(m, "package_name") && TextMember(m, "package_version")
    && TextMember(m, "resolved_revision") && TextMember(m, "source_uri")
    && DigestMember(m, "source_digest") && DigestMember(m, "artifact_digest")
    && (e == "hex" ==> TextMember(m, "registry_uri") && DigestMember(m, "outer_checksum"))
  }

  /** The same object with its three kinds of digest in lower case. */
  function Lowered(v: Value): Value {
    if !v.Object? then v
    else Object(map f | f in v.members ::
      if f == "source_digest" || f == "artifact_digest" || f == "outer_checksum" then LoweredValue(v.members[f]) else v.members[f])
  }

  lemma IdentityChecksAre(m: Members)
    ensures (forall c | c in IdentityChecks :: Passes(m, c)) <==>
      && TextMember(m, "package_name") && TextMember(m, "package_version") && TextMember(m, "source_uri")
      && TextMember(m, "resolved_revision") && DigestMember(m, "source_digest") && DigestMember(m, "artifact_digest")
    ensures forall f :: Check(f, true) in IdentityChecks <==> f == "source_digest" || f == "artifact_digest"
  {
    hide TextMember, DigestMember;
    var k := IdentityChecks;
    assert k[0] == Check("package_name", false) && k[1] == Check("package_version", false) && k[2] == Check("source_uri", false);
    assert k[3] == Check("resolved_revision", false) && k[4] == Check("source_digest", true) && k[5] == Check("artifact_digest", true);
    if forall c | c in k :: Passes(m, c) {
      assert Passes(m, k[0]) && Passes(m, k[1]) && Passes(m, k[2]) && Passes(m, k[3]) && Passes(m, k[4]) && Passes(m, k[5]);
    }
  }

  lemma HexChecksAre(m: Members)
    ensures (forall c | c in HexChecks :: Passes(m, c)) <==>
      (forall c | c in IdentityChecks :: Passes(m, c)) && TextMember(m, "registry_uri") && DigestMember(m, "outer_checksum")
    ensures forall f :: Check(f, true) in HexChecks <==> Check(f, true) in IdentityChecks || f == "outer_checksum"
  {
    hide TextMember, DigestMember;
    var more := [ Check("registry_uri", false), Check("outer_checksum", true) ];
    assert more[0] == Check("registry_uri", false) && more[1] == Check("outer_checksum", true);
    assert forall c :: c in HexChecks <==> c in IdentityChecks || c in more;
    if forall c | c in HexChecks :: Passes(m, c) { assert Passes(m, more[0]) && Passes(m, more[1]); }
  }

  lemma MemberSets(e: string)
    ensures FieldsFor(e) == CommonMembers + (if e == "hex" then HexMembers else {})
  {
    assert HexIdentityFields == CommonMembers + HexMembers;
    assert RegistryIdentityFields == CommonMembers + {};
  }

  lemma LoweredAgrees(m: Members, e: string)
    requires m.Keys == FieldsFor(e)
    ensures Object(LoweredAt(m, ChecksFor(e))) == Lowered(Object(m))
  {
    IdentityChecksAre(m);
    HexChecksAre(m);
    MemberSets(e);
    hide Passes, LoweredValue, IdentityChecks, HexChecks;
    assert "outer_checksum" !in CommonMembers;
    assert LoweredAt(m, ChecksFor(e)) == Lowered(Object(m)).members;
  }

  /** Normalization accepts exactly the admitted identities, and lowers their digests. */
  lemma NormalizeIdentityIff(v: Value)
    ensures NormalizeIdentity(v).Ok? <==> AdmittedIdentity(v)
    ensures NormalizeIdentity(v).Ok? ==> NormalizeIdentity(v).value.value == Lowered(v)
  {
    if v.Object? && "ecosystem" in v.members && v.members["ecosystem"].String? {
      var e := v.members["ecosystem"].text;
      MemberSets(e);
      ChecksAre(v.members, e);
      ApplyIff(v.members, ChecksFor(e));
      if v.members.Keys == FieldsFor(e) { LoweredAgrees(v.members, e); }
      hide Apply, Passes, Lowered, LoweredAt, ChecksFor, FieldsFor, DigestMember, KeyOf, CommonMembers, HexMembers;
    }
  }

  lemma ChecksAre(m: Members, e: string)
    ensures (forall c | c in ChecksFor(e) :: Passes(m, c)) <==>
      && TextMember(m, "package_name") && TextMember(m, "package_version") && TextMember(m, "source_uri")
      && TextMember(m, "resolved_revision") && DigestMember(m, "source_digest") && DigestMember(m, "artifact_digest")
      && (e == "hex" ==> TextMember(m, "registry_uri") && DigestMember(m, "outer_checksum"))
  {
    IdentityChecksAre(m);
    HexChecksAre(m);
    hide Passes, TextMember, DigestMember, IdentityChecks, HexChecks;
  }

  // ---------- Closures ----------

  lemma TopChecksAre(m: Members)
    ensures (forall c | c in TopChecks :: Passes(m, c)) <==>
      && DigestMember(m, "dependency_lock_digest") && DigestMember(m, "closure_digest")
      && TextMember(m, "resolver_id") && TextMember(m, "resolver_version")
    ensures forall f :: Check(f, true) in TopChecks <==> f == "dependency_lock_digest" || f == "closure_digest"
  {
    hide TextMember, DigestMember;
    var k := TopChecks;
    assert k[0] == Check("dependency_lock_digest", true) && k[1] == Check("closure_digest", true);
    assert k[2] == Check("resolver_id", false) && k[3] == Check("resolver_version", false);
    if forall c | c in k :: Passes(m, c) {
      assert Passes(m, k[0]) && Passes(m, k[1]) && Passes(m, k[2]) && Passes(m, k[3]);
    }
  }

  // The seven members and their types, whatever root and dependencies are.
  predicate AdmittedTop(v: Value) {
    && v.Object?
    && v.members.Keys == {"format", "root", "dependencies", "dependency_lock_digest", "closure_digest", "resolver_id", "resolver_version"}
    && v.members["format"] == String("zed-package-dependency-closure-v1")
    && DigestMember(v.members, "dependency_lock_digest") && DigestMember(v.members, "closure_digest")
    && TextMember(v.members, "resolver_id") && TextMember(v.members, "resolver_version")
  }

  lemma CheckTopIff(v: Value)
    ensures CheckTop(v).Ok? <==> AdmittedTop(v)
    ensures CheckTop(v).Ok? ==> CheckTop(v).value == LoweredAt(v.members, TopChecks)
  {
    if v.Object? {
      ApplyIff(v.members, TopChecks);
      TopChecksAre(v.members);
      hide Apply, Passes, LoweredAt, DigestMember, TextMember;
      assert TopLevelFields == {"format", "root", "dependencies", "dependency_lock_digest", "closure_digest", "resolver_id", "resolver_version"};
    }
  }

  /** Two identities that differ, digests in lower case, in some ordering member. */
  ghost predicate Distinct(a: Value, b: Value) {
    DifferInMember(Lowered(a), Lowered(b))
  }

  /** An admitted top level, an admitted root, and at most 4096 admitted dependencies, distinct from one another
      and from the root. */
  ghost predicate AdmittedClosure(v: Value) {
    && AdmittedTop(v) && AdmittedIdentity(v.members["root"])
    && v.members["dependencies"].Array?
    && var items := v.members["dependencies"].items;
    && |items| <= 4096
    && (forall i | 0 <= i < |items| :: AdmittedIdentity(items[i]) && Distinct(items[i], v.members["root"]))
    && forall i, j | 0 <= i < j < |items| :: Distinct(items[i], items[j])
  }

  lemma KeysDifferIff(a: Value, b: Value)
    requires NormalizeIdentity(a).Ok? && NormalizeIdentity(b).Ok?
    ensures NormalizeIdentity(a).value.key != NormalizeIdentity(b).value.key <==> Distinct(a, b)
  {
    var x, y := NormalizeIdentity(a).value, NormalizeIdentity(b).value;
    NormalizeIdentityIff(a);
    NormalizeIdentityIff(b);
    IdentityStable(a);
    IdentityStable(b);
    hide NormalizeIdentity, Lowered, Fields, MemberText, AdmittedIdentity;
    assert Stable(x) && Stable(y);
    if x.key != y.key { KeysDiffer(x, y); }
    FieldsAreMembers(x);
    FieldsAreMembers(y);
  }

  ghost predicate KeysApart(deps: seq<Keyed>) {
    forall i, j | 0 <= i < j < |deps| :: deps[i].key != deps[j].key
  }

  lemma OnceWhenApart(t: seq<Keyed>, x: nat)
    requires KeysApart(t) && x < |t|
    ensures multiset(t)[t[x]] == 1
  {
    assert t == t[..x] + [t[x]] + t[x + 1..];
    assert multiset(t) == multiset(t[..x]) + multiset{t[x]} + multiset(t[x + 1..]);
    assert t[x] !in t[..x] && t[x] !in t[x + 1..];
  }

  lemma ApartStaysApart(s: seq<Keyed>, t: seq<Keyed>, i: nat, j: nat)
    requires multiset(s) == multiset(t) && KeysApart(t) && i < j < |s|
    ensures s[i].key != s[j].key
  {
    assert s[i] in multiset(t) && s[j] in multiset(t);
    var x :| 0 <= x < |t| && t[x] == s[i];
    var y :| 0 <= y < |t| && t[y] == s[j];
    if x == y {
      TwiceMeansTwo(s, i, j);
      OnceWhenApart(t, x);
    }
  }

  lemma RepeatsApart(sorted: seq<Keyed>, deps: seq<Keyed>)
    requires multiset(sorted) == multiset(deps) && (!AdjacentRepeat(sorted) <==> StrictlyIncreasing(sorted))
    ensures AdjacentRepeat(sorted) <==> !KeysApart(deps)
  {
    hide CompareKeys, StrictlyIncreasing;
    if !AdjacentRepeat(sorted) {
      forall i, j | 0 <= i < j < |deps| ensures deps[i].key != deps[j].key { EqualKeysClash(sorted, deps, i, j); }
    } else {
      var i :| 0 <= i < |sorted| - 1 && CompareKeys(sorted[i].key, sorted[i + 1].key) == Equal;
      DependencyClosure.KeyOrder(sorted[i].key, sorted[i + 1].key, sorted[i].key);
      if KeysApart(deps) { ApartStaysApart(sorted, deps, i, i + 1); }
    }
  }

  lemma RootRepeats(root: Keyed, sorted: seq<Keyed>, deps: seq<Keyed>)
    requires multiset(sorted) == multiset(deps)
    ensures RepeatsRoot(root, sorted) <==> exists i :: 0 <= i < |deps| && deps[i].key == root.key
  {
    hide CompareKeys;
    forall i | 0 <= i < |sorted| ensures CompareKeys(sorted[i].key, root.key) == Equal <==> sorted[i].key == root.key {
      DependencyClosure.KeyOrder(sorted[i].key, root.key, root.key);
    }
    if i :| 0 <= i < |deps| && deps[i].key == root.key {
      assert deps[i] in multiset(sorted);
      var x :| 0 <= x < |sorted| && sorted[x] == deps[i];
      assert CompareKeys(sorted[x].key, root.key) == Equal;
    }
    if x :| 0 <= x < |sorted| && sorted[x].key == root.key {
      assert sorted[x] in multiset(deps);
      var i :| 0 <= i < |deps| && deps[i] == sorted[x];
      assert deps[i].key == root.key;
    }
  }

  /** Ordering succeeds exactly when no two dependencies, nor a dependency and the root, share a key. */
  lemma OrderDependenciesIff(root: Keyed, deps: seq<Keyed>)
    ensures OrderDependencies(root, deps).Ok? <==> KeysApart(deps) && forall i | 0 <= i < |deps| :: deps[i].key != root.key
  {
    var sorted := SortByKey(deps);
    SortSorts(deps);
    NoRepeatIsStrict(sorted);
    RepeatsApart(sorted, deps);
    RootRepeats(root, sorted, deps);
    hide CompareKeys, SortByKey, AdjacentRepeat, RepeatsRoot, KeysApart, StrictlyIncreasing, Nondecreasing;
  }

  lemma PartsIff(m: Members)
    requires "root" in m && "dependencies" in m
    ensures NormalizeParts(m).Ok? <==>
      && NormalizeIdentity(m["root"]).Ok? && m["dependencies"].Array? && |m["dependencies"].items| <= 4096
      && (forall i | 0 <= i < |m["dependencies"].items| ::
           NormalizeIdentity(m["dependencies"].items[i]).Ok? && Distinct(m["dependencies"].items[i], m["root"]))
      && forall i, j | 0 <= i < j < |m["dependencies"].items| :: Distinct(m["dependencies"].items[i], m["dependencies"].items[j])
  {
    hide NormalizeIdentity, NormalizeAll, Distinct, OrderDependencies;
    if NormalizeIdentity(m["root"]).Ok? && m["dependencies"].Array? {
      var items := m["dependencies"].items;
      NormalizeAllEach(items);
      if NormalizeAll(items).Ok? {
        var root, deps := NormalizeIdentity(m["root"]).value, NormalizeAll(items).value;
        OrderDependenciesIff(root, deps);
        forall i | 0 <= i < |items| ensures deps[i].key != root.key <==> Distinct(items[i], m["root"]) {
          KeysDifferIff(items[i], m["root"]);
        }
        forall i, j | 0 <= i < j < |items| ensures deps[i].key != deps[j].key <==> Distinct(items[i], items[j]) {
          KeysDifferIff(items[i], items[j]);
        }
      }
    }
  }

  lemma TopParts(v: Value)
    requires CheckTop(v).Ok?
    ensures v.Object? && "root" in v.members && "dependencies" in v.members
    ensures var m := CheckTop(v).value;
      && "root" in m && "dependencies" in m && m["root"] == v.members["root"] && m["dependencies"] == v.members["dependencies"]
  {
    CheckTopKeeps(v);
  }

  /** Recomputation accepts exactly the admitted closures. */
  lemma AcceptedIff(hash: string -> string, v: Value)
    ensures Recompute(hash, v).Ok? <==> AdmittedClosure(v)
  {
    AcceptedHasEvidence(hash, v);
    CheckTopIff(v);
    hide Recompute, NormalizeParts, CheckTop, Distinct, NormalizeIdentity, AdmittedIdentity, TopChecks, TopLevelFields, Settled;
    if CheckTop(v).Ok? {
      TopParts(v);
      var m := CheckTop(v).value;
      PartsIff(m);
      NormalizeIdentityIff(m["root"]);
      hide AdmittedTop;
      if m["dependencies"].Array? {
        forall i | 0 <= i < |m["dependencies"].items|
          ensures NormalizeIdentity(m["dependencies"].items[i]).Ok? <==> AdmittedIdentity(m["dependencies"].items[i])
        {
          NormalizeIdentityIff(m["dependencies"].items[i]);
        }
      }
    }
  }

  function LoweredAll(items: seq<Value>): seq<Value> {
    seq(|items|, i requires 0 <= i < |items| => Lowered(items[i]))
  }

  lemma ValuesWithout(t: seq<Keyed>, j: nat)
    requires j < |t|
    ensures multiset(Values(t)) == multiset(Values(t[..j] + t[j + 1..])) + multiset{t[j].value}
  {
    assert Values(t[..j] + t[j + 1..]) == Values(t)[..j] + Values(t)[j + 1..];
    assert Values(t) == Values(t)[..j] + [t[j].value] + Values(t)[j + 1..];
    hide Values;
  }

  lemma {:induction false} SameValues(s: seq<Keyed>, t: seq<Keyed>)
    requires multiset(s) == multiset(t)
    ensures multiset(Values(s)) == multiset(Values(t))
    decreases |s|
  {
    assert |multiset(s)| == |s| && |multiset(t)| == |t|;
    if s == [] {
      assert Values(s) == Values(t);
    } else {
      hide Values;
      var n := |s| - 1;
      assert s[n] in multiset(s) && s[n] in multiset(t);
      var j :| 0 <= j < |t| && t[j] == s[n];
      DropOne(s, n);
      DropOne(t, j);
      ValuesWithout(s, n);
      ValuesWithout(t, j);
      var x, y := s[..n] + s[n + 1..], t[..j] + t[j + 1..];
      assert multiset(x) == multiset(s) - multiset{s[n]} && multiset(y) == multiset(t) - multiset{t[j]};
      SameValues(x, y);
    }
  }

  /** The evidence of a closure is the closure with lower-case digests and its dependencies rearranged, under the
      digest of its own canonical text; nothing else is changed, added or lost. */
  lemma EvidenceMembers(hash: string -> string, v: Value)
    requires Recompute(hash, v).Ok?
    ensures v.Object? && Recompute(hash, v).value.normalized.Object?
    ensures var m, n := v.members, Recompute(hash, v).value.normalized.members;
      && "root" in m && "dependencies" in m && m["dependencies"].Array?
      && n.Keys == m.Keys
      && n["root"] == Lowered(m["root"])
      && n["dependencies"].Array? && multiset(n["dependencies"].items) == multiset(LoweredAll(m["dependencies"].items))
      && n["closure_digest"] == String(Recompute(hash, v).value.closureDigest)
      && n["dependency_lock_digest"] == LoweredValue(m["dependency_lock_digest"])
      && n["format"] == m["format"] && n["resolver_id"] == m["resolver_id"] && n["resolver_version"] == m["resolver_version"]
    ensures Supported(Object(Recompute(hash, v).value.normalized.members - {"closure_digest"}))
    ensures Recompute(hash, v).value.closureDigest ==
      hash(Text(Object(Recompute(hash, v).value.normalized.members - {"closure_digest"})))
  {
    var c := Normalize(v).value;
    NormalizeSound(v);
    CheckTopIff(v);
    CheckTopKeeps(v);
    TopChecksAre(v.members);
    var top := CheckTop(v).value;
    EvidenceParts(hash, v);
    WithDigest(c, Recompute(hash, v).value.closureDigest);
    NormalizedValues(top);
    NamesApart();
    hide Normalize, CheckTop, Sound, Values, LoweredAll, Lowered, Text, Supported, TopChecks, DigestMember, TextMember, Assemble, Preimage;
  }

  lemma EvidenceParts(hash: string -> string, v: Value)
    requires Recompute(hash, v).Ok?
    ensures var c, d := Normalize(v).value, Recompute(hash, v).value.closureDigest;
      && Recompute(hash, v).value.normalized == Object(Assemble(c)["closure_digest" := String(d)])
      && Supported(Object(Recompute(hash, v).value.normalized.members - {"closure_digest"}))
      && d == hash(Text(Object(Recompute(hash, v).value.normalized.members - {"closure_digest"})))
  {
    hide Normalize, Assemble, Supported, Text;
    var c, d := Normalize(v).value, Recompute(hash, v).value.closureDigest;
    assert Assemble(c)["closure_digest" := String(d)] - {"closure_digest"} == Assemble(c) - {"closure_digest"};
  }

  lemma NormalizedValues(m: Members)
    requires "root" in m && "dependencies" in m && NormalizeParts(m).Ok?
    ensures m["dependencies"].Array? && NormalizeParts(m).value.members == m
    ensures NormalizeParts(m).value.root.value == Lowered(m["root"])
    ensures multiset(Values(NormalizeParts(m).value.dependencies)) == multiset(LoweredAll(m["dependencies"].items))
  {
    PartsOf(m);
    NormalizeIdentityIff(m["root"]);
    AllLowered(m["dependencies"].items);
    var deps := NormalizeAll(m["dependencies"].items).value;
    SortSorts(deps);
    SameValues(SortByKey(deps), deps);
    hide *;
  }

  // The parts of an accepted closure, one by one.
  lemma PartsOf(m: Members)
    requires "root" in m && "dependencies" in m && NormalizeParts(m).Ok?
    ensures m["dependencies"].Array? && NormalizeIdentity(m["root"]).Ok? && NormalizeAll(m["dependencies"].items).Ok?
    ensures NormalizeParts(m).value.members == m && NormalizeParts(m).value.root == NormalizeIdentity(m["root"]).value
    ensures NormalizeParts(m).value.dependencies == SortByKey(NormalizeAll(m["dependencies"].items).value)
  {
    hide NormalizeIdentity, NormalizeAll, SortByKey, AdjacentRepeat, RepeatsRoot;
  }

  lemma AllLowered(items: seq<Value>)
    requires NormalizeAll(items).Ok?
    ensures Values(NormalizeAll(items).value) == LoweredAll(items)
  {
    NormalizeAllEach(items);
    hide NormalizeIdentity, NormalizeAll, Lowered, AdmittedIdentity;
    var deps := NormalizeAll(items).value;
    forall i | 0 <= i < |items| ensures deps[i].value == Lowered(items[i]) { NormalizeIdentityIff(items[i]); }
    assert Values(deps) == LoweredAll(items);
  }

  // ---------- Verification and refusals ----------

  /** Verification returns what recomputation returns, unless the closure is admitted and carries, letter case
      aside, another digest than the recomputed one. */
  lemma VerifyIff(hash: string -> string, v: Value)
    ensures var r, supplied := Recompute(hash, v), Lower(MemberText(v, "closure_digest"));
      Verify(hash, v) ==
        if r.Ok? && supplied != r.value.closureDigest then Err(DigestMismatch(supplied, r.value.closureDigest)) else r
  {
    AcceptedHasEvidence(hash, v);
    if Normalize(v).Ok? {
      SuppliedDigest(v);
      VerifyCompares(hash, v);
      hide *;
    } else {
      hide Normalize, Supported, Text, Assemble, Lower, MemberText;
    }
  }

  lemma SuppliedDigest(v: Value)
    requires Normalize(v).Ok?
    ensures TextAt(Normalize(v).value.members, "closure_digest") == Lower(MemberText(v, "closure_digest"))
  {
    NormalizedMembers(v);
    CheckTopIff(v);
    TopChecksAre(v.members);
    hide Normalize, CheckTop, TopChecks, Lower;
  }

  lemma VerifyCompares(hash: string -> string, v: Value)
    requires Recompute(hash, v).Ok?
    ensures Normalize(v).Ok?
    ensures var supplied, d := TextAt(Normalize(v).value.members, "closure_digest"), Recompute(hash, v).value.closureDigest;
      Verify(hash, v) == if supplied == d then Recompute(hash, v) else Err(DigestMismatch(supplied, d))
  {
    hide Normalize, Supported, Text, Assemble, TextAt;
  }

  lemma NormalizedMembers(v: Value)
    requires Normalize(v).Ok?
    ensures CheckTop(v).Ok? && Normalize(v).value.members == CheckTop(v).value
  {
    hide CheckTop, NormalizeIdentity, NormalizeAll, OrderDependencies;
    CheckTopKeeps(v);
  }

  lemma {:induction false} ApplyErrors(m: Members, checks: seq<Check>)
    ensures Apply(m, checks).Err? ==> Apply(m, checks).error in {InvalidStringField, InvalidDigest}
    decreases |checks|
  {
    if checks != [] && ApplyOne(m, checks[0]).Ok? { ApplyErrors(ApplyOne(m, checks[0]).value, checks[1..]); }
  }

  predicate OfIdentity(e: ClosureError) {
    e == InvalidStringField || e == InvalidDigest || e == InvalidIdentityShape || e == UnsupportedEcosystem
  }

  lemma IdentityErrors(v: Value)
    ensures NormalizeIdentity(v).Err? ==> OfIdentity(NormalizeIdentity(v).error)
  {
    if v.Object? && StringField(v.members, "ecosystem").Ok? {
      ApplyErrors(v.members, ChecksFor(v.members["ecosystem"].text));
      hide Apply, FieldsFor, ChecksFor, KnownEcosystem;
    }
  }

  lemma {:induction false} AllErrors(items: seq<Value>)
    ensures NormalizeAll(items).Err? ==> OfIdentity(NormalizeAll(items).error)
    decreases |items|
  {
    hide NormalizeIdentity;
    if items != [] {
      AllErrors(items[..|items| - 1]);
      IdentityErrors(items[|items| - 1]);
    }
  }

  ghost predicate AllAdmitted(items: seq<Value>) {
    forall i | 0 <= i < |items| :: AdmittedIdentity(items[i])
  }

  ghost predicate AllDistinct(items: seq<Value>) {
    forall i, j | 0 <= i < j < |items| :: Distinct(items[i], items[j])
  }

  /** Why a closure with an admitted top level and root is refused, beyond malformed dependencies: each reason
      exactly under its condition, a repeated dependency being reported before a repeated root. */
  lemma RefusalsIff(hash: string -> string, v: Value)
    requires AdmittedTop(v) && AdmittedIdentity(v.members["root"])
    ensures var r, deps := Recompute(hash, v), v.members["dependencies"];
      && (r == Err(DependenciesNotArray) <==> !deps.Array?)
      && (deps.Array? ==> (r == Err(TooManyDependencies(|deps.items|)) <==> |deps.items| > 4096))
      && (r == Err(DuplicateDependency) <==> deps.Array? && |deps.items| <= 4096 && AllAdmitted(deps.items) && !AllDistinct(deps.items))
      && (r == Err(RootRepeated) <==>
           && deps.Array? && |deps.items| <= 4096 && AllAdmitted(deps.items) && AllDistinct(deps.items)
           && exists i :: 0 <= i < |deps.items| && !Distinct(deps.items[i], v.members["root"]))
  {
    CheckTopIff(v);
    TopParts(v);
    NormalizeIdentityIff(v.members["root"]);
    AcceptedHasEvidence(hash, v);
    var m := CheckTop(v).value;
    PartsRefusals(m);
    assert Normalize(v) == NormalizeParts(m) by { hide NormalizeParts, CheckTop; }
    assert Recompute(hash, v).Err? ==> Normalize(v).Err? && Recompute(hash, v).error == Normalize(v).error
      by { hide Normalize, Assemble, Supported; }
    hide *;
  }

  lemma PartsRefusals(m: Members)
    requires "root" in m && "dependencies" in m && NormalizeIdentity(m["root"]).Ok?
    ensures var r, deps := NormalizeParts(m), m["dependencies"];
      && (r == Err(DependenciesNotArray) <==> !deps.Array?)
      && (deps.Array? ==> (r == Err(TooManyDependencies(|deps.items|)) <==> |deps.items| > 4096))
      && (r == Err(DuplicateDependency) <==> deps.Array? && |deps.items| <= 4096 && AllAdmitted(deps.items) && !AllDistinct(deps.items))
      && (r == Err(RootRepeated) <==>
           && deps.Array? && |deps.items| <= 4096 && AllAdmitted(deps.items) && AllDistinct(deps.items)
           && exists i :: 0 <= i < |deps.items| && !Distinct(deps.items[i], m["root"]))
  {
    if m["dependencies"].Array? {
      var root, items := NormalizeIdentity(m["root"]).value, m["dependencies"].items;
      AllErrors(items);
      AllNormalize(items);
      if NormalizeAll(items).Ok? {
        OrderRefusals(root, NormalizeAll(items).value);
        KeysMatch(items, m["root"]);
      }
    }
    hide NormalizeIdentity, NormalizeAll, OrderDependencies, AllAdmitted, AllDistinct, KeysApart, Distinct;
  }

  lemma AllNormalize(items: seq<Value>)
    ensures NormalizeAll(items).Ok? <==> AllAdmitted(items)
  {
    NormalizeAllEach(items);
    forall i | 0 <= i < |items| ensures NormalizeIdentity(items[i]).Ok? <==> AdmittedIdentity(items[i]) {
      NormalizeIdentityIff(items[i]);
    }
    hide NormalizeIdentity, AdmittedIdentity, NormalizeAll;
  }

  lemma KeysMatch(items: seq<Value>, root: Value)
    requires NormalizeIdentity(root).Ok? && NormalizeAll(items).Ok?
    ensures KeysApart(NormalizeAll(items).value) <==> AllDistinct(items)
    ensures |NormalizeAll(items).value| == |items|
    ensures forall i | 0 <= i < |items| :: NormalizeAll(items).value[i].key != NormalizeIdentity(root).value.key <==> Distinct(items[i], root)
  {
    NormalizeAllEach(items);
    var deps := NormalizeAll(items).value;
    hide NormalizeIdentity, NormalizeAll, Distinct;
    forall i | 0 <= i < |items| ensures deps[i].key != NormalizeIdentity(root).value.key <==> Distinct(items[i], root) {
      KeysDifferIff(items[i], root);
    }
    forall i, j | 0 <= i < j < |items| ensures deps[i].key != deps[j].key <==> Distinct(items[i], items[j]) {
      KeysDifferIff(items[i], items[j]);
    }
  }

  lemma OrderRefusals(root: Keyed, deps: seq<Keyed>)
    ensures OrderDependencies(root, deps) == Err(DuplicateDependency) <==> !KeysApart(deps)
    ensures OrderDependencies(root, deps) == Err(RootRepeated) <==>
      KeysApart(deps) && exists i :: 0 <= i < |deps| && deps[i].key == root.key
    ensures OrderDependencies(root, deps).Err? ==> OrderDependencies(root, deps).error in {DuplicateDependency, RootRepeated}
  {
    OrderDependenciesIff(root, deps);
    var sorted := SortByKey(deps);
    SortSorts(deps);
    NoRepeatIsStrict(sorted);
    hide CompareKeys, SortByKey, RepeatsRoot, StrictlyIncreasing, Nondecreasing;
    RepeatsApart(sorted, deps);
    hide AdjacentRepeat, KeysApart;
  }
}
