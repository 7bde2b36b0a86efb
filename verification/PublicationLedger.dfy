/** Adoption of machine publications and their one reviewed repair (`publication.rs`, `publication_repair.rs`). */
module PublicationLedger {
  import opened TableChecks
  import opened TextLimits
  import opened Wrappers
  import Json
  import TextParts

  // ---------- Rows ----------

  datatype Profile = Profile(
    description: Option<string>, vcs: string, repoUrl: string, homepageUrl: Option<string>, keywords: Json.Value)

  datatype Org = Org(slug: string, name: string)
  datatype Package = Package(orgId: nat, name: string, profile: Profile)

  datatype Version = Version(
    packageId: nat, version: string, versionScheme: string, sha256: string, sizeBytes: int, format: string,
    vcsTag: Option<string>, vcsCommit: Option<string>, artifactKey: string, manifest: Json.Value)

  datatype Upload = Upload(
    packageId: nat, packageVersionId: nat, status: string, storageKey: string, format: string, sizeBytes: int, sha256: string,
    clientIpHash: Option<string>, userAgent: Option<string>)

  datatype AuditFact =
    | Mirrored(versionId: nat, sha256: string, artifactKey: string, clientIpHash: Option<string>)
    | Repaired(versionId: nat, oldSha256: string, replacementSha256: string, oldSizeBytes: int, replacementSizeBytes: int,
               oldArtifactKey: string, replacementArtifactKey: string)

  // Active organizations and packages only: nothing here soft-deletes.
  datatype Tables = Tables(
    orgs: map<nat, Org>, packages: map<nat, Package>, versions: map<nat, Version>, uploads: map<nat, Upload>,
    audit: seq<AuditFact>)

  // ---------- Inputs ----------

  datatype PublishInput = PublishInput(
    orgSlug: string, orgName: Option<string>, packageName: string, profile: Profile, version: string, versionScheme: string,
    sha256: string, sizeBytes: int, format: string, vcsTag: Option<string>, vcsCommit: Option<string>,
    artifactKey: string, manifest: Json.Value, clientIpHash: Option<string>, userAgent: Option<string>)

  datatype RepairInput = RepairInput(
    orgSlug: string, packageName: string, version: string,
    expectedOldSha256: string, expectedOldSizeBytes: int, expectedOldArtifactKey: string,
    replacementSha256: string, replacementSizeBytes: int, replacementArtifactKey: string,
    format: string, vcsTag: Option<string>, vcsCommit: Option<string>, actorSubject: string, reason: string)

  // The identifiers a publication would give to rows it inserts.
  datatype NewIds = NewIds(org: nat, package: nat, version: nat, upload: nat)

  datatype PublishReceipt = PublishReceipt(orgId: nat, packageId: nat, packageVersionId: nat, inserted: bool)
  datatype RepairReceipt = RepairReceipt(
    orgId: nat, packageId: nat, packageVersionId: nat, oldSha256: string, replacementSha256: string)

  datatype LedgerError = Policy | NotFound | Database

  predicate ArchiveFormat(format: string) {
    format == "tar.gz" || format == "tar.zst" || format == "zip"
  }

  predicate KnownVcs(vcs: string) {
    vcs in {"git", "hg", "svn", "fossil"}
  }

  predicate KnownScheme(scheme: string) {
    scheme in {"semver", "calver", "opaque"}
  }

  predicate PublishValid(input: PublishInput) {
    && RequiredText(input.orgSlug, 64) && OptionalText(input.orgName, 200)
    && RequiredText(input.packageName, 128) && RequiredText(input.version, 128)
    && OptionalText(input.profile.description, 4096)
    && OptionalText(Some(input.profile.repoUrl), 2048) && OptionalText(input.profile.homepageUrl, 2048)
    && KnownVcs(input.profile.vcs)
    && input.profile.keywords.Array?
    && KnownScheme(input.versionScheme)
    && LowerHexDigest(input.sha256)
    && input.sizeBytes >= 0
    && ArchiveFormat(input.format)
    && OptionalText(input.vcsTag, 160) && OptionalText(input.vcsCommit, 120)
    && RequiredText(input.artifactKey, 1024)
    && input.manifest.Object?
    && (input.clientIpHash.Some? ==> LowerHexDigest(input.clientIpHash.value))
    && OptionalText(input.userAgent, 512)
  }

  function CanonicalKey(sha256: string, format: string): string {
    "artifacts/" + sha256 + "." + format
  }

  predicate RepairValid(input: RepairInput) {
    && RequiredText(input.orgSlug, 64) && RequiredText(input.packageName, 128) && RequiredText(input.version, 128)
    && LowerHexDigest(input.expectedOldSha256) && LowerHexDigest(input.replacementSha256)
    && input.expectedOldSha256 != input.replacementSha256
    && input.expectedOldSizeBytes > 0 && input.replacementSizeBytes > 0
    && ArchiveFormat(input.format)
    && input.expectedOldArtifactKey == CanonicalKey(input.expectedOldSha256, input.format)
    && input.replacementArtifactKey == CanonicalKey(input.replacementSha256, input.format)
    && OptionalText(input.vcsTag, 160) && OptionalText(input.vcsCommit, 120)
    && RequiredText(input.expectedOldArtifactKey, 1024) && RequiredText(input.replacementArtifactKey, 1024)
    && LogSafe(input.actorSubject, 1, 256) && LogSafe(input.reason, 8, 500)
  }

  // ---------- The constraints of the tables ----------

  predicate VcsPasses(vcs: string) {
    Varchar(vcs, 16) && (vcs == "git" || vcs == "hg" || vcs == "svn" || vcs == "fossil")
  }

  predicate SchemePasses(scheme: string) {
    Varchar(scheme, 16) && (scheme == "semver" || scheme == "calver" || scheme == "opaque")
  }

  predicate FormatPasses(format: string) {
    Varchar(format, 16) && format in ["tar.gz", "tar.zst", "zip"]
  }

  predicate StatusPasses(status: string) {
    status in ["pending", "uploading", "stored", "verified", "failed", "aborted"]
  }

  predicate OrgRowPasses(o: Org) {
    Varchar(o.slug, 64) && SlugPattern(o.slug) && Octets(o.name, 1, 200)
  }

  predicate ProfilePasses(p: Profile) {
    && (p.description.Some? ==> Octets(p.description.value, 0, 4096))
    && Octets(p.repoUrl, 0, 2048)
    && (p.homepageUrl.Some? ==> Octets(p.homepageUrl.value, 0, 2048))
    && VcsPasses(p.vcs)
    && p.keywords.Array?
  }

  predicate PackageRowPasses(p: Package) {
    Varchar(p.name, 128) && NamePattern(p.name) && ProfilePasses(p.profile)
  }

  predicate VersionRowPasses(v: Version) {
    && Varchar(v.version, 128) && Octets(v.version, 1, 128)
    && SchemePasses(v.versionScheme)
    && HexPattern(v.sha256) && v.sizeBytes >= 0 && FormatPasses(v.format)
    && (v.vcsTag.Some? ==> Varchar(v.vcsTag.value, 160))
    && (v.vcsCommit.Some? ==> Varchar(v.vcsCommit.value, 120))
    && Octets(v.artifactKey, 1, 1024)
    && v.manifest.Object?
  }

  predicate HashPasses(hash: Option<string>) {
    hash.Some? ==> HexPattern(hash.value)
  }

  predicate UploadRowPasses(w: Upload) {
    && StatusPasses(w.status)
    && Octets(w.storageKey, 1, 1024) && FormatPasses(w.format) && w.sizeBytes >= 0 && HexPattern(w.sha256)
    && HashPasses(w.clientIpHash)
    && (w.userAgent.Some? ==> Octets(w.userAgent.value, 0, 512))
  }

  predicate FactPasses(f: AuditFact) {
    f.Mirrored? ==> HashPasses(f.clientIpHash)
  }

  // ---------- Lookups ----------

  predicate IsOrg(t: Tables, id: nat, slug: string) {
    id in t.orgs && t.orgs[id].slug == slug
  }

  predicate IsPackage(t: Tables, id: nat, orgId: nat, name: string) {
    id in t.packages && t.packages[id].orgId == orgId && t.packages[id].name == name
  }

  predicate IsVersion(t: Tables, id: nat, packageId: nat, version: string) {
    id in t.versions && t.versions[id].packageId == packageId && t.versions[id].version == version
  }

  predicate IsVerified(t: Tables, id: nat, versionId: nat) {
    id in t.uploads && t.uploads[id].packageVersionId == versionId && t.uploads[id].status == "verified"
  }

  ghost predicate NoOrg(t: Tables, slug: string) {
    forall o: nat :: !IsOrg(t, o, slug)
  }

  ghost predicate NoPackage(t: Tables, orgId: nat, name: string) {
    forall p: nat :: !IsPackage(t, p, orgId, name)
  }

  ghost predicate NoVersion(t: Tables, packageId: nat, version: string) {
    forall v: nat :: !IsVersion(t, v, packageId, version)
  }

  ghost predicate HasUpload(t: Tables, versionId: nat) {
    exists w: nat :: IsVerified(t, w, versionId)
  }

  // The three rows that a coordinate leads to.
  predicate Locates(t: Tables, slug: string, name: string, version: string, orgId: nat, packageId: nat, versionId: nat) {
    IsOrg(t, orgId, slug) && IsPackage(t, packageId, orgId, name) && IsVersion(t, versionId, packageId, version)
  }

  predicate ImmutableFactsMatch(v: Version, input: PublishInput) {
    && v.versionScheme == input.versionScheme && v.sha256 == input.sha256 && v.sizeBytes == input.sizeBytes
    && v.format == input.format && v.vcsTag == input.vcsTag && v.vcsCommit == input.vcsCommit
    && v.artifactKey == input.artifactKey && v.manifest == input.manifest
  }

  predicate OldIdentityMatches(v: Version, input: RepairInput) {
    && v.sha256 == input.expectedOldSha256 && v.sizeBytes == input.expectedOldSizeBytes
    && v.artifactKey == input.expectedOldArtifactKey && v.format == input.format
    && v.vcsTag == input.vcsTag && v.vcsCommit == input.vcsCommit
  }

  // ---------- Publishing ----------

  function VersionOf(packageId: nat, input: PublishInput): Version {
    Version(packageId, input.version, input.versionScheme, input.sha256, input.sizeBytes, input.format,
            input.vcsTag, input.vcsCommit, input.artifactKey, input.manifest)
  }

  function UploadOf(packageId: nat, versionId: nat, input: PublishInput): Upload {
    Upload(packageId, versionId, "verified", input.artifactKey, input.format, input.sizeBytes, input.sha256,
           input.clientIpHash, input.userAgent)
  }

  function FactOf(versionId: nat, input: PublishInput): AuditFact {
    Mirrored(versionId, input.sha256, input.artifactKey, input.clientIpHash)
  }

  // A new organization takes the given name, or its slug when none is given.
  function OrgName(input: PublishInput): string {
    if input.orgName.Some? && TextParts.Trim(input.orgName.value, IsWhiteSpace) != "" then input.orgName.value else input.orgSlug
  }

  ghost predicate OrgAdopted(t: Tables, orgs: map<nat, Org>, input: PublishInput, id: nat) {
    if id in t.orgs then IsOrg(t, id, input.orgSlug) && orgs == t.orgs
    else
      && NoOrg(t, input.orgSlug) && OrgRowPasses(Org(input.orgSlug, OrgName(input)))
      && orgs == t.orgs[id := Org(input.orgSlug, OrgName(input))]
  }

  ghost predicate PackageAdopted(t: Tables, packages: map<nat, Package>, input: PublishInput, orgId: nat, id: nat) {
    if id in t.packages then
      IsPackage(t, id, orgId, input.packageName) && packages == t.packages[id := t.packages[id].(profile := input.profile)]
    else
      && NoPackage(t, orgId, input.packageName) && PackageRowPasses(Package(orgId, input.packageName, input.profile))
      && packages == t.packages[id := Package(orgId, input.packageName, input.profile)]
  }

  ghost predicate VersionAdopted(t: Tables, versions: map<nat, Version>, audit: seq<AuditFact>, input: PublishInput,
                                 packageId: nat, id: nat, inserted: bool) {
    if inserted then
      && id !in t.versions && NoVersion(t, packageId, input.version)
      && versions == t.versions[id := VersionOf(packageId, input)]
      && audit == t.audit + [FactOf(id, input)]
    else
      && IsVersion(t, id, packageId, input.version) && ImmutableFactsMatch(t.versions[id], input)
      && versions == t.versions && audit == t.audit
  }

  // At most one row is added, and only where the version has no verified upload.
  ghost predicate UploadAdopted(t: Tables, uploads: map<nat, Upload>, input: PublishInput, packageId: nat, versionId: nat) {
    if HasUpload(t, versionId) then uploads == t.uploads
    else exists w: nat :: w !in t.uploads && uploads == t.uploads[w := UploadOf(packageId, versionId, input)]
  }

  /** An accepted publication takes tables t to u. */
  ghost predicate Adopted(t: Tables, u: Tables, input: PublishInput, r: PublishReceipt) {
    && PublishValid(input)
    && OrgAdopted(t, u.orgs, input, r.orgId)
    && PackageAdopted(t, u.packages, input, r.orgId, r.packageId)
    && VersionAdopted(t, u.versions, u.audit, input, r.packageId, r.packageVersionId, r.inserted)
    && UploadAdopted(t, u.uploads, input, r.packageId, r.packageVersionId)
  }

  /** The version exists with other artifact facts. */
  ghost predicate Conflicts(t: Tables, input: PublishInput) {
    exists o: nat, p: nat, v: nat :: Locates(t, input.orgSlug, input.packageName, input.version, o, p, v) &&
                      !ImmutableFactsMatch(t.versions[v], input)
  }

  // ---------- Repairing ----------

  function RepairedVersion(v: Version, input: RepairInput): Version {
    v.(sha256 := input.replacementSha256, sizeBytes := input.replacementSizeBytes, artifactKey := input.replacementArtifactKey)
  }

  function RepairedUpload(w: Upload, input: RepairInput): Upload {
    w.(sha256 := input.replacementSha256, sizeBytes := input.replacementSizeBytes, storageKey := input.replacementArtifactKey)
  }

  function RepairFact(versionId: nat, input: RepairInput): AuditFact {
    Repaired(versionId, input.expectedOldSha256, input.replacementSha256, input.expectedOldSizeBytes,
             input.replacementSizeBytes, input.expectedOldArtifactKey, input.replacementArtifactKey)
  }

  predicate UploadExpected(w: Upload, input: RepairInput) {
    && w.sha256 == input.expectedOldSha256 && w.sizeBytes == input.expectedOldSizeBytes
    && w.storageKey == input.expectedOldArtifactKey && w.format == input.format
  }

  ghost predicate UploadsRepaired(t: Tables, u: Tables, input: RepairInput, versionId: nat) {
    && u.uploads.Keys == t.uploads.Keys
    && forall w | w in t.uploads ::
      u.uploads[w] == if IsVerified(t, w, versionId) then RepairedUpload(t.uploads[w], input) else t.uploads[w]
  }

  // The verified uploads exist and all carry the expected old identity.
  ghost predicate UploadsExpected(t: Tables, input: RepairInput, versionId: nat) {
    && HasUpload(t, versionId)
    && forall w: nat | IsVerified(t, w, versionId) :: UploadExpected(t.uploads[w], input)
  }

  ghost predicate Repairable(t: Tables, input: RepairInput, versionId: nat) {
    versionId in t.versions && OldIdentityMatches(t.versions[versionId], input) && UploadsExpected(t, input, versionId)
  }

  /** An accepted repair takes tables t to u. */
  ghost predicate Repairs(t: Tables, u: Tables, input: RepairInput, r: RepairReceipt) {
    && RepairValid(input)
    && Locates(t, input.orgSlug, input.packageName, input.version, r.orgId, r.packageId, r.packageVersionId)
    && Repairable(t, input, r.packageVersionId)
    && r.oldSha256 == input.expectedOldSha256 && r.replacementSha256 == input.replacementSha256
    && u.orgs == t.orgs && u.packages == t.packages
    && u.versions == t.versions[r.packageVersionId := RepairedVersion(t.versions[r.packageVersionId], input)]
    && UploadsRepaired(t, u, input, r.packageVersionId)
    && u.audit == t.audit + [RepairFact(r.packageVersionId, input)]
  }

  // ---------- The ledger invariant ----------

  ghost predicate OrgsKeyed(t: Tables) {
    forall a, b | a in t.orgs && b in t.orgs && t.orgs[a].slug == t.orgs[b].slug :: a == b
  }

  ghost predicate PackagesKeyed(t: Tables) {
    && (forall p | p in t.packages :: t.packages[p].orgId in t.orgs)
    && (forall a, b | a in t.packages && b in t.packages && t.packages[a].orgId == t.packages[b].orgId
          && t.packages[a].name == t.packages[b].name :: a == b)
  }

  ghost predicate VersionsKeyed(t: Tables) {
    && (forall v | v in t.versions :: t.versions[v].packageId in t.packages)
    && (forall a, b | a in t.versions && b in t.versions && t.versions[a].packageId == t.versions[b].packageId
          && t.versions[a].version == t.versions[b].version :: a == b)
  }

  /** Each organization, package and version is stored once, under rows that exist. */
  ghost predicate Keyed(t: Tables) {
    OrgsKeyed(t) && PackagesKeyed(t) && VersionsKeyed(t)
  }

  predicate Agrees(w: Upload, v: Version) {
    w.sha256 == v.sha256 && w.sizeBytes == v.sizeBytes && w.storageKey == v.artifactKey && w.format == v.format
  }

  /** Each version has exactly one verified upload, and it agrees on digest, size, key and format. */
  ghost predicate OneUpload(t: Tables) {
    && (forall v | v in t.versions :: HasUpload(t, v))
    && (forall v: nat, a: nat, b: nat | IsVerified(t, a, v) && IsVerified(t, b, v) :: a == b)
    && (forall v: nat, w: nat | IsVerified(t, w, v) :: v in t.versions && Agrees(t.uploads[w], t.versions[v]))
  }

  function FactsOf(audit: seq<AuditFact>, v: nat): seq<AuditFact> {
    if audit == [] then []
    else
      var last := audit[|audit| - 1];
      FactsOf(audit[..|audit| - 1], v) + if last.versionId == v then [last] else []
  }

  function DigestAfter(f: AuditFact): string {
    match f
    case Mirrored(_, sha256, _, _) => sha256
    case Repaired(_, _, sha256, _, _, _, _) => sha256
  }

  function KeyAfter(f: AuditFact): string {
    match f
    case Mirrored(_, _, key, _) => key
    case Repaired(_, _, _, _, _, _, key) => key
  }

  // A repair picks up where the fact before it ended.
  predicate Follows(before: AuditFact, f: AuditFact) {
    && f.Repaired? && f.oldSha256 == DigestAfter(before) && f.oldArtifactKey == KeyAfter(before)
    && f.oldSha256 != f.replacementSha256
    && (before.Repaired? ==> f.oldSizeBytes == before.replacementSizeBytes)
  }

  ghost predicate ChainTo(facts: seq<AuditFact>, v: Version) {
    && facts != [] && facts[0].Mirrored?
    && (forall i | 1 <= i < |facts| :: Follows(facts[i - 1], facts[i]))
    && var last := facts[|facts| - 1];
       DigestAfter(last) == v.sha256 && KeyAfter(last) == v.artifactKey
       && (last.Repaired? ==> last.replacementSizeBytes == v.sizeBytes && v.artifactKey == CanonicalKey(v.sha256, v.format))
  }

  /** The facts about each version lead from its first published digest, repair by repair, to its row. */
  ghost predicate Audited(t: Tables) {
    && (forall v | v in t.versions :: ChainTo(FactsOf(t.audit, v), t.versions[v]))
    && (forall i | 0 <= i < |t.audit| :: t.audit[i].versionId in t.versions)
  }

  /** Every row passes the constraints of its table. */
  ghost predicate Constrained(t: Tables) {
    && (forall o | o in t.orgs :: OrgRowPasses(t.orgs[o]))
    && (forall p | p in t.packages :: PackageRowPasses(t.packages[p]))
    && (forall v | v in t.versions :: VersionRowPasses(t.versions[v]))
    && (forall w | w in t.uploads :: UploadRowPasses(t.uploads[w]))
    && forall i | 0 <= i < |t.audit| :: FactPasses(t.audit[i])
  }

  ghost predicate LedgerInvariant(t: Tables) {
    Keyed(t) && OneUpload(t) && Audited(t) && Constrained(t)
  }

  // ---------- The validator against the constraints ----------

  // What the validator asks beyond the constraints: no blank text, and limits that count bytes where the columns count characters.
  predicate TextsFit(input: PublishInput) {
    && CoordinateFits(input.orgSlug, input.packageName, input.version) && ProvenanceFits(input.vcsTag, input.vcsCommit)
    && !Blank(input.artifactKey)
    && (input.orgName.Some? ==> ByteLength(input.orgName.value) <= 200)
  }

  /** The validator accepts exactly the publications whose texts fit and whose rows pass the constraints, but for
      the form of slug and package name, at which it does not look. */
  lemma PublishValidIff(input: PublishInput, p: nat, v: nat)
    ensures PublishValid(input) <==>
      && TextsFit(input) && ProfilePasses(input.profile)
      && VersionRowPasses(VersionOf(p, input)) && UploadRowPasses(UploadOf(p, v, input)) && FactPasses(FactOf(v, input))
  {
    EnumerationsIff(input.profile.vcs, input.versionScheme, input.format);
    RequiredIff(input.orgSlug, 64);
    RequiredIff(input.packageName, 128);
    RequiredIff(input.version, 128);
    RequiredIff(input.artifactKey, 1024);
    OptionalBounds(input.vcsTag);
    OptionalBounds(input.vcsCommit);
    BytesBoundCharacters(input.version);
    DigestValidatorsIff(input.sha256);
    if input.clientIpHash.Some? { DigestValidatorsIff(input.clientIpHash.value); }
    hide RequiredText, ByteLength, LowerHexDigest, HexPattern, Blank, IsWhiteSpace, KnownVcs, KnownScheme, ArchiveFormat,
      VcsPasses, SchemePasses, FormatPasses, StatusPasses;
  }

  lemma EnumerationsIff(vcs: string, scheme: string, format: string)
    ensures KnownVcs(vcs) <==> VcsPasses(vcs)
    ensures KnownScheme(scheme) <==> SchemePasses(scheme)
    ensures ArchiveFormat(format) <==> FormatPasses(format)
    ensures StatusPasses("verified")
  {
    assert "verified" == ["pending", "uploading", "stored", "verified", "failed", "aborted"][3];
    var formats := ["tar.gz", "tar.zst", "zip"];
    assert formats[0] == "tar.gz" && formats[1] == "tar.zst" && formats[2] == "zip";
  }

  /** So of a valid publication only a new organization's slug and a new package's name can be refused by the tables. */
  lemma NewRowsPassIff(input: PublishInput, orgId: nat)
    requires PublishValid(input)
    ensures OrgRowPasses(Org(input.orgSlug, OrgName(input))) <==> SlugPattern(input.orgSlug)
    ensures PackageRowPasses(Package(orgId, input.packageName, input.profile)) <==> NamePattern(input.packageName)
  {
    PublishValidIff(input, 0, 0);
    BytesBoundCharacters(input.orgSlug);
    BytesBoundCharacters(input.packageName);
    RequiredIff(input.orgSlug, 64);
    OptionalBounds(input.orgName);
    if input.orgName.Some? { RequiredIff(input.orgName.value, 200); }
    hide ByteLength, SlugPattern, NamePattern, ProfilePasses, VersionRowPasses, UploadRowPasses, FactPasses, IsWhiteSpace;
  }

  /** The slug of a new organization or the name of a new package does not have the form its column asks for. */
  ghost predicate Unstorable(t: Tables, input: PublishInput) {
    || (NoOrg(t, input.orgSlug) && !SlugPattern(input.orgSlug))
    || ((forall o: nat | IsOrg(t, o, input.orgSlug) :: NoPackage(t, o, input.packageName)) && !NamePattern(input.packageName))
  }

  // Text for one log line: no control character, no white space at either end, within byte limits.
  predicate LogLine(s: string, low: nat, high: nat) {
    && Octets(s, low, high)
    && (s != "" ==> !IsWhiteSpace(s[0]) && !IsWhiteSpace(s[|s| - 1]))
    && forall i | 0 <= i < |s| :: !IsControl(s[i])
  }

  // A coordinate that is not blank, within its byte limits.
  predicate CoordinateFits(slug: string, name: string, version: string) {
    && !Blank(slug) && ByteLength(slug) <= 64 && !Blank(name) && ByteLength(name) <= 128
    && !Blank(version) && ByteLength(version) <= 128
  }

  predicate ProvenanceFits(tag: Option<string>, commit: Option<string>) {
    (tag.Some? ==> ByteLength(tag.value) <= 160) && (commit.Some? ==> ByteLength(commit.value) <= 120)
  }

  /** A repair is valid exactly when it leads from one digest to another under their canonical keys, with positive
      sizes, and says in one clean line each who asks for it and why. */
  lemma RepairValidIff(input: RepairInput)
    ensures RepairValid(input) <==>
      && CoordinateFits(input.orgSlug, input.packageName, input.version) && ProvenanceFits(input.vcsTag, input.vcsCommit)
      && HexPattern(input.expectedOldSha256) && HexPattern(input.replacementSha256)
      && input.expectedOldSha256 != input.replacementSha256
      && input.expectedOldSizeBytes > 0 && input.replacementSizeBytes > 0 && FormatPasses(input.format)
      && input.expectedOldArtifactKey == "artifacts/" + input.expectedOldSha256 + "." + input.format
      && input.replacementArtifactKey == "artifacts/" + input.replacementSha256 + "." + input.format
      && LogLine(input.actorSubject, 1, 256) && LogLine(input.reason, 8, 500)
  {
    EnumerationsIff("git", "semver", input.format);
    RequiredIff(input.orgSlug, 64);
    RequiredIff(input.packageName, 128);
    RequiredIff(input.version, 128);
    DigestValidatorsIff(input.expectedOldSha256);
    DigestValidatorsIff(input.replacementSha256);
    if HexPattern(input.expectedOldSha256) && FormatPasses(input.format) { CanonicalKeyFits(input.expectedOldSha256, input.format); }
    if HexPattern(input.replacementSha256) && FormatPasses(input.format) { CanonicalKeyFits(input.replacementSha256, input.format); }
    LogLineIff(input.actorSubject, 1, 256);
    LogLineIff(input.reason, 8, 500);
    hide RequiredText, ByteLength, LowerHexDigest, HexPattern, FormatPasses, ArchiveFormat, Blank, LogSafe, LogLine;
  }

  lemma LogLineIff(s: string, low: nat, high: nat)
    ensures LogSafe(s, low, high) <==> LogLine(s, low, high)
  {
    TextParts.TrimFixedIff(s, IsWhiteSpace);
    hide ByteLength, IsWhiteSpace, IsControl;
  }

  lemma {:induction false} AsciiBytes(s: string)
    requires forall i | 0 <= i < |s| :: s[i] as int < 0x80
    ensures ByteLength(s) == |s|
  {
    if s != "" { AsciiBytes(s[1..]); }
  }

  // A canonical key is never blank or too long for its column.
  lemma CanonicalKeyFits(sha256: string, format: string)
    requires HexPattern(sha256) && FormatPasses(format)
    ensures RequiredText("artifacts/" + sha256 + "." + format, 1024)
  {
    var key := "artifacts/" + sha256 + "." + format;
    assert |format| <= 7 && forall i | 0 <= i < |format| :: format[i] as int < 0x80;
    AsciiBytes(key);
    RequiredIff(key, 1024);
    assert !IsWhiteSpace(key[0]);
  }

  // ---------- Publications keep the invariant ----------

  lemma AdoptedKeepsOrgs(t: Tables, u: Tables, input: PublishInput, id: nat)
    requires OrgsKeyed(t) && OrgAdopted(t, u.orgs, input, id)
    ensures OrgsKeyed(u) && u.orgs.Keys == t.orgs.Keys + {id}
  {
    assert forall o | o in t.orgs :: IsOrg(t, o, t.orgs[o].slug);
  }

  lemma AdoptedKeepsPackages(t: Tables, u: Tables, input: PublishInput, orgId: nat, id: nat)
    requires PackagesKeyed(t) && PackageAdopted(t, u.packages, input, orgId, id) && u.orgs.Keys == t.orgs.Keys + {orgId}
    ensures PackagesKeyed(u) && u.packages.Keys == t.packages.Keys + {id}
  {
    assert forall p | p in t.packages :: IsPackage(t, p, t.packages[p].orgId, t.packages[p].name);
  }

  lemma AdoptedKeepsVersions(t: Tables, u: Tables, input: PublishInput, packageId: nat, id: nat, inserted: bool)
    requires VersionsKeyed(t) && VersionAdopted(t, u.versions, u.audit, input, packageId, id, inserted)
    requires u.packages.Keys == t.packages.Keys + {packageId}
    ensures VersionsKeyed(u)
  {
    hide ImmutableFactsMatch;
    assert forall v | v in t.versions :: IsVersion(t, v, t.versions[v].packageId, t.versions[v].version);
  }

  lemma AdoptedKeepsKeyed(t: Tables, u: Tables, input: PublishInput, r: PublishReceipt)
    requires Keyed(t) && Adopted(t, u, input, r)
    ensures Keyed(u)
  {
    hide OrgsKeyed, PackagesKeyed, VersionsKeyed, OrgAdopted, PackageAdopted, VersionAdopted, UploadAdopted, PublishValid;
    AdoptedKeepsOrgs(t, u, input, r.orgId);
    AdoptedKeepsPackages(t, u, input, r.orgId, r.packageId);
    AdoptedKeepsVersions(t, u, input, r.packageId, r.packageVersionId, r.inserted);
  }

  lemma AdoptedKeepsUploads(t: Tables, u: Tables, input: PublishInput, r: PublishReceipt)
    requires OneUpload(t) && Adopted(t, u, input, r)
    ensures OneUpload(u)
  {
    hide PublishValid, OrgAdopted, PackageAdopted;
    var id := r.packageVersionId;
    if r.inserted {
      assert !HasUpload(t, id);
      var w: nat :| w !in t.uploads && u.uploads == t.uploads[w := UploadOf(r.packageId, id, input)];
      NewUpload(t, u, r.packageId, id, w, input);
    } else {
      assert HasUpload(t, id);
      assert u.uploads == t.uploads;
      assert forall v: nat, w: nat :: IsVerified(u, w, v) <==> IsVerified(t, w, v);
      forall v | v in u.versions ensures HasUpload(u, v) {
        assert HasUpload(t, v);
      }
    }
  }

  lemma NewUpload(t: Tables, u: Tables, packageId: nat, id: nat, w: nat, input: PublishInput)
    requires OneUpload(t) && id !in t.versions && w !in t.uploads
    requires u.versions == t.versions[id := VersionOf(packageId, input)]
    requires u.uploads == t.uploads[w := UploadOf(packageId, id, input)]
    ensures OneUpload(u)
  {
    assert forall v: nat, x: nat :: IsVerified(u, x, v) <==> IsVerified(t, x, v) || (x == w && v == id);
    forall v | v in u.versions ensures HasUpload(u, v) {
      if v == id {
        assert IsVerified(u, w, v);
      } else {
        assert HasUpload(t, v);
        var x: nat :| IsVerified(t, x, v);
        assert IsVerified(u, x, v);
      }
    }
  }

  lemma FactsOfAppend(audit: seq<AuditFact>, f: AuditFact, v: nat)
    ensures FactsOf(audit + [f], v) == FactsOf(audit, v) + if f.versionId == v then [f] else []
  {
    assert (audit + [f])[..|audit|] == audit;
  }

  lemma {:induction false} NoFactsYet(audit: seq<AuditFact>, v: nat)
    requires forall i | 0 <= i < |audit| :: audit[i].versionId != v
    ensures FactsOf(audit, v) == []
    decreases |audit|
  {
    if audit != [] { NoFactsYet(audit[..|audit| - 1], v); }
  }

  lemma AdoptedKeepsAudit(t: Tables, u: Tables, input: PublishInput, r: PublishReceipt)
    requires Audited(t) && Adopted(t, u, input, r)
    ensures Audited(u)
  {
    hide PublishValid, OrgAdopted, PackageAdopted, UploadAdopted, FactsOf, Follows;
    if r.inserted {
      var f := FactOf(r.packageVersionId, input);
      forall v | v in u.versions ensures ChainTo(FactsOf(u.audit, v), u.versions[v]) {
        FactsOfAppend(t.audit, f, v);
        if v == r.packageVersionId { NoFactsYet(t.audit, v); }
      }
    }
  }

  lemma AdoptedKeepsConstrained(t: Tables, u: Tables, input: PublishInput, r: PublishReceipt)
    requires Constrained(t) && Adopted(t, u, input, r)
    ensures Constrained(u)
  {
    PublishValidIff(input, r.packageId, r.packageVersionId);
    hide OrgRowPasses, VersionRowPasses, UploadRowPasses, FactPasses, ProfilePasses, PublishValid, TextsFit, NamePattern,
      ImmutableFactsMatch, NoOrg, NoPackage, NoVersion;
  }

  lemma AdoptedKeepsInvariant(t: Tables, u: Tables, input: PublishInput, r: PublishReceipt)
    requires LedgerInvariant(t) && Adopted(t, u, input, r)
    ensures LedgerInvariant(u)
  {
    hide Adopted, Keyed, OneUpload, Audited, Constrained;
    AdoptedKeepsConstrained(t, u, input, r);
    AdoptedKeepsKeyed(t, u, input, r);
    AdoptedKeepsUploads(t, u, input, r);
    AdoptedKeepsAudit(t, u, input, r);
  }

  // ---------- Repairs keep the invariant ----------

  lemma RepairsKeepUploads(t: Tables, u: Tables, input: RepairInput, r: RepairReceipt)
    requires OneUpload(t) && Repairs(t, u, input, r)
    ensures OneUpload(u)
  {
    hide RepairValid, Locates, UploadsExpected;
    assert forall v: nat, w: nat :: IsVerified(u, w, v) <==> IsVerified(t, w, v);
    forall v | v in u.versions ensures HasUpload(u, v) {
      assert HasUpload(t, v);
    }
    forall v: nat, w: nat | IsVerified(u, w, v) ensures v in u.versions && Agrees(u.uploads[w], u.versions[v]) {
      assert IsVerified(t, w, v);
    }
  }

  lemma RepairsKeepAudit(t: Tables, u: Tables, input: RepairInput, r: RepairReceipt)
    requires Audited(t) && Repairs(t, u, input, r)
    ensures Audited(u)
  {
    hide Locates, UploadsExpected, UploadsRepaired, FactsOf, LowerHexDigest, CanonicalKey, ArchiveFormat;
    var id, f := r.packageVersionId, RepairFact(r.packageVersionId, input);
    forall v | v in u.versions ensures ChainTo(FactsOf(u.audit, v), u.versions[v]) {
      FactsOfAppend(t.audit, f, v);
      if v == id {
        ChainGrows(FactsOf(t.audit, v), t.versions[v], input, v);
      }
    }
  }

  lemma ChainGrows(facts: seq<AuditFact>, v: Version, input: RepairInput, id: nat)
    requires ChainTo(facts, v) && RepairValid(input) && OldIdentityMatches(v, input)
    ensures ChainTo(facts + [RepairFact(id, input)], RepairedVersion(v, input))
  {
    hide LowerHexDigest, CanonicalKey, ArchiveFormat;
    var more := facts + [RepairFact(id, input)];
    forall i | 1 <= i < |more| ensures Follows(more[i - 1], more[i]) {
      if i < |facts| { assert Follows(facts[i - 1], facts[i]); }
    }
  }

  lemma ReplacedVersionPasses(input: RepairInput, v: Version)
    requires RepairValid(input) && VersionRowPasses(v)
    ensures VersionRowPasses(RepairedVersion(v, input))
  {
    DigestValidatorsIff(input.replacementSha256);
    RequiredIff(input.replacementArtifactKey, 1024);
    hide FormatPasses, SchemePasses, StatusPasses, HashPasses, CanonicalKey, RequiredText, OptionalText, LowerHexDigest, HexPattern,
      ByteLength, LogSafe, ArchiveFormat, Blank, Varchar;
  }

  lemma ReplacedUploadPasses(input: RepairInput, w: Upload)
    requires RepairValid(input) && UploadRowPasses(w)
    ensures UploadRowPasses(RepairedUpload(w, input))
  {
    DigestValidatorsIff(input.replacementSha256);
    RequiredIff(input.replacementArtifactKey, 1024);
    hide FormatPasses, SchemePasses, StatusPasses, HashPasses, CanonicalKey, RequiredText, OptionalText, LowerHexDigest, HexPattern,
      ByteLength, LogSafe, ArchiveFormat, Blank, Varchar;
  }

  lemma RepairsKeepConstrained(t: Tables, u: Tables, input: RepairInput, r: RepairReceipt)
    requires Constrained(t) && Repairs(t, u, input, r)
    ensures Constrained(u)
  {
    hide RepairValid, OrgRowPasses, PackageRowPasses, VersionRowPasses, UploadRowPasses, FactPasses, OldIdentityMatches, UploadsExpected,
      RepairedVersion, RepairedUpload, Locates;
    forall v | v in u.versions ensures VersionRowPasses(u.versions[v]) {
      if v == r.packageVersionId { ReplacedVersionPasses(input, t.versions[v]); }
    }
    forall w | w in u.uploads ensures UploadRowPasses(u.uploads[w]) {
      ReplacedUploadPasses(input, t.uploads[w]);
    }
    RepairFactPasses(r.packageVersionId, input);
  }

  lemma RepairFactPasses(v: nat, input: RepairInput)
    ensures FactPasses(RepairFact(v, input))
  {
  }

  lemma RepairsKeepKeyed(t: Tables, u: Tables, input: RepairInput, r: RepairReceipt)
    requires Keyed(t) && Repairs(t, u, input, r)
    ensures Keyed(u)
  {
    hide RepairValid, UploadsRepaired, UploadsExpected, OldIdentityMatches;
  }

  lemma RepairsKeepInvariant(t: Tables, u: Tables, input: RepairInput, r: RepairReceipt)
    requires LedgerInvariant(t) && Repairs(t, u, input, r)
    ensures LedgerInvariant(u)
  {
    hide Constrained, OneUpload, Audited, Keyed, Repairs;
    RepairsKeepKeyed(t, u, input, r);
    RepairsKeepUploads(t, u, input, r);
    RepairsKeepAudit(t, u, input, r);
    RepairsKeepConstrained(t, u, input, r);
  }

  // ---------- Runs ----------

  datatype Step = Publish(publish: PublishInput, published: PublishReceipt) | Repair(repair: RepairInput, repaired: RepairReceipt) | Refused

  ghost predicate Takes(t: Tables, step: Step, u: Tables) {
    match step
    case Publish(input, r) => Adopted(t, u, input, r)
    case Repair(input, r) => Repairs(t, u, input, r)
    case Refused => u == t
  }

  ghost predicate Run(states: seq<Tables>, steps: seq<Step>) {
    && |states| == |steps| + 1
    && forall i | 0 <= i < |steps| :: Takes(states[i], steps[i], states[i + 1])
  }

  function EmptyTables(): Tables {
    Tables(map[], map[], map[], map[], [])
  }

  lemma TakesKeepsInvariant(t: Tables, step: Step, u: Tables)
    requires LedgerInvariant(t) && Takes(t, step, u)
    ensures LedgerInvariant(u)
  {
    hide LedgerInvariant, Adopted, Repairs;
    match step
    case Publish(input, r) => AdoptedKeepsInvariant(t, u, input, r);
    case Repair(input, r) => RepairsKeepInvariant(t, u, input, r);
    case Refused =>
  }

  /** From empty tables, every state of every run of publications and repairs satisfies the ledger invariant. */
  lemma {:induction false} RunKeepsInvariant(states: seq<Tables>, steps: seq<Step>, i: nat)
    requires Run(states, steps) && states[0] == EmptyTables() && i < |states|
    ensures LedgerInvariant(states[i])
    decreases i
  {
    hide Takes, Keyed, Audited, OneUpload;
    if i == 0 {
      EmptyIsSound();
    } else {
      RunKeepsInvariant(states, steps, i - 1);
      TakesKeepsInvariant(states[i - 1], steps[i - 1], states[i]);
    }
  }

  lemma EmptyIsSound()
    ensures LedgerInvariant(EmptyTables())
  {
  }

  // What no step changes in a version row.
  predicate SameButArtifact(v: Version, w: Version) {
    w == v.(sha256 := w.sha256, sizeBytes := w.sizeBytes, artifactKey := w.artifactKey)
  }

  /** A publication never changes a stored version row; a repair changes the digest, size and key of one. */
  lemma StepKeepsRows(t: Tables, step: Step, u: Tables, v: nat)
    requires Takes(t, step, u) && v in t.versions
    ensures v in u.versions && SameButArtifact(t.versions[v], u.versions[v])
    ensures u.versions[v] != t.versions[v] ==> step.Repair? && step.repaired.packageVersionId == v
  {
    hide OrgAdopted, PackageAdopted, UploadAdopted, PublishValid, RepairValid, UploadsRepaired, UploadsExpected;
  }

  /** Along a run, the facts about a version only grow: its first published digest is never rewritten. */
  lemma {:induction false} RunOnlyAppends(states: seq<Tables>, steps: seq<Step>, i: nat, j: nat, v: nat)
    requires Run(states, steps) && i <= j < |states| && v in states[i].versions
    ensures v in states[j].versions && SameButArtifact(states[i].versions[v], states[j].versions[v])
    ensures FactsOf(states[i].audit, v) <= FactsOf(states[j].audit, v)
    decreases j
  {
    hide Takes, FactsOf;
    if i < j {
      RunOnlyAppends(states, steps, i, j - 1, v);
      var t, u := states[j - 1], states[j];
      StepKeepsRows(t, steps[j - 1], u, v);
      StepAppends(t, steps[j - 1], u, v);
    }
  }

  lemma StepAppends(t: Tables, step: Step, u: Tables, v: nat)
    requires Takes(t, step, u)
    ensures FactsOf(t.audit, v) <= FactsOf(u.audit, v)
  {
    hide OrgAdopted, PackageAdopted, UploadAdopted, PublishValid, RepairValid, UploadsRepaired, Repairable, Locates, FactsOf;
    if |u.audit| > |t.audit| {
      var f := u.audit[|t.audit|];
      assert u.audit == t.audit + [f];
      FactsOfAppend(t.audit, f, v);
    }
  }

  // ---------- What a publication leaves behind ----------

  /** Column by column, the rows that the receipt of a publication names, and its verified upload. */
  ghost predicate Published(u: Tables, input: PublishInput, r: PublishReceipt) {
    && r.orgId in u.orgs && r.packageId in u.packages && r.packageVersionId in u.versions
    && var o, p, v := u.orgs[r.orgId], u.packages[r.packageId], u.versions[r.packageVersionId];
    && o.slug == input.orgSlug
    && p.orgId == r.orgId && p.name == input.packageName && p.profile == input.profile
    && v.packageId == r.packageId && v.version == input.version && v.versionScheme == input.versionScheme
    && v.sha256 == input.sha256 && v.sizeBytes == input.sizeBytes && v.format == input.format
    && v.vcsTag == input.vcsTag && v.vcsCommit == input.vcsCommit && v.artifactKey == input.artifactKey
    && v.manifest == input.manifest
    && HasUpload(u, r.packageVersionId)
    && forall w: nat | IsVerified(u, w, r.packageVersionId) ::
      && u.uploads[w].storageKey == input.artifactKey && u.uploads[w].sha256 == input.sha256
      && u.uploads[w].sizeBytes == input.sizeBytes && u.uploads[w].format == input.format
  }

  /** After every accepted publication, replays included, the receipt names rows that say what was published. */
  lemma AdoptedIsPublished(t: Tables, u: Tables, input: PublishInput, r: PublishReceipt)
    requires LedgerInvariant(t) && Adopted(t, u, input, r)
    ensures Published(u, input, r)
    ensures u.versions[r.packageVersionId] == VersionOf(r.packageId, input)
  {
    AdoptedKeepsInvariant(t, u, input, r);
    PublishedRows(t, u, input, r);
    PublishedUpload(u, r.packageVersionId);
    hide Adopted, LedgerInvariant, HasUpload, IsVerified;
  }

  lemma PublishedUpload(u: Tables, v: nat)
    requires LedgerInvariant(u) && v in u.versions
    ensures HasUpload(u, v)
    ensures forall w: nat | IsVerified(u, w, v) :: Agrees(u.uploads[w], u.versions[v])
  {
    hide Keyed, Constrained, Audited;
  }

  lemma PublishedRows(t: Tables, u: Tables, input: PublishInput, r: PublishReceipt)
    requires Adopted(t, u, input, r)
    ensures r.orgId in u.orgs && u.orgs[r.orgId].slug == input.orgSlug
    ensures r.packageId in u.packages && u.packages[r.packageId] == Package(r.orgId, input.packageName, input.profile)
    ensures r.packageVersionId in u.versions && u.versions[r.packageVersionId] == VersionOf(r.packageId, input)
  {
    hide PublishValid, OrgRowPasses, PackageRowPasses, NoOrg, NoPackage, NoVersion, UploadAdopted;
  }

  /** The first publication of a package leaves one new row of each kind, the organization under the given name
      unless that is blank. */
  lemma FirstPublicationAdds(t: Tables, u: Tables, input: PublishInput, r: PublishReceipt)
    requires LedgerInvariant(t) && Adopted(t, u, input, r) && r.inserted
    ensures u.versions.Keys == t.versions.Keys + {r.packageVersionId} && r.packageVersionId !in t.versions
    ensures r.orgId !in t.orgs ==>
      u.orgs[r.orgId].name == if input.orgName.Some? && !Blank(input.orgName.value) then input.orgName.value else input.orgSlug
    ensures exists w: nat :: (
      && w !in t.uploads && u.uploads.Keys == t.uploads.Keys + {w}
      && u.uploads[w].packageVersionId == r.packageVersionId && u.uploads[w].packageId == r.packageId
      && u.uploads[w].clientIpHash == input.clientIpHash && u.uploads[w].userAgent == input.userAgent)
    ensures u.audit == t.audit + [Mirrored(r.packageVersionId, input.sha256, input.artifactKey, input.clientIpHash)]
  {
    hide LedgerInvariant, Blank, IsWhiteSpace;
    VersionAdded(t, u, input, r);
    OrgNamed(t, u, input, r);
    UploadAdded(t, u, input, r);
    hide Adopted;
  }

  lemma VersionAdded(t: Tables, u: Tables, input: PublishInput, r: PublishReceipt)
    requires Adopted(t, u, input, r) && r.inserted
    ensures r.packageVersionId !in t.versions && u.versions == t.versions[r.packageVersionId := VersionOf(r.packageId, input)]
    ensures u.audit == t.audit + [Mirrored(r.packageVersionId, input.sha256, input.artifactKey, input.clientIpHash)]
  {
    hide PublishValid, OrgAdopted, PackageAdopted, UploadAdopted, NoVersion;
  }

  lemma OrgNamed(t: Tables, u: Tables, input: PublishInput, r: PublishReceipt)
    requires Adopted(t, u, input, r)
    ensures r.orgId in u.orgs
    ensures r.orgId !in t.orgs ==>
      u.orgs[r.orgId].name == if input.orgName.Some? && !Blank(input.orgName.value) then input.orgName.value else input.orgSlug
  {
    if input.orgName.Some? { TextParts.TrimBlank(input.orgName.value, IsWhiteSpace); }
    hide PublishValid, OrgRowPasses, PackageAdopted, VersionAdopted, UploadAdopted, NoOrg, IsWhiteSpace;
  }

  lemma UploadAdded(t: Tables, u: Tables, input: PublishInput, r: PublishReceipt)
    requires LedgerInvariant(t) && Adopted(t, u, input, r) && r.packageVersionId !in t.versions
    ensures exists w: nat :: (
      && w !in t.uploads && u.uploads.Keys == t.uploads.Keys + {w}
      && u.uploads[w].packageVersionId == r.packageVersionId && u.uploads[w].packageId == r.packageId
      && u.uploads[w].clientIpHash == input.clientIpHash && u.uploads[w].userAgent == input.userAgent)
  {
    hide PublishValid, OrgAdopted, PackageAdopted, VersionAdopted, Keyed, Audited, Constrained;
    assert !HasUpload(t, r.packageVersionId);
    var w: nat :| w !in t.uploads && u.uploads == t.uploads[w := UploadOf(r.packageId, r.packageVersionId, input)];
    assert u.uploads.Keys == t.uploads.Keys + {w};
  }

  /** A publication leaves everything else alone: it changes no organization, of the packages at most the profile of
      its own, no version, no upload and no audit fact, and adds at most one row to each table. */
  lemma PublicationFrame(t: Tables, u: Tables, input: PublishInput, r: PublishReceipt)
    requires Adopted(t, u, input, r)
    ensures forall o | o in t.orgs :: o in u.orgs && u.orgs[o] == t.orgs[o]
    ensures forall p | p in t.packages && p != r.packageId :: p in u.packages && u.packages[p] == t.packages[p]
    ensures r.packageId in t.packages ==> u.packages[r.packageId] == t.packages[r.packageId].(profile := input.profile)
    ensures forall v | v in t.versions :: v in u.versions && u.versions[v] == t.versions[v]
    ensures forall w | w in t.uploads :: w in u.uploads && u.uploads[w] == t.uploads[w]
    ensures t.audit <= u.audit && |u.audit| == |t.audit| + if r.packageVersionId in t.versions then 0 else 1
    ensures u.orgs.Keys == t.orgs.Keys + {r.orgId} && u.packages.Keys == t.packages.Keys + {r.packageId}
    ensures u.versions.Keys == t.versions.Keys + {r.packageVersionId}
    ensures HasUpload(t, r.packageVersionId) ==> u.uploads == t.uploads
  {
    hide PublishValid, OrgRowPasses, PackageRowPasses, NoOrg, NoPackage, NoVersion, IsVerified, ImmutableFactsMatch;
  }

  /** A publication conflicts with a stored version exactly when the row is not the one it would write itself. */
  lemma ConflictIff(t: Tables, input: PublishInput, o: nat, p: nat, v: nat)
    requires Keyed(t) && Locates(t, input.orgSlug, input.packageName, input.version, o, p, v)
    ensures Conflicts(t, input) <==> t.versions[v] != VersionOf(p, input)
  {
    hide Keyed;
    if Conflicts(t, input) {
      var o2: nat, p2: nat, v2: nat :| Locates(t, input.orgSlug, input.packageName, input.version, o2, p2, v2) &&
                                       !ImmutableFactsMatch(t.versions[v2], input);
      CoordinateUnique(t, input.orgSlug, input.packageName, input.version, o, p, v, o2, p2, v2);
    }
  }

  /** What was just published can be repaired exactly by naming its digest, size, key, format and provenance. */
  lemma PublishedRepairableIff(t: Tables, u: Tables, input: PublishInput, r: PublishReceipt, repair: RepairInput)
    requires LedgerInvariant(t) && Adopted(t, u, input, r)
    requires repair.orgSlug == input.orgSlug && repair.packageName == input.packageName && repair.version == input.version
    ensures RepairTargeted(u, repair) <==>
      && repair.expectedOldSha256 == input.sha256 && repair.expectedOldSizeBytes == input.sizeBytes
      && repair.expectedOldArtifactKey == input.artifactKey && repair.format == input.format
      && repair.vcsTag == input.vcsTag && repair.vcsCommit == input.vcsCommit
  {
    AdoptedKeepsInvariant(t, u, input, r);
    AdoptedIsPublished(t, u, input, r);
    TargetOfPublished(u, repair, r);
    hide Adopted, LedgerInvariant, RepairTargeted, Located, Locates;
    assert UploadsExpected(u, repair, r.packageVersionId) <==>
      forall w: nat | IsVerified(u, w, r.packageVersionId) :: UploadExpected(u.uploads[w], repair);
  }

  lemma TargetOfPublished(u: Tables, repair: RepairInput, r: PublishReceipt)
    requires LedgerInvariant(u) && IsOrg(u, r.orgId, repair.orgSlug) && IsPackage(u, r.packageId, r.orgId, repair.packageName)
    requires IsVersion(u, r.packageVersionId, r.packageId, repair.version)
    ensures RepairTargeted(u, repair) <==> Repairable(u, repair, r.packageVersionId)
  {
    TargetIs(u, repair, r.orgId, r.packageId, r.packageVersionId);
  }

  /** A repair gives the version row and its verified uploads the replacement identity, and leaves the rest as it was. */
  lemma RepairWrites(t: Tables, u: Tables, input: RepairInput, r: RepairReceipt)
    requires LedgerInvariant(t) && Repairs(t, u, input, r)
    ensures var was, v := t.versions[r.packageVersionId], u.versions[r.packageVersionId];
      && v.sha256 == input.replacementSha256 && v.sizeBytes == input.replacementSizeBytes
      && v.artifactKey == input.replacementArtifactKey == CanonicalKey(v.sha256, v.format)
      && SameButArtifact(was, v)
    ensures forall w: nat | IsVerified(u, w, r.packageVersionId) :: Agrees(u.uploads[w], u.versions[r.packageVersionId])
    ensures u.audit == t.audit + [Repaired(r.packageVersionId, t.versions[r.packageVersionId].sha256, input.replacementSha256,
      t.versions[r.packageVersionId].sizeBytes, input.replacementSizeBytes,
      t.versions[r.packageVersionId].artifactKey, input.replacementArtifactKey)]
  {
    RepairsKeepUploads(t, u, input, r);
    hide Keyed, Audited, Constrained, LowerHexDigest, CanonicalKey, ArchiveFormat, RequiredText, OptionalText, LogSafe, UploadsExpected;
  }

  /** It touches nothing else, and its receipt names both digests. */
  lemma RepairFrame(t: Tables, u: Tables, input: RepairInput, r: RepairReceipt)
    requires Repairs(t, u, input, r)
    ensures u.orgs == t.orgs && u.packages == t.packages && u.versions.Keys == t.versions.Keys && u.uploads.Keys == t.uploads.Keys
    ensures forall v | v in t.versions && v != r.packageVersionId :: u.versions[v] == t.versions[v]
    ensures forall w | w in t.uploads && !IsVerified(t, w, r.packageVersionId) :: u.uploads[w] == t.uploads[w]
    ensures r.oldSha256 == t.versions[r.packageVersionId].sha256 && r.replacementSha256 == u.versions[r.packageVersionId].sha256
  {
    hide RepairValid, Locates, UploadsExpected;
  }

  // ---------- Retries and refusals ----------

  lemma CoordinateUnique(t: Tables, slug: string, name: string, version: string, o: nat, p: nat, v: nat, o2: nat, p2: nat, v2: nat)
    requires Keyed(t) && Locates(t, slug, name, version, o, p, v) && Locates(t, slug, name, version, o2, p2, v2)
    ensures o == o2 && p == p2 && v == v2
  {
  }

  /** An accepted publication can be repeated: the retry is accepted, and every accepted retry inserts nothing,
      names the same rows and changes no table. */
  lemma ReplayChangesNothing(t: Tables, u: Tables, input: PublishInput, r: PublishReceipt)
    requires LedgerInvariant(t) && Adopted(t, u, input, r)
    ensures PublishValid(input) && !Conflicts(u, input)
    ensures Adopted(u, u, input, r.(inserted := false))
    ensures forall w, s | Adopted(u, w, input, s) :: s == r.(inserted := false) && w == u
  {
    AdoptedKeepsInvariant(t, u, input, r);
    AdoptedLocates(t, u, input, r);
    RetryAdopted(u, input, r);
    ConflictRefusesIn(u, u, input, r.(inserted := false));
    hide LedgerInvariant, Adopted, PublishValid, Conflicts, Locates;
    forall w, s | Adopted(u, w, input, s) ensures s == r.(inserted := false) && w == u {
      RetryChangesNothing(u, w, input, r, s);
    }
  }

  lemma RetryAdopted(u: Tables, input: PublishInput, r: PublishReceipt)
    requires LedgerInvariant(u) && PublishValid(input)
    requires Locates(u, input.orgSlug, input.packageName, input.version, r.orgId, r.packageId, r.packageVersionId)
    requires ImmutableFactsMatch(u.versions[r.packageVersionId], input) && u.packages[r.packageId].profile == input.profile
    ensures Adopted(u, u, input, r.(inserted := false))
  {
    hide PublishValid, ImmutableFactsMatch, Audited, Keyed;
    assert HasUpload(u, r.packageVersionId);
    assert u.packages[r.packageId := u.packages[r.packageId].(profile := input.profile)] == u.packages;
  }

  lemma RetryChangesNothing(u: Tables, w: Tables, input: PublishInput, r: PublishReceipt, s: PublishReceipt)
    requires LedgerInvariant(u) && Adopted(u, w, input, s)
    requires Locates(u, input.orgSlug, input.packageName, input.version, r.orgId, r.packageId, r.packageVersionId)
    requires u.packages[r.packageId].profile == input.profile
    ensures s == r.(inserted := false) && w == u
  {
    ReplaySameRows(u, w, input, r, s);
    hide PublishValid, LedgerInvariant, Audited, OrgAdopted, PackageAdopted, VersionAdopted;
    assert u.uploads == w.uploads by {
      assert OneUpload(u) by { AdoptedHasUpload(u); }
      assert HasUpload(u, r.packageVersionId);
    }
    assert u == Tables(u.orgs, u.packages, u.versions, u.uploads, u.audit);
    assert w == Tables(w.orgs, w.packages, w.versions, w.uploads, w.audit);
  }

  lemma AdoptedHasUpload(u: Tables)
    requires LedgerInvariant(u)
    ensures OneUpload(u)
  {
    hide OneUpload;
  }

  lemma AdoptedLocates(t: Tables, u: Tables, input: PublishInput, r: PublishReceipt)
    requires Adopted(t, u, input, r)
    ensures Locates(u, input.orgSlug, input.packageName, input.version, r.orgId, r.packageId, r.packageVersionId)
    ensures ImmutableFactsMatch(u.versions[r.packageVersionId], input)
    ensures u.packages[r.packageId].profile == input.profile
  {
    hide PublishValid, UploadAdopted;
  }

  lemma ReplaySameRows(u: Tables, w: Tables, input: PublishInput, r: PublishReceipt, s: PublishReceipt)
    requires LedgerInvariant(u) && Adopted(u, w, input, s)
    requires Locates(u, input.orgSlug, input.packageName, input.version, r.orgId, r.packageId, r.packageVersionId)
    requires u.packages[r.packageId].profile == input.profile
    ensures s == r.(inserted := false)
    ensures w.orgs == u.orgs && w.packages == u.packages && w.versions == u.versions && w.audit == u.audit
  {
    hide PublishValid, UploadAdopted, OneUpload, Audited, ImmutableFactsMatch, Constrained, OrgRowPasses, PackageRowPasses;
    assert s.orgId == r.orgId;
    assert s.packageId == r.packageId;
    assert s.packageVersionId == r.packageVersionId;
    assert u.packages[r.packageId].(profile := input.profile) == u.packages[r.packageId];
  }

  // Steps keep organizations, package names and coordinates.
  lemma StepKeepsCoordinate(t: Tables, step: Step, u: Tables, slug: string, name: string, version: string, o: nat, p: nat, v: nat)
    requires Takes(t, step, u) && Locates(t, slug, name, version, o, p, v)
    ensures Locates(u, slug, name, version, o, p, v)
  {
    StepKeepsRows(t, step, u, v);
    hide UploadAdopted, PublishValid, RepairValid, UploadsRepaired, UploadsExpected, Repairable, VersionAdopted;
  }

  ghost predicate NoRepairOf(steps: seq<Step>, v: nat) {
    forall i | 0 <= i < |steps| :: steps[i].Repair? ==> steps[i].repaired.packageVersionId != v
  }

  lemma {:induction false} UnrepairedRowStays(states: seq<Tables>, steps: seq<Step>, j: nat,
                                             slug: string, name: string, version: string, o: nat, p: nat, v: nat)
    requires Run(states, steps) && j < |states| && NoRepairOf(steps, v)
    requires LedgerInvariant(states[0]) && Locates(states[0], slug, name, version, o, p, v)
    ensures LedgerInvariant(states[j]) && Locates(states[j], slug, name, version, o, p, v)
    ensures states[j].versions[v] == states[0].versions[v]
    decreases j
  {
    hide Takes, LedgerInvariant;
    if j > 0 {
      UnrepairedRowStays(states, steps, j - 1, slug, name, version, o, p, v);
      TakesKeepsInvariant(states[j - 1], steps[j - 1], states[j]);
      StepKeepsCoordinate(states[j - 1], steps[j - 1], states[j], slug, name, version, o, p, v);
      StepKeepsRows(states[j - 1], steps[j - 1], states[j], v);
    }
  }

  lemma RepairedRow(t: Tables, u: Tables, input: RepairInput, r: RepairReceipt)
    requires Repairs(t, u, input, r)
    ensures Locates(u, input.orgSlug, input.packageName, input.version, r.orgId, r.packageId, r.packageVersionId)
    ensures u.versions[r.packageVersionId].sha256 == input.replacementSha256 != input.expectedOldSha256
  {
    hide Repairable, UploadsRepaired, LowerHexDigest, CanonicalKey, ArchiveFormat, RequiredText, OptionalText, LogSafe;
  }

  // A row with another digest than the one named refuses both kinds of request.
  lemma OtherDigestRefuses(u: Tables, former: PublishInput, input: RepairInput, o: nat, p: nat, v: nat)
    requires LedgerInvariant(u) && Locates(u, former.orgSlug, former.packageName, former.version, o, p, v)
    requires former.orgSlug == input.orgSlug && former.packageName == input.packageName && former.version == input.version
    requires u.versions[v].sha256 != former.sha256 && u.versions[v].sha256 != input.expectedOldSha256
    ensures Conflicts(u, former)
    ensures forall w, s :: !Adopted(u, w, former, s)
    ensures forall w, s :: !Repairs(u, w, input, s)
  {
    hide OneUpload, Audited, UploadsRepaired, UploadsExpected, PublishValid, RepairValid;
    forall w, s ensures !Adopted(u, w, former, s) {
      if Adopted(u, w, former, s) { ConflictRefuses(u, w, former, s); }
    }
    forall w, s ensures !Repairs(u, w, input, s) {
      if Repairs(u, w, input, s) {
        CoordinateUnique(u, input.orgSlug, input.packageName, input.version, o, p, v, s.orgId, s.packageId, s.packageVersionId);
      }
    }
  }

  /** Along any run that does not repair the version again, the artifact that a repair replaced can neither be
      published under the version nor can the same repair be applied once more. */
  lemma RepairedArtifactStaysOut(t: Tables, input: RepairInput, r: RepairReceipt, former: PublishInput,
                                 states: seq<Tables>, steps: seq<Step>, j: nat)
    requires Run(states, steps) && j < |states| && NoRepairOf(steps, r.packageVersionId)
    requires LedgerInvariant(t) && Repairs(t, states[0], input, r)
    requires former.orgSlug == input.orgSlug && former.packageName == input.packageName && former.version == input.version
    requires former.sha256 == input.expectedOldSha256
    ensures Conflicts(states[j], former)
    ensures forall w, s :: !Adopted(states[j], w, former, s)
    ensures forall w, s :: !Repairs(states[j], w, input, s)
  {
    RepairsKeepInvariant(t, states[0], input, r);
    RepairedRow(t, states[0], input, r);
    hide *;
    var o, p, v := r.orgId, r.packageId, r.packageVersionId;
    UnrepairedRowStays(states, steps, j, input.orgSlug, input.packageName, input.version, o, p, v);
    OtherDigestRefuses(states[j], former, input, o, p, v);
  }

  // The repair in the opposite direction.
  function Opposite(input: RepairInput): RepairInput {
    input.(expectedOldSha256 := input.replacementSha256, expectedOldSizeBytes := input.replacementSizeBytes,
           expectedOldArtifactKey := input.replacementArtifactKey, replacementSha256 := input.expectedOldSha256,
           replacementSizeBytes := input.expectedOldSizeBytes, replacementArtifactKey := input.expectedOldArtifactKey)
  }

  /** Only a further repair can bring the artifact back, and the opposite one does: it is accepted, and restores
      versions and uploads. */
  lemma OppositeRepairRestores(t: Tables, u: Tables, input: RepairInput, r: RepairReceipt)
    requires LedgerInvariant(t) && Repairs(t, u, input, r)
    ensures RepairValid(Opposite(input)) && RepairTargeted(u, Opposite(input))
    ensures forall w, s | Repairs(u, w, Opposite(input), s) :: w.versions == t.versions && w.uploads == t.uploads
  {
    OppositeRepairable(t, u, input, r);
    OppositeValid(input);
    OppositeLocates(t, u, input, r);
    RepairsKeepInvariant(t, u, input, r);
    hide *;
    forall w, s | Repairs(u, w, Opposite(input), s) ensures w.versions == t.versions && w.uploads == t.uploads {
      SameTarget(u, w, Opposite(input), s, r.orgId, r.packageId, r.packageVersionId);
      RestoredRows(t, u, w, input, r, s);
    }
  }

  lemma OppositeValid(input: RepairInput)
    requires RepairValid(input)
    ensures RepairValid(Opposite(input))
  {
    hide RequiredText, OptionalText, LogSafe, LowerHexDigest, CanonicalKey, ArchiveFormat;
  }

  lemma OppositeLocates(t: Tables, u: Tables, input: RepairInput, r: RepairReceipt)
    requires Repairs(t, u, input, r) && Repairable(u, Opposite(input), r.packageVersionId)
    ensures Locates(u, input.orgSlug, input.packageName, input.version, r.orgId, r.packageId, r.packageVersionId)
    ensures RepairTargeted(u, Opposite(input))
  {
    hide RepairValid, Repairable, UploadsRepaired;
  }

  // A repair of the version at a coordinate has the row found there as its target.
  lemma SameTarget(u: Tables, w: Tables, input: RepairInput, s: RepairReceipt, o: nat, p: nat, v: nat)
    requires LedgerInvariant(u) && Repairs(u, w, input, s)
    requires Locates(u, input.orgSlug, input.packageName, input.version, o, p, v)
    ensures s.packageVersionId == v
  {
    CoordinateUnique(u, input.orgSlug, input.packageName, input.version, o, p, v, s.orgId, s.packageId, s.packageVersionId);
  }

  lemma OppositeRepairable(t: Tables, u: Tables, input: RepairInput, r: RepairReceipt)
    requires Repairs(t, u, input, r)
    ensures Repairable(u, Opposite(input), r.packageVersionId)
  {
    hide RepairValid, Locates;
    var v := r.packageVersionId;
    assert forall w: nat :: IsVerified(u, w, v) <==> IsVerified(t, w, v);
    assert HasUpload(u, v) by { var w: nat :| IsVerified(t, w, v); assert IsVerified(u, w, v); }
  }

  lemma RestoredRows(t: Tables, u: Tables, w: Tables, input: RepairInput, r: RepairReceipt, s: RepairReceipt)
    requires Repairs(t, u, input, r) && Repairs(u, w, Opposite(input), s) && s.packageVersionId == r.packageVersionId
    ensures w.versions == t.versions && w.uploads == t.uploads
  {
    hide RepairValid, Locates;
    var v := r.packageVersionId;
    assert w.versions[v] == t.versions[v];
    forall x | x in t.uploads ensures w.uploads[x] == t.uploads[x] {
      if IsVerified(t, x, v) { assert UploadExpected(t.uploads[x], input) && IsVerified(u, x, v); }
    }
  }

  /** No publication is adopted over a version with other artifact facts. */
  lemma ConflictRefuses(t: Tables, u: Tables, input: PublishInput, r: PublishReceipt)
    requires Keyed(t) && Adopted(t, u, input, r)
    ensures !Conflicts(t, input)
  {
    hide PublishValid, UploadAdopted, ImmutableFactsMatch;
    forall o: nat, p: nat, v: nat | Locates(t, input.orgSlug, input.packageName, input.version, o, p, v)
      ensures ImmutableFactsMatch(t.versions[v], input)
    {
      assert r.orgId == o;
      assert r.packageId == p;
      assert r.packageVersionId == v;
    }
  }

  // ---------- The ledger ----------

  class Ledger {
    var orgs: map<nat, Org>
    var packages: map<nat, Package>
    var versions: map<nat, Version>
    var uploads: map<nat, Upload>
    var audit: seq<AuditFact>

    ghost function State(): Tables
      reads this
    {
      Tables(orgs, packages, versions, uploads, audit)
    }

    constructor ()
      ensures State() == EmptyTables()
    {
      orgs, packages, versions, uploads, audit := map[], map[], map[], map[], [];
    }

    method FindOrg(slug: string) returns (id: Option<nat>)
      ensures if id.Some? then IsOrg(State(), id.value, slug) else NoOrg(State(), slug)
    {
      if o :| o in orgs && orgs[o].slug == slug {
        assert IsOrg(State(), o, slug);
        return Some(o);
      }
      return None;
    }

    method FindPackage(orgId: nat, name: string) returns (id: Option<nat>)
      ensures if id.Some? then IsPackage(State(), id.value, orgId, name) else NoPackage(State(), orgId, name)
    {
      if p :| p in packages && packages[p].orgId == orgId && packages[p].name == name {
        return Some(p);
      }
      return None;
    }

    method FindVersion(packageId: nat, version: string) returns (id: Option<nat>)
      ensures if id.Some? then IsVersion(State(), id.value, packageId, version)
              else NoVersion(State(), packageId, version)
    {
      if v :| v in versions && versions[v].packageId == packageId && versions[v].version == version {
        return Some(v);
      }
      return None;
    }

    // `ok` is false when the table refuses the new row.
    method AdoptOrg(input: PublishInput, newId: nat) returns (ok: bool, id: nat, tx: map<nat, Org>)
      requires newId !in orgs
      ensures ok ==> OrgAdopted(State(), tx, input, id) && (id in orgs || id == newId)
      ensures !ok ==> NoOrg(State(), input.orgSlug) && !OrgRowPasses(Org(input.orgSlug, OrgName(input)))
    {
      hide OrgRowPasses, OrgName;
      var found := FindOrg(input.orgSlug);
      if found.Some? { return true, found.value, orgs; }
      var row := Org(input.orgSlug, OrgName(input));
      return OrgRowPasses(row), newId, orgs[newId := row];
    }

    method AdoptPackage(input: PublishInput, orgId: nat, newId: nat) returns (ok: bool, id: nat, tx: map<nat, Package>)
      requires newId !in packages
      ensures ok ==> PackageAdopted(State(), tx, input, orgId, id) && (id in packages || id == newId)
      ensures !ok ==> NoPackage(State(), orgId, input.packageName)
      ensures !ok ==> !PackageRowPasses(Package(orgId, input.packageName, input.profile))
    {
      hide PackageRowPasses;
      var found := FindPackage(orgId, input.packageName);
      if found.Some? { return true, found.value, packages[found.value := packages[found.value].(profile := input.profile)]; }
      var row := Package(orgId, input.packageName, input.profile);
      return PackageRowPasses(row), newId, packages[newId := row];
    }

    // A retry may meet a version that was committed without its verified upload.
    method BackfillUpload(input: PublishInput, packageId: nat, versionId: nat, newId: nat) returns (tx: map<nat, Upload>)
      requires newId !in uploads
      ensures UploadAdopted(State(), tx, input, packageId, versionId)
    {
      if w :| w in uploads && uploads[w].packageVersionId == versionId && uploads[w].status == "verified" {
        assert IsVerified(State(), w, versionId);
        return uploads;
      }
      return uploads[newId := UploadOf(packageId, versionId, input)];
    }

    /** One publication, in one transaction; a refused one changes nothing. */
    method AdoptMachinePublish(input: PublishInput, ids: NewIds) returns (r: Result<PublishReceipt, LedgerError>)
      requires LedgerInvariant(State())
      requires ids.org !in orgs && ids.package !in packages && ids.version !in versions && ids.upload !in uploads
      modifies this
      ensures LedgerInvariant(State())
      ensures r.Ok? ==> Adopted(old(State()), State(), input, r.value)
      ensures r.Err? ==> State() == old(State())
      ensures r == Err(Policy) <==> !PublishValid(input) || Conflicts(old(State()), input)
      ensures r == Err(Database) <==> PublishValid(input) && Unstorable(old(State()), input)
      ensures r.Ok? ==> Published(State(), input, r.value)
    {
      hide LedgerInvariant, PublishValid, Conflicts, ImmutableFactsMatch, OrgAdopted, PackageAdopted, UploadAdopted, Unstorable,
        OrgRowPasses, PackageRowPasses, NoOrg, NoPackage, Published;
      ghost var t := State();
      if !PublishValid(input) { return Err(Policy); }
      // The transaction works on its own view of the tables.
      var orgOk, orgId, txOrgs := AdoptOrg(input, ids.org);
      if !orgOk {
        SlugRefused(t, input);
        return Err(Database);
      }
      var packageOk, packageId, txPackages := AdoptPackage(input, orgId, ids.package);
      if !packageOk {
        NameRefused(t, input, txOrgs, orgId);
        return Err(Database);
      }
      RowsAccepted(t, input, txOrgs, txPackages, orgId, packageId);
      var existing := FindVersion(packageId, input.version);
      var versionId := if existing.Some? then existing.value else ids.version;
      var txVersions, txAudit := versions, audit;
      if existing.Some? {
        if !ImmutableFactsMatch(versions[versionId], input) {
          ExistingConflict(t, input, txOrgs, txPackages, orgId, packageId, versionId);
          return Err(Policy);
        }
      } else {
        txVersions := txVersions[versionId := VersionOf(packageId, input)];
        txAudit := txAudit + [FactOf(versionId, input)];
      }
      var txUploads := BackfillUpload(input, packageId, versionId, ids.upload);
      orgs, packages, versions, uploads, audit := txOrgs, txPackages, txVersions, txUploads, txAudit;
      r := Ok(PublishReceipt(orgId, packageId, versionId, existing.None?));
      assert Adopted(t, State(), input, r.value);
      AdoptedKeepsInvariant(t, State(), input, r.value);
      ConflictRefusesIn(t, State(), input, r.value);
      AdoptedIsPublished(t, State(), input, r.value);
    }

    method RepairUploads(verified: set<nat>, input: RepairInput) returns (tx: map<nat, Upload>)
      requires verified <= uploads.Keys
      ensures tx.Keys == uploads.Keys
      ensures forall w | w in uploads :: tx[w] == if w in verified then RepairedUpload(uploads[w], input) else uploads[w]
    {
      var rest := verified;
      tx := uploads;
      while rest != {}
        invariant rest <= verified && tx.Keys == uploads.Keys
        invariant forall w | w in uploads ::
          tx[w] == if w in verified - rest then RepairedUpload(uploads[w], input) else uploads[w]
      {
        var w :| w in rest;
        tx := tx[w := RepairedUpload(tx[w], input)];
        rest := rest - {w};
      }
    }

    /** One compare-and-swap repair, in one transaction; a refused one changes nothing. */
    method RepairHistoricalMachinePublishDigest(input: RepairInput) returns (r: Result<RepairReceipt, LedgerError>)
      requires LedgerInvariant(State())
      modifies this
      ensures LedgerInvariant(State())
      ensures r.Ok? ==> Repairs(old(State()), State(), input, r.value)
      ensures r.Err? ==> State() == old(State())
      ensures r.Ok? <==> RepairValid(input) && RepairTargeted(old(State()), input)
      ensures r == Err(NotFound) <==> RepairValid(input) && !Located(old(State()), input)
    {
      hide LedgerInvariant, RepairValid, OldIdentityMatches, UploadExpected, RepairTargeted, Located, Locates, NoOrg, NoPackage, NoVersion, IsOrg, IsPackage;
      ghost var t := State();
      if !RepairValid(input) { return Err(Policy); }
      var org := FindOrg(input.orgSlug);
      if org.None? { NoTarget(t, input); return Err(NotFound); }
      var package := FindPackage(org.value, input.packageName);
      if package.None? { NoTargetIn(t, input, org.value); return Err(NotFound); }
      var version := FindVersion(package.value, input.version);
      if version.None? { NoTargetVersion(t, input, org.value, package.value); return Err(NotFound); }
      var id := version.value;
      TargetIs(t, input, org.value, package.value, id);
      if !OldIdentityMatches(versions[id], input) { return Err(Policy); }

      var verified := set w | w in uploads && uploads[w].packageVersionId == id && uploads[w].status == "verified";
      assert forall w: nat :: w in verified <==> IsVerified(t, w, id);
      if verified == {} { return Err(Policy); }
      if w :| w in verified && !UploadExpected(uploads[w], input) { return Err(Policy); }

      var txUploads := RepairUploads(verified, input);
      versions := versions[id := RepairedVersion(versions[id], input)];
      uploads := txUploads;
      audit := audit + [RepairFact(id, input)];
      r := Ok(RepairReceipt(org.value, package.value, id, input.expectedOldSha256, input.replacementSha256));
      assert UploadsRepaired(t, State(), input, id);
      RepairsKeepInvariant(t, State(), input, r.value);
    }
  }

  lemma SlugRefused(t: Tables, input: PublishInput)
    requires PublishValid(input) && NoOrg(t, input.orgSlug) && !OrgRowPasses(Org(input.orgSlug, OrgName(input)))
    ensures Unstorable(t, input) && !Conflicts(t, input)
  {
    NewRowsPassIff(input, 0);
    hide PublishValid, OrgRowPasses, SlugPattern, NamePattern, PackageRowPasses;
  }

  lemma NameRefused(t: Tables, input: PublishInput, orgs: map<nat, Org>, orgId: nat)
    requires LedgerInvariant(t) && PublishValid(input) && OrgAdopted(t, orgs, input, orgId)
    requires NoPackage(t, orgId, input.packageName)
    requires !PackageRowPasses(Package(orgId, input.packageName, input.profile))
    ensures Unstorable(t, input) && !Conflicts(t, input)
  {
    NewRowsPassIff(input, orgId);
    hide PublishValid, OrgRowPasses, SlugPattern, NamePattern, PackageRowPasses, OneUpload, Audited, Constrained;
    forall o: nat | IsOrg(t, o, input.orgSlug) ensures NoPackage(t, o, input.packageName) {
      assert o == orgId;
    }
  }

  lemma RowsAccepted(t: Tables, input: PublishInput, orgs: map<nat, Org>, packages: map<nat, Package>, o: nat, p: nat)
    requires LedgerInvariant(t) && PublishValid(input)
    requires OrgAdopted(t, orgs, input, o) && PackageAdopted(t, packages, input, o, p)
    ensures !Unstorable(t, input)
  {
    NewRowsPassIff(input, o);
    hide PublishValid, SlugPattern, NamePattern, ProfilePasses, Varchar, Octets, OneUpload, Audited;
    if o in t.orgs { assert IsOrg(t, o, input.orgSlug); }
    if p in t.packages { assert IsPackage(t, p, o, input.packageName) && PackageRowPasses(t.packages[p]); }
  }

  // A version row is found only under a package and an organization that are stored.
  lemma ExistingConflict(t: Tables, input: PublishInput, orgs: map<nat, Org>, packages: map<nat, Package>, o: nat, p: nat, v: nat)
    requires LedgerInvariant(t) && IsVersion(t, v, p, input.version) && !ImmutableFactsMatch(t.versions[v], input)
    requires OrgAdopted(t, orgs, input, o) && PackageAdopted(t, packages, input, o, p)
    ensures Conflicts(t, input)
  {
    hide OneUpload, Audited, ImmutableFactsMatch;
    assert Locates(t, input.orgSlug, input.packageName, input.version, o, p, v);
  }

  lemma ConflictRefusesIn(t: Tables, u: Tables, input: PublishInput, r: PublishReceipt)
    requires LedgerInvariant(t) && Adopted(t, u, input, r)
    ensures !Conflicts(t, input)
  {
    ConflictRefuses(t, u, input, r);
  }

  /** A version stands at the coordinate with the expected old identity, in its row and in its verified uploads. */
  ghost predicate RepairTargeted(t: Tables, input: RepairInput) {
    exists o: nat, p: nat, v: nat :: Locates(t, input.orgSlug, input.packageName, input.version, o, p, v) && Repairable(t, input, v)
  }

  /** Some version stands at the coordinate. */
  ghost predicate Located(t: Tables, input: RepairInput) {
    exists o: nat, p: nat, v: nat :: Locates(t, input.orgSlug, input.packageName, input.version, o, p, v)
  }

  lemma NoTarget(t: Tables, input: RepairInput)
    requires NoOrg(t, input.orgSlug)
    ensures !RepairTargeted(t, input) && !Located(t, input)
  {
  }

  lemma NoTargetIn(t: Tables, input: RepairInput, o: nat)
    requires LedgerInvariant(t) && IsOrg(t, o, input.orgSlug) && NoPackage(t, o, input.packageName)
    ensures !RepairTargeted(t, input) && !Located(t, input)
  {
    hide OneUpload, Audited, Repairable;
  }

  lemma NoTargetVersion(t: Tables, input: RepairInput, o: nat, p: nat)
    requires LedgerInvariant(t) && IsOrg(t, o, input.orgSlug) && IsPackage(t, p, o, input.packageName)
    requires NoVersion(t, p, input.version)
    ensures !RepairTargeted(t, input) && !Located(t, input)
  {
    hide OneUpload, Audited, Repairable;
  }

  lemma TargetIs(t: Tables, input: RepairInput, o: nat, p: nat, v: nat)
    requires LedgerInvariant(t) && IsOrg(t, o, input.orgSlug) && IsPackage(t, p, o, input.packageName)
    requires IsVersion(t, v, p, input.version)
    ensures Locates(t, input.orgSlug, input.packageName, input.version, o, p, v)
    ensures RepairTargeted(t, input) <==> Repairable(t, input, v)
    ensures Located(t, input)
  {
    hide OneUpload, Audited, Repairable;
    assert Locates(t, input.orgSlug, input.packageName, input.version, o, p, v);
    if RepairTargeted(t, input) {
      var o2: nat, p2: nat, v2: nat :| Locates(t, input.orgSlug, input.packageName, input.version, o2, p2, v2) && Repairable(t, input, v2);
      CoordinateUnique(t, input.orgSlug, input.packageName, input.version, o, p, v, o2, p2, v2);
    }
  }
}
