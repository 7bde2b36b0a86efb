/** Immutable persistence of dependency graphs (`persist_dependency_graph`). */
module GraphStore {
  import opened GraphDocument
  import opened GraphPolicy
  import opened GraphProjection
  import opened TextLimits
  import opened Wrappers
  import Json

  // ---------- Registry rows the writer reads ----------

  datatype OrgRow = OrgRow(slug: string, isSoftDeleted: bool)
  datatype PackageRow = PackageRow(orgId: nat, name: string, isSoftDeleted: bool)
  datatype VersionRow = VersionRow(packageId: nat, version: string)
  datatype Registry = Registry(orgs: map<nat, OrgRow>, packages: map<nat, PackageRow>, versions: map<nat, VersionRow>)

  // ---------- Graph rows and inputs ----------

  datatype Document = Document(schema: string, graphDigest: Option<string>, graph: GraphData)

  // One side of an edge: its coordinate and the optional registry rows it links to.
  datatype Endpoint = Endpoint(registryId: string, orgSlug: string, packageName: string, version: Option<string>,
                               packageId: Option<nat>, packageVersionId: Option<nat>)

  datatype EdgeFacts = EdgeFacts(
    from: Endpoint, to: Endpoint, requirement: Option<string>, dependencyKind: string, optional: bool,
    defaultFeatures: bool, features: Json.Value, target: Option<string>, minimumDepth: int)

  datatype ArtifactFacts = ArtifactFacts(
    rootVersionId: nat, graphKind: string, schemaVersion: string, graphDigest: string,
    resolverName: Option<string>, resolverVersion: Option<string>, resolutionInputDigest: Option<string>,
    registryCheckpoint: Option<string>, target: Json.Value, enabledFeatures: Json.Value,
    document: Document, nodeCount: int, maxDepth: int, cycleCount: int)

  datatype Input = Input(facts: ArtifactFacts, edges: seq<EdgeFacts>)

  datatype Artifact = Artifact(facts: ArtifactFacts, edgeCount: int, createdAt: nat, sealedAt: Option<nat>)

  datatype EdgeRow = EdgeRow(artifactId: nat, ordinal: int, facts: EdgeFacts)

  datatype Tables = Tables(registry: Registry, artifacts: map<nat, Artifact>, rows: seq<EdgeRow>)

  datatype Receipt = Receipt(artifactId: nat, graphDigest: string, inserted: bool)

  datatype StoreError =
    | InvalidInput
    | RootVersionNotFound
    | RootPackageNotFound
    | RootMismatch
    | EdgeLinkInvalid
    | DigestUnsealed
    | DigestFactsDiffer
    | DigestEdgesDiffer
    | DeclaredAlreadyExists

  /** What the shared interface crate decides: whether a document is in canonical form, within the size
      limit and carries its own digest, and the default node and edge limits. */
  datatype Contract = Contract(verifies: Document -> bool, maxNodes: nat, maxEdges: nat)

  // ---------- Input validation ----------

  function KindName(kind: DependencyKind): string {
    match kind
    case Runtime => "runtime"
    case Build => "build"
    case Development => "development"
    case Peer => "peer"
    case Tooling => "tooling"
  }

  predicate EndpointIs(e: Endpoint, id: Identity) {
    && e.registryId == id.registryId
    && e.orgSlug == id.org
    && e.packageName == id.name
    && e.version == Some(id.version)
  }

  /** The edge row restates the document's edge at the same position (`edge_matches_document`). */
  predicate EdgeMatchesDocument(graph: GraphData, ordinal: nat, edge: EdgeFacts) {
    match graph
    case Declared(package, dependencies) =>
      && ordinal < |dependencies|
      && var d := dependencies[ordinal];
      && EndpointIs(edge.from, package)
      && edge.to.registryId == d.registryId && edge.to.orgSlug == d.org && edge.to.packageName == d.name
      && edge.to.version == None
      && edge.requirement == Some(d.requirement)
      && edge.dependencyKind == KindName(d.kind)
      && edge.optional == d.optional
      && edge.defaultFeatures == d.defaultFeatures
      && edge.features == Json.Strings(d.features)
      && edge.target == d.target
    case Resolved(_, _, _, _, edges) =>
      && ordinal < |edges|
      && var e := edges[ordinal];
      && EndpointIs(edge.from, e.from)
      && EndpointIs(edge.to, e.to)
      && edge.requirement == e.requirement
      && edge.dependencyKind == KindName(e.kind)
      && edge.optional == e.optional
      && edge.defaultFeatures
      && edge.features == Json.Strings(e.features)
      && edge.target == e.target
  }

  predicate LinksComplete(e: Endpoint) {
    e.packageVersionId.Some? ==> e.packageId.Some? && e.version.Some?
  }

  predicate EndpointFits(e: Endpoint) {
    RequiredText(e.registryId, 512) && OrgSlug(e.orgSlug) && PackageName(e.packageName) && OptionalRequired(e.version, 128)
  }

  predicate EdgeInputValid(edge: EdgeFacts) {
    && EndpointFits(edge.from) && EndpointFits(edge.to)
    && OptionalRequired(edge.requirement, 1024)
    && edge.dependencyKind in {"runtime", "build", "development", "peer", "tooling"}
    && edge.features.Array?
    && OptionalText(edge.target, 512)
    && edge.minimumDepth >= 1
    && LinksComplete(edge.from) && LinksComplete(edge.to)
  }

  predicate ColumnsFit(f: ArtifactFacts) {
    && RequiredText(f.schemaVersion, 96)
    && PrefixedDigest(f.graphDigest)
    && OptionalText(f.resolverName, 120)
    && OptionalText(f.resolverVersion, 120)
    && (f.resolutionInputDigest.Some? ==> PrefixedDigest(f.resolutionInputDigest.value))
    && OptionalRequired(f.registryCheckpoint, 1024)
  }

  // Everything checked before the projection is computed.
  predicate ColumnsAgree(c: Contract, f: ArtifactFacts) {
    && (f.graphKind == "declared" || f.graphKind == "resolved")
    && ColumnsFit(f)
    && (f.graphKind == "declared" ==> f.resolverName.None? && f.resolverVersion.None? && f.resolutionInputDigest.None?)
    && (f.graphKind == "resolved" ==>
      && f.resolverName.Some? && f.resolverName.value != ""
      && f.resolverVersion.Some? && f.resolverVersion.value != ""
      && f.resolutionInputDigest.Some?)
    && f.target.Object? && f.enabledFeatures.Array?
    && c.verifies(f.document)
    && f.document.graphDigest == Some(f.graphDigest)
    && f.document.schema == f.schemaVersion
    && match f.document.graph
       case Declared(_, _) =>
         && f.graphKind == "declared"
         && f.registryCheckpoint.None? && f.target == Json.Object(map[]) && f.enabledFeatures == Json.Array([])
       case Resolved(resolverVersion, enabledFeatures, roots, _, _) =>
         && f.graphKind == "resolved"
         && |roots| == 1
         && f.resolverVersion == Some(resolverVersion)
         && f.enabledFeatures == Json.Strings(enabledFeatures)
  }

  predicate WithinLimits(c: Contract, input: Input) {
    1 <= input.facts.nodeCount <= c.maxNodes && |input.edges| <= c.maxEdges && |input.edges| <= I32_MAX
  }

  // The normalized edges restate the document edges with their projected depths.
  predicate EdgesAgree(graph: GraphData, p: Projection, edges: seq<EdgeFacts>) {
    && |edges| == |p.edgeDepths|
    && forall i: nat | i < |edges| ::
      EdgeInputValid(edges[i]) && edges[i].minimumDepth == p.edgeDepths[i] && EdgeMatchesDocument(graph, i, edges[i])
  }

  // The stored counts and edge index are exactly what the document means.
  ghost predicate ProjectedBy(f: ArtifactFacts, edges: seq<EdgeFacts>, p: Projection) {
    && IsProjection(f.document.graph, p)
    && f.nodeCount == p.nodeCount <= I32_MAX
    && f.maxDepth == p.maxDepth
    && f.cycleCount == p.cycleCount
    && EdgesAgree(f.document.graph, p, edges)
  }

  ghost predicate MeansItsDocument(f: ArtifactFacts, edges: seq<EdgeFacts>) {
    exists p :: ProjectedBy(f, edges, p)
  }

  /** The inputs `validate_artifact_input` lets through. */
  ghost predicate ValidInput(c: Contract, input: Input) {
    && ColumnsAgree(c, input.facts)
    && MeansItsDocument(input.facts, input.edges)
    && WithinLimits(c, input)
  }

  // Each normalized edge, against the projected depth and the document's edge at its position.
  method CheckEdges(graph: GraphData, p: Projection, edges: seq<EdgeFacts>) returns (ok: bool)
    ensures ok <==> EdgesAgree(graph, p, edges)
  {
    hide EdgeInputValid, EdgeMatchesDocument;
    if |edges| != |p.edgeDepths| {
      return false;
    }
    for i := 0 to |edges|
      invariant forall k: nat | k < i ::
        EdgeInputValid(edges[k]) && edges[k].minimumDepth == p.edgeDepths[k] && EdgeMatchesDocument(graph, k, edges[k])
    {
      if !EdgeInputValid(edges[i]) || edges[i].minimumDepth != p.edgeDepths[i] || !EdgeMatchesDocument(graph, i, edges[i]) {
        return false;
      }
    }
    return true;
  }

  method ValidateInput(c: Contract, input: Input) returns (ok: bool)
    ensures ok <==> ValidInput(c, input)
  {
    hide IsProjection, ColumnsAgree, EdgesAgree;
    var f := input.facts;
    if !ColumnsAgree(c, f) {
      return false;
    }
    var projected := Project(f.document.graph);
    if projected.Err? {
      forall p ensures !ProjectedBy(f, input.edges, p) {
        assert ProjectedBy(f, input.edges, p) ==> IsProjection(f.document.graph, p) && p.nodeCount <= I32_MAX;
      }
      return false;
    }
    var p := projected.value;
    assert MeansItsDocument(f, input.edges) <==> ProjectedBy(f, input.edges, p) by {
      if q :| ProjectedBy(f, input.edges, q) {
        ProjectionUnique(f.document.graph, p, q);
      }
    }
    if f.nodeCount != p.nodeCount || f.maxDepth != p.maxDepth || f.cycleCount != p.cycleCount {
      return false;
    }
    var agree := CheckEdges(f.document.graph, p, input.edges);
    if !agree {
      return false;
    }
    ok := WithinLimits(c, input);
  }

  // ---------- Registry checks ----------

  predicate RootIdentityIs(r: Registry, v: VersionRow, p: PackageRow, o: OrgRow, id: Identity) {
    id.org == o.slug && id.name == p.name && id.version == v.version
  }

  function RootCheck(r: Registry, rootVersionId: nat, document: Document): (e: Option<StoreError>) {
    if rootVersionId !in r.versions then Some(RootVersionNotFound)
    else
      var v := r.versions[rootVersionId];
      if v.packageId !in r.packages then Some(RootPackageNotFound)
      else
        var p := r.packages[v.packageId];
        if p.orgId !in r.orgs then Some(RootPackageNotFound)
        else
          var o := r.orgs[p.orgId];
          if p.isSoftDeleted || o.isSoftDeleted then Some(RootPackageNotFound)
          else
            var matches := match document.graph
              case Declared(package, _) => RootIdentityIs(r, v, p, o, package)
              case Resolved(_, _, roots, _, _) => |roots| > 0 && RootIdentityIs(r, v, p, o, roots[0]);
            if matches then None else Some(RootMismatch)
  }

  predicate EndpointLinked(r: Registry, e: Endpoint) {
    match e.packageId
    case None => true
    case Some(packageId) =>
      && packageId in r.packages
      && var p := r.packages[packageId];
      && p.orgId in r.orgs
      && var o := r.orgs[p.orgId];
      && !p.isSoftDeleted && !o.isSoftDeleted && p.name == e.packageName && o.slug == e.orgSlug
      && match e.packageVersionId
         case None => true
         case Some(versionId) =>
           && versionId in r.versions
           && r.versions[versionId].packageId == packageId
           && e.version == Some(r.versions[versionId].version)
  }

  predicate LinksValid(r: Registry, edges: seq<EdgeFacts>) {
    forall i | 0 <= i < |edges| :: EndpointLinked(r, edges[i].from) && EndpointLinked(r, edges[i].to)
  }

  // ---------- Reading the edge index back ----------

  /** The rows of one artifact, in table order. */
  function RowsOf(rows: seq<EdgeRow>, id: nat): seq<EdgeRow> {
    if rows == [] then []
    else RowsOf(rows[..|rows| - 1], id) + if rows[|rows| - 1].artifactId == id then [rows[|rows| - 1]] else []
  }

  // Row i carries ordinal i and the i-th edge.
  predicate RowsAre(rows: seq<EdgeRow>, edges: seq<EdgeFacts>) {
    && |rows| == |edges|
    && forall i | 0 <= i < |rows| :: rows[i].ordinal == i && rows[i].facts == edges[i]
  }

  function FreshRows(id: nat, edges: seq<EdgeFacts>): (rows: seq<EdgeRow>)
    ensures RowsAre(rows, edges) && forall i | 0 <= i < |rows| :: rows[i].artifactId == id
  {
    seq(|edges|, i requires 0 <= i < |edges| => EdgeRow(id, i, edges[i]))
  }

  lemma {:induction false} RowsOfAppend(rows: seq<EdgeRow>, more: seq<EdgeRow>, id: nat)
    ensures RowsOf(rows + more, id) == RowsOf(rows, id) + RowsOf(more, id)
  {
    if more == [] {
      assert rows + more == rows;
    } else {
      var last := |more| - 1;
      assert (rows + more)[..|rows + more| - 1] == rows + more[..last];
      RowsOfAppend(rows, more[..last], id);
    }
  }

  lemma {:induction false} RowsOfOne(rows: seq<EdgeRow>, owner: nat, id: nat)
    requires forall i | 0 <= i < |rows| :: rows[i].artifactId == owner
    ensures RowsOf(rows, id) == if id == owner then rows else []
  {
    if rows != [] {
      RowsOfOne(rows[..|rows| - 1], owner, id);
    }
  }

  // ---------- The store and its invariant ----------

  predicate DigestUsed(t: Tables, digest: string) {
    exists id :: id in t.artifacts && t.artifacts[id].facts.graphDigest == digest
  }

  predicate DeclaredExists(t: Tables, rootVersionId: nat) {
    exists id :: id in t.artifacts && t.artifacts[id].facts.rootVersionId == rootVersionId
      && t.artifacts[id].facts.graphKind == "declared"
  }

  // What is stored under id is the input.
  ghost predicate StoredAs(t: Tables, id: nat, input: Input) {
    && id in t.artifacts
    && t.artifacts[id].facts == input.facts
    && t.artifacts[id].edgeCount == |input.edges|
    && RowsAre(RowsOf(t.rows, id), input.edges)
  }

  // The artifact is sealed, and its rows restate its document with exact depths and counts.
  ghost predicate ArtifactSound(c: Contract, t: Tables, id: nat) {
    && id in t.artifacts
    && t.artifacts[id].sealedAt.Some?
    && exists edges: seq<EdgeFacts> :: (
      StoredAs(t, id, Input(t.artifacts[id].facts, edges)) && ValidInput(c, Input(t.artifacts[id].facts, edges)))
  }

  predicate SameDigest(a: Artifact, b: Artifact) {
    a.facts.graphDigest == b.facts.graphDigest
  }

  predicate SameDeclaredRoot(a: Artifact, b: Artifact) {
    a.facts.graphKind == b.facts.graphKind == "declared" && a.facts.rootVersionId == b.facts.rootVersionId
  }

  /** What holds of the graph tables between any two transactions. */
  ghost predicate StoreInvariant(c: Contract, t: Tables) {
    && (forall a, b | a in t.artifacts && b in t.artifacts && SameDigest(t.artifacts[a], t.artifacts[b]) :: a == b)
    && (forall a, b | a in t.artifacts && b in t.artifacts && SameDeclaredRoot(t.artifacts[a], t.artifacts[b]) :: a == b)
    && (forall id | id in t.artifacts :: ArtifactSound(c, t, id))
    && forall i | 0 <= i < |t.rows| :: t.rows[i].artifactId in t.artifacts
  }

  // The artifact the digest lookup returns.
  ghost function ByDigest(t: Tables, digest: string): (id: nat)
    requires DigestUsed(t, digest)
    ensures id in t.artifacts && t.artifacts[id].facts.graphDigest == digest
  {
    var id :| id in t.artifacts && t.artifacts[id].facts.graphDigest == digest;
    id
  }

  function Inserted(t: Tables, input: Input, id: nat, createdAt: nat, sealedAt: nat): Tables {
    t.(artifacts := t.artifacts[id := Artifact(input.facts, |input.edges|, createdAt, Some(sealedAt))],
       rows := t.rows + FreshRows(id, input.edges))
  }

  /** The whole transaction as a function: the tables it commits and what it returns. */
  ghost function Persisted(c: Contract, t: Tables, input: Input, id: nat, createdAt: nat, sealedAt: nat):
      (Tables, Result<Receipt, StoreError>)
  {
    var digest := input.facts.graphDigest;
    if !ValidInput(c, input) then (t, Err(InvalidInput))
    else if RootCheck(t.registry, input.facts.rootVersionId, input.facts.document).Some? then
      (t, Err(RootCheck(t.registry, input.facts.rootVersionId, input.facts.document).value))
    else if !LinksValid(t.registry, input.edges) then (t, Err(EdgeLinkInvalid))
    else if DigestUsed(t, digest) then
      var existing := ByDigest(t, digest);
      if t.artifacts[existing].sealedAt.None? then (t, Err(DigestUnsealed))
      else if t.artifacts[existing].facts != input.facts || t.artifacts[existing].edgeCount != |input.edges| then
        (t, Err(DigestFactsDiffer))
      else if !RowsAre(RowsOf(t.rows, existing), input.edges) then (t, Err(DigestEdgesDiffer))
      else (t, Ok(Receipt(existing, digest, false)))
    else if input.facts.graphKind == "declared" && DeclaredExists(t, input.facts.rootVersionId) then
      (t, Err(DeclaredAlreadyExists))
    else (Inserted(t, input, id, createdAt, sealedAt), Ok(Receipt(id, digest, true)))
  }

  /** The root version and every linked row are present, active and agree with the input. */
  predicate RegistryAgrees(r: Registry, input: Input) {
    RootCheck(r, input.facts.rootVersionId, input.facts.document).None? && LinksValid(r, input.edges)
  }

  lemma RowsOfUnusedId(rows: seq<EdgeRow>, id: nat)
    requires forall i | 0 <= i < |rows| :: rows[i].artifactId != id
    ensures RowsOf(rows, id) == []
  {
  }

  lemma InsertedRows(t: Tables, input: Input, id: nat, createdAt: nat, sealedAt: nat, other: nat)
    requires id !in t.artifacts && forall i | 0 <= i < |t.rows| :: t.rows[i].artifactId in t.artifacts
    ensures RowsOf(Inserted(t, input, id, createdAt, sealedAt).rows, other) ==
      if other == id then FreshRows(id, input.edges) else RowsOf(t.rows, other)
  {
    RowsOfAppend(t.rows, FreshRows(id, input.edges), other);
    RowsOfOne(FreshRows(id, input.edges), id, other);
    if other == id { RowsOfUnusedId(t.rows, id); }
  }

  lemma SoundStays(c: Contract, t: Tables, t': Tables, id: nat)
    requires ArtifactSound(c, t, id) && id in t'.artifacts && t'.artifacts[id] == t.artifacts[id]
    requires RowsOf(t'.rows, id) == RowsOf(t.rows, id)
    ensures ArtifactSound(c, t', id)
  {
    hide ValidInput;
    var edges: seq<EdgeFacts> :| StoredAs(t, id, Input(t.artifacts[id].facts, edges))
      && ValidInput(c, Input(t.artifacts[id].facts, edges));
    assert StoredAs(t', id, Input(t'.artifacts[id].facts, edges));
  }

  lemma InvariantParts(c: Contract, t: Tables)
    requires StoreInvariant(c, t)
    ensures forall id | id in t.artifacts :: ArtifactSound(c, t, id)
    ensures forall i | 0 <= i < |t.rows| :: t.rows[i].artifactId in t.artifacts
  {
    hide ArtifactSound;
  }

  lemma InsertKeepsUnique(c: Contract, t: Tables, input: Input, id: nat, createdAt: nat, sealedAt: nat)
    requires StoreInvariant(c, t) && id !in t.artifacts
    requires !DigestUsed(t, input.facts.graphDigest)
    requires input.facts.graphKind == "declared" ==> !DeclaredExists(t, input.facts.rootVersionId)
    ensures var arts := Inserted(t, input, id, createdAt, sealedAt).artifacts;
      && (forall a, b | a in arts && b in arts && SameDigest(arts[a], arts[b]) :: a == b)
      && (forall a, b | a in arts && b in arts && SameDeclaredRoot(arts[a], arts[b]) :: a == b)
  {
    hide ArtifactSound;
  }

  lemma InsertKeepsInvariant(c: Contract, t: Tables, input: Input, id: nat, createdAt: nat, sealedAt: nat)
    requires StoreInvariant(c, t) && id !in t.artifacts && ValidInput(c, input)
    requires !DigestUsed(t, input.facts.graphDigest)
    requires input.facts.graphKind == "declared" ==> !DeclaredExists(t, input.facts.rootVersionId)
    ensures StoreInvariant(c, Inserted(t, input, id, createdAt, sealedAt))
    ensures StoredAs(Inserted(t, input, id, createdAt, sealedAt), id, input)
  {
    hide ValidInput, RowsOf, DigestUsed, DeclaredExists;
    var t' := Inserted(t, input, id, createdAt, sealedAt);
    InvariantParts(c, t);
    InsertKeepsUnique(c, t, input, id, createdAt, sealedAt);
    InsertedRows(t, input, id, createdAt, sealedAt, id);
    assert input == Input(t'.artifacts[id].facts, input.edges);
    assert ArtifactSound(c, t', id);
    forall other | other in t'.artifacts ensures ArtifactSound(c, t', other) {
      if other != id {
        InsertedRows(t, input, id, createdAt, sealedAt, other);
        SoundStays(c, t, t', other);
      }
    }
    hide ArtifactSound, SameDigest, SameDeclaredRoot;
  }

  /** Every transaction keeps the invariant, whatever it returns. */
  lemma PersistKeepsInvariant(c: Contract, t: Tables, input: Input, id: nat, createdAt: nat, sealedAt: nat)
    requires StoreInvariant(c, t) && id !in t.artifacts
    ensures StoreInvariant(c, Persisted(c, t, input, id, createdAt, sealedAt).0)
  {
    hide ValidInput, StoreInvariant;
    var (t', r) := Persisted(c, t, input, id, createdAt, sealedAt);
    if r.Ok? && r.value.inserted {
      InsertKeepsInvariant(c, t, input, id, createdAt, sealedAt);
    }
  }

  /** No transaction changes an artifact, its rows or the registry, and none is lost. */
  lemma PersistOnlyAdds(c: Contract, t: Tables, input: Input, id: nat, createdAt: nat, sealedAt: nat, other: nat, stored: Input)
    requires StoreInvariant(c, t) && id !in t.artifacts && other in t.artifacts
    ensures var t' := Persisted(c, t, input, id, createdAt, sealedAt).0;
      && t'.registry == t.registry
      && other in t'.artifacts && t'.artifacts[other] == t.artifacts[other]
      && RowsOf(t'.rows, other) == RowsOf(t.rows, other)
      && (StoredAs(t, other, stored) ==> StoredAs(t', other, stored))
  {
    hide ValidInput, ArtifactSound, StoreInvariant, RowsOf, RowsAre, DigestUsed, DeclaredExists;
    InvariantParts(c, t);
    InsertedRows(t, input, id, createdAt, sealedAt, other);
  }

  lemma LookupFinds(c: Contract, t: Tables, digest: string, existing: nat)
    requires StoreInvariant(c, t) && existing in t.artifacts && t.artifacts[existing].facts.graphDigest == digest
    ensures DigestUsed(t, digest) && ByDigest(t, digest) == existing
    ensures ArtifactSound(c, t, existing) && t.artifacts[existing].sealedAt.Some?
  {
    assert SameDigest(t.artifacts[existing], t.artifacts[ByDigest(t, digest)]);
  }

  lemma RootCheckErrors(r: Registry, rootVersionId: nat, document: Document)
    ensures RootCheck(r, rootVersionId, document) != Some(DigestUnsealed)
  {
  }

  /** Reuse of a stored digest changes nothing, and succeeds exactly when the input is the stored one and the
      registry still agrees with it. */
  lemma ReuseIsExactReplay(c: Contract, t: Tables, input: Input, id: nat, createdAt: nat, sealedAt: nat, existing: nat)
    requires StoreInvariant(c, t) && existing in t.artifacts
    requires t.artifacts[existing].facts.graphDigest == input.facts.graphDigest
    ensures var (t', r) := Persisted(c, t, input, id, createdAt, sealedAt);
      && t' == t
      && (r.Ok? <==> RegistryAgrees(t.registry, input) && StoredAs(t, existing, input))
      && (r.Ok? ==> r.value == Receipt(existing, input.facts.graphDigest, false))
      && r != Err(DigestUnsealed)
  {
    hide StoreInvariant, ArtifactSound, ValidInput, RowsOf, RootCheck, LinksValid, RowsAre;
    LookupFinds(c, t, input.facts.graphDigest, existing);
    RootCheckErrors(t.registry, input.facts.rootVersionId, input.facts.document);
    if StoredAs(t, existing, input) {
      StoredInputsAgree(c, t, existing, input);
    }
  }

  lemma StoredInputsAgree(c: Contract, t: Tables, id: nat, input: Input)
    requires ArtifactSound(c, t, id) && StoredAs(t, id, input)
    ensures ValidInput(c, input)
  {
    hide ValidInput;
    var edges: seq<EdgeFacts> :| StoredAs(t, id, Input(t.artifacts[id].facts, edges))
      && ValidInput(c, Input(t.artifacts[id].facts, edges));
    assert edges == input.edges;
    assert Input(t.artifacts[id].facts, edges) == input;
  }

  // No artifact carries the digest, and a declared graph is the first of its root.
  ghost predicate Unclaimed(t: Tables, facts: ArtifactFacts) {
    && (forall a | a in t.artifacts :: t.artifacts[a].facts.graphDigest != facts.graphDigest)
    && (facts.graphKind == "declared" ==> forall a | a in t.artifacts ::
         t.artifacts[a].facts.graphKind == "declared" ==> t.artifacts[a].facts.rootVersionId != facts.rootVersionId)
  }

  /** A transaction succeeds exactly when the input is valid, the registry agrees with it, and it either is stored
      already or claims a new digest and, if declared, a new root. Afterwards it is stored under the id returned;
      on failure nothing changes. */
  lemma PersistSucceedsIff(c: Contract, t: Tables, input: Input, id: nat, createdAt: nat, sealedAt: nat)
    requires StoreInvariant(c, t) && id !in t.artifacts
    ensures var (t', r) := Persisted(c, t, input, id, createdAt, sealedAt);
      && (r.Ok? <==>
           && ValidInput(c, input) && RegistryAgrees(t.registry, input)
           && (Unclaimed(t, input.facts) || exists a :: a in t.artifacts && StoredAs(t, a, input)))
      && (r.Ok? ==> StoredAs(t', r.value.artifactId, input) && r.value.graphDigest == input.facts.graphDigest)
      && (r.Ok? ==> (r.value.inserted <==> r.value.artifactId !in t.artifacts) && (!r.value.inserted ==> t' == t))
      && (r.Err? ==> t' == t)
  {
    if existing :| existing in t.artifacts && t.artifacts[existing].facts.graphDigest == input.facts.graphDigest {
      ReuseIsExactReplay(c, t, input, id, createdAt, sealedAt, existing);
      hide Persisted, RegistryAgrees, ValidInput, RowsOf, RowsAre, ArtifactSound;
      if StoredAs(t, existing, input) { StoredInputsAgree(c, t, existing, input); }
      assert forall a | a in t.artifacts && StoredAs(t, a, input) :: SameDigest(t.artifacts[a], t.artifacts[existing]);
    } else {
      FreshOutcome(c, t, input, id, createdAt, sealedAt);
    }
  }

  lemma FreshOutcome(c: Contract, t: Tables, input: Input, id: nat, createdAt: nat, sealedAt: nat)
    requires StoreInvariant(c, t) && id !in t.artifacts && !DigestUsed(t, input.facts.graphDigest)
    ensures var (t', r) := Persisted(c, t, input, id, createdAt, sealedAt);
      && (r.Ok? <==> ValidInput(c, input) && RegistryAgrees(t.registry, input) && Unclaimed(t, input.facts))
      && (r.Ok? ==> StoredAs(t', id, input) && r.value == Receipt(id, input.facts.graphDigest, true))
      && (r.Err? ==> t' == t)
  {
    hide ValidInput, RootCheck, LinksValid, RowsOf, RowsAre, StoreInvariant;
    assert DeclaredExists(t, input.facts.rootVersionId) <==>
      exists a :: a in t.artifacts && t.artifacts[a].facts.graphKind == "declared" && t.artifacts[a].facts.rootVersionId == input.facts.rootVersionId;
    if Persisted(c, t, input, id, createdAt, sealedAt).1.Ok? { InsertedIsStored(c, t, input, id, createdAt, sealedAt); }
  }

  // ---------- Whole histories ----------

  // Other writers change the registry rows freely; only Persist touches the graph tables.
  datatype Event =
    | Persist(input: Input, freshId: nat, createdAt: nat, sealedAt: nat)
    | RegistryChanges(registry: Registry)

  ghost predicate Allowed(t: Tables, e: Event) {
    e.Persist? ==> e.freshId !in t.artifacts
  }

  ghost function After(c: Contract, t: Tables, e: Event): Tables {
    match e
    case Persist(input, id, createdAt, sealedAt) => Persisted(c, t, input, id, createdAt, sealedAt).0
    case RegistryChanges(registry) => t.(registry := registry)
  }

  // The history es leads from t to t'.
  ghost predicate History(c: Contract, t: Tables, es: seq<Event>, t': Tables)
    decreases |es|
  {
    if es == [] then t' == t
    else Allowed(t, es[0]) && History(c, After(c, t, es[0]), es[1..], t')
  }

  predicate NoGraphs(t: Tables) {
    t.artifacts == map[] && t.rows == []
  }

  lemma RegistryChangeKeeps(c: Contract, t: Tables, registry: Registry)
    requires StoreInvariant(c, t)
    ensures StoreInvariant(c, t.(registry := registry))
  {
    hide ValidInput;
    var t' := t.(registry := registry);
    forall id | id in t'.artifacts ensures ArtifactSound(c, t', id) {
      SoundStays(c, t, t', id);
    }
  }

  lemma {:induction false} HistoryKeepsInvariant(c: Contract, t: Tables, es: seq<Event>, t': Tables)
    requires StoreInvariant(c, t) && History(c, t, es, t')
    ensures StoreInvariant(c, t')
    decreases |es|
  {
    hide StoreInvariant, Persisted;
    if es != [] {
      match es[0] {
        case Persist(input, id, createdAt, sealedAt) => PersistKeepsInvariant(c, t, input, id, createdAt, sealedAt);
        case RegistryChanges(registry) => RegistryChangeKeeps(c, t, registry);
      }
      HistoryKeepsInvariant(c, After(c, t, es[0]), es[1..], t');
    }
  }

  lemma {:induction false} HistoryKeepsStored(c: Contract, t: Tables, es: seq<Event>, t': Tables, id: nat, stored: Input)
    requires StoreInvariant(c, t) && History(c, t, es, t') && StoredAs(t, id, stored)
    ensures StoredAs(t', id, stored) && t'.artifacts[id] == t.artifacts[id]
    decreases |es|
  {
    hide StoreInvariant, Persisted, RowsAre;
    if es != [] {
      match es[0] {
        case Persist(input, newId, createdAt, sealedAt) =>
          PersistOnlyAdds(c, t, input, newId, createdAt, sealedAt, id, stored);
          PersistKeepsInvariant(c, t, input, newId, createdAt, sealedAt);
        case RegistryChanges(registry) => RegistryChangeKeeps(c, t, registry);
      }
      HistoryKeepsStored(c, After(c, t, es[0]), es[1..], t', id, stored);
    }
  }

  /** From empty graph tables, every history leaves one sealed, document-faithful artifact per digest and
      at most one declared artifact per root. */
  lemma EveryHistorySound(c: Contract, t: Tables, es: seq<Event>, t': Tables)
    requires NoGraphs(t) && History(c, t, es, t')
    ensures StoreInvariant(c, t')
  {
    HistoryKeepsInvariant(c, t, es, t');
  }

  /** Once an input has been inserted, then in any later state no reuse of its digest changes anything, and
      exactly the retry of that input with root and links still valid succeeds, with the same artifact. */
  lemma StoredDigestIsFinal(c: Contract, t0: Tables, first: Input, id: nat, created0: nat, sealed0: nat,
                            es: seq<Event>, t: Tables, again: Input, newId: nat, created: nat, sealed: nat)
    requires StoreInvariant(c, t0) && id !in t0.artifacts
    requires Persisted(c, t0, first, id, created0, sealed0).1 == Ok(Receipt(id, first.facts.graphDigest, true))
    requires History(c, Persisted(c, t0, first, id, created0, sealed0).0, es, t)
    requires again.facts.graphDigest == first.facts.graphDigest
    ensures var (t', r) := Persisted(c, t, again, newId, created, sealed);
      && t' == t
      && (r.Ok? <==> again == first && RegistryAgrees(t.registry, again))
      && (r.Ok? ==> r.value == Receipt(id, first.facts.graphDigest, false))
  {
    var t1 := Persisted(c, t0, first, id, created0, sealed0).0;
    InsertedIsStored(c, t0, first, id, created0, sealed0);
    hide StoreInvariant, Persisted, RowsAre, RegistryAgrees;
    HistoryKeepsStored(c, t1, es, t, id, first);
    HistoryKeepsInvariant(c, t1, es, t);
    ReuseIsExactReplay(c, t, again, newId, created, sealed, id);
    if StoredAs(t, id, again) {
      RowsDetermine(RowsOf(t.rows, id), first.edges, again.edges);
    }
  }

  lemma InsertedIsStored(c: Contract, t: Tables, input: Input, id: nat, createdAt: nat, sealedAt: nat)
    requires StoreInvariant(c, t) && id !in t.artifacts
    requires Persisted(c, t, input, id, createdAt, sealedAt).1 == Ok(Receipt(id, input.facts.graphDigest, true))
    ensures var t' := Persisted(c, t, input, id, createdAt, sealedAt).0;
      StoreInvariant(c, t') && StoredAs(t', id, input)
  {
    hide StoreInvariant, ValidInput, RowsOf, RowsAre, RootCheck, LinksValid;
    InsertKeepsInvariant(c, t, input, id, createdAt, sealedAt);
  }

  lemma RowsDetermine(rows: seq<EdgeRow>, a: seq<EdgeFacts>, b: seq<EdgeFacts>)
    requires RowsAre(rows, a) && RowsAre(rows, b)
    ensures a == b
  {
  }

  // ---------- The writer ----------

  class DependencyGraphStore {
    const contract: Contract
    var registry: Registry
    var artifacts: map<nat, Artifact>
    var rows: seq<EdgeRow>

    constructor (c: Contract, r: Registry)
      ensures State() == Tables(r, map[], []) && contract == c
      ensures StoreInvariant(contract, State())
    {
      contract, registry, artifacts, rows := c, r, map[], [];
    }

    ghost function State(): Tables
      reads this
    {
      Tables(registry, artifacts, rows)
    }

    /** One transaction. The two timestamps and the newId id are the clock's and the id generator's. */
    method Persist(input: Input, freshId: nat, createdAt: nat, sealedAt: nat) returns (r: Result<Receipt, StoreError>)
      requires StoreInvariant(contract, State()) && freshId !in artifacts
      modifies this`artifacts, this`rows
      ensures (State(), r) == Persisted(contract, old(State()), input, freshId, createdAt, sealedAt)
      ensures StoreInvariant(contract, State())
    {
      hide StoreInvariant, ValidInput, RowsOf, RowsAre, RootCheck, LinksValid;
      PersistKeepsInvariant(contract, State(), input, freshId, createdAt, sealedAt);
      var valid := ValidateInput(contract, input);
      if !valid {
        return Err(InvalidInput);
      }
      var rootProblem := RootCheck(registry, input.facts.rootVersionId, input.facts.document);
      if rootProblem.Some? {
        return Err(rootProblem.value);
      }
      if !LinksValid(registry, input.edges) {
        return Err(EdgeLinkInvalid);
      }
      var digest := input.facts.graphDigest;
      if existing :| existing in artifacts && artifacts[existing].facts.graphDigest == digest {
        LookupFinds(contract, State(), digest, existing);
        if artifacts[existing].sealedAt.None? {
          return Err(DigestUnsealed);
        }
        if artifacts[existing].facts != input.facts || artifacts[existing].edgeCount != |input.edges| {
          return Err(DigestFactsDiffer);
        }
        if !RowsAre(RowsOf(rows, existing), input.edges) {
          return Err(DigestEdgesDiffer);
        }
        return Ok(Receipt(existing, digest, false));
      }
      if input.facts.graphKind == "declared" {
        if other :| other in artifacts &&
                    artifacts[other].facts.rootVersionId == input.facts.rootVersionId &&
                    artifacts[other].facts.graphKind == "declared" {
          return Err(DeclaredAlreadyExists);
        }
      }
      ghost var before := State();
      artifacts := artifacts[freshId := Artifact(input.facts, |input.edges|, createdAt, None)];
      rows := rows + FreshRows(freshId, input.edges);
      artifacts := artifacts[freshId := artifacts[freshId].(sealedAt := Some(sealedAt))];
      assert State() == Inserted(before, input, freshId, createdAt, sealedAt);
      return Ok(Receipt(freshId, digest, true));
    }
  }
}
