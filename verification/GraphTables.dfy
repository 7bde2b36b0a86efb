/** What the stored graph rows say, read column by column, and the constraints their tables put on them. */
module GraphTables {
  import opened GraphAnalysis
  import opened GraphDocument
  import opened GraphProjection
  import opened GraphStore
  import opened TableChecks
  import opened TextLimits
  import opened Wrappers
  import Json

  // ---------- Reading rows back as document edges ----------

  function ReadIdentity(e: Endpoint): Option<Identity> {
    if e.version.None? then None
    else Some(Identity(registryId := e.registryId, org := e.orgSlug, name := e.packageName, version := e.version.value))
  }

  function ReadKind(name: string): Option<DependencyKind> {
    if name == "runtime" then Some(Runtime)
    else if name == "build" then Some(Build)
    else if name == "development" then Some(Development)
    else if name == "peer" then Some(Peer)
    else if name == "tooling" then Some(Tooling)
    else None
  }

  // The list of strings that a JSON array stands for.
  function ReadStrings(v: Json.Value): Option<seq<string>> {
    if v.Array? && forall i | 0 <= i < |v.items| :: v.items[i].String?
    then Some(seq(|v.items|, i requires 0 <= i < |v.items| => v.items[i].text))
    else None
  }

  /** The edge of a resolved graph that a row's columns spell out. */
  function ReadResolved(row: EdgeFacts): Option<ResolvedEdge> {
    var from, to, kind, features := ReadIdentity(row.from), ReadIdentity(row.to), ReadKind(row.dependencyKind), ReadStrings(row.features);
    if from.Some? && to.Some? && kind.Some? && features.Some? then
      Some(ResolvedEdge(from := from.value, to := to.value, requirement := row.requirement, kind := kind.value,
                        optional := row.optional, features := features.value, target := row.target))
    else None
  }

  /** The dependency of a declared graph that a row's columns spell out; its target has no version yet. */
  function ReadDeclared(row: EdgeFacts): Option<DeclaredDependency> {
    var kind, features := ReadKind(row.dependencyKind), ReadStrings(row.features);
    if row.to.version.None? && row.requirement.Some? && kind.Some? && features.Some? then
      Some(DeclaredDependency(registryId := row.to.registryId, org := row.to.orgSlug, name := row.to.packageName,
                              requirement := row.requirement.value, kind := kind.value, optional := row.optional,
                              defaultFeatures := row.defaultFeatures, features := features.value, target := row.target))
    else None
  }

  /** The row reads back as the document's edge at its position. */
  ghost predicate ReadsAs(graph: GraphData, i: nat, row: EdgeFacts) {
    match graph
    case Declared(package, dependencies) =>
      i < |dependencies| && ReadIdentity(row.from) == Some(package) && ReadDeclared(row) == Some(dependencies[i])
    case Resolved(_, _, _, _, edges) =>
      i < |edges| && ReadResolved(row) == Some(edges[i]) && row.defaultFeatures
  }

  lemma KindRoundTrip(kind: DependencyKind, name: string)
    ensures ReadKind(name) == Some(kind) <==> name == KindName(kind)
  {
  }

  lemma StringsRoundTrip(texts: seq<string>, v: Json.Value)
    ensures ReadStrings(v) == Some(texts) <==> v == Json.Strings(texts)
  {
    if ReadStrings(v) == Some(texts) {
      assert v.items == Json.Strings(texts).items;
    }
    if v == Json.Strings(texts) {
      assert ReadStrings(v).value == texts;
    }
  }

  /** The edge comparison accepts a row exactly when the row reads back as the document's edge, so in particular
      it tells the two ends of an edge apart. */
  lemma EdgeMatchesIff(graph: GraphData, i: nat, row: EdgeFacts)
    ensures EdgeMatchesDocument(graph, i, row) <==> ReadsAs(graph, i, row)
  {
    match graph
    case Declared(_, dependencies) =>
      if i < |dependencies| {
        KindRoundTrip(dependencies[i].kind, row.dependencyKind);
        StringsRoundTrip(dependencies[i].features, row.features);
        hide ReadKind, KindName, ReadStrings, Json.Strings;
      }
    case Resolved(_, _, _, _, edges) =>
      if i < |edges| {
        KindRoundTrip(edges[i].kind, row.dependencyKind);
        StringsRoundTrip(edges[i].features, row.features);
        hide ReadKind, KindName, ReadStrings, Json.Strings;
      }
  }

  /** The rows of a stored artifact, in table order, read back as all the edges of its document and nothing else. */
  lemma StoredRowsReadBack(c: Contract, t: Tables, id: nat)
    requires StoreInvariant(c, t) && id in t.artifacts
    ensures var rows, graph := RowsOf(t.rows, id), t.artifacts[id].facts.document.graph;
      && |rows| == EdgeTotal(graph)
      && forall i | 0 <= i < |rows| :: rows[i].ordinal == i && ReadsAs(graph, i, rows[i].facts)
  {
    hide RowsOf, ReadsAs, EdgeMatchesDocument, ColumnsAgree, WithinLimits, EdgeInputValid, RowsAre;
    var edges, p := SoundRows(c, t, id);
    RowsAreFacts(RowsOf(t.rows, id), edges);
    EdgeCount(t.artifacts[id].facts.document.graph, p);
    forall i | 0 <= i < |RowsOf(t.rows, id)| ensures ReadsAs(t.artifacts[id].facts.document.graph, i, RowsOf(t.rows, id)[i].facts) {
      EdgeMatchesIff(t.artifacts[id].facts.document.graph, i, edges[i]);
    }
  }

  lemma RowsAreFacts(rows: seq<EdgeRow>, edges: seq<EdgeFacts>)
    requires RowsAre(rows, edges)
    ensures |rows| == |edges| && forall i | 0 <= i < |rows| :: rows[i].ordinal == i && rows[i].facts == edges[i]
  {
  }

  function EdgeTotal(graph: GraphData): nat {
    if graph.Declared? then |graph.dependencies| else |graph.edges|
  }

  lemma EdgeCount(graph: GraphData, p: Projection)
    requires IsProjection(graph, p)
    ensures |p.edgeDepths| == EdgeTotal(graph)
  {
    hide Admitted;
  }

  lemma SoundRows(c: Contract, t: Tables, id: nat) returns (edges: seq<EdgeFacts>, p: Projection)
    requires StoreInvariant(c, t) && id in t.artifacts
    ensures RowsAre(RowsOf(t.rows, id), edges) && t.artifacts[id].edgeCount == |edges| && t.artifacts[id].sealedAt.Some?
    ensures ColumnsAgree(c, t.artifacts[id].facts) && WithinLimits(c, Input(t.artifacts[id].facts, edges))
    ensures ProjectedBy(t.artifacts[id].facts, edges, p) && EdgesAgree(t.artifacts[id].facts.document.graph, p, edges)
  {
    InvariantParts(c, t);
    hide ColumnsAgree, WithinLimits, RowsAre, RowsOf, StoreInvariant, IsProjection, EdgesAgree;
    edges :| StoredAs(t, id, Input(t.artifacts[id].facts, edges)) && ValidInput(c, Input(t.artifacts[id].facts, edges));
    p :| ProjectedBy(t.artifacts[id].facts, edges, p);
  }

  /** In a stored resolved graph the minimum depth of a row is the depth of the identity its target columns name,
      at least one, and at most one more than the depth of the identity its source columns name. */
  lemma StoredDepthsMean(c: Contract, t: Tables, id: nat, i: nat)
    requires StoreInvariant(c, t) && id in t.artifacts && t.artifacts[id].facts.document.graph.Resolved?
    requires i < |RowsOf(t.rows, id)|
    ensures var graph, row := t.artifacts[id].facts.document.graph, RowsOf(t.rows, id)[i].facts;
      && ReadIdentity(row.from).Some? && ReadIdentity(row.to).Some?
      && (exists d: nat :: Depth(graph.roots, graph.edges, ReadIdentity(row.to).value, d) && row.minimumDepth == if d > 1 then d else 1)
      && forall d: nat | Depth(graph.roots, graph.edges, ReadIdentity(row.from).value, d) :: row.minimumDepth <= d + 1
  {
    var graph, row := t.artifacts[id].facts.document.graph, RowsOf(t.rows, id)[i].facts;
    StoredRowsReadBack(c, t, id);
    var edges, p := SoundRows(c, t, id);
    RowsAreFacts(RowsOf(t.rows, id), edges);
    EdgeCount(graph, p);
    assert row.minimumDepth == p.edgeDepths[i] by { hide RowsOf, StoreInvariant, IsProjection, EdgeMatchesDocument, EdgeInputValid; }
    assert ReadResolved(row) == Some(graph.edges[i]) by { hide RowsOf, StoreInvariant, ReadResolved; }
    hide RowsOf, StoreInvariant, ColumnsAgree, WithinLimits, RowsAre, ProjectedBy, EdgesAgree, ReadsAs;
    ReadEnds(row, graph.edges[i]);
    ProjectedDepth(graph, p, i);
  }

  lemma ReadEnds(row: EdgeFacts, e: ResolvedEdge)
    requires ReadResolved(row) == Some(e)
    ensures ReadIdentity(row.from) == Some(e.from) && ReadIdentity(row.to) == Some(e.to)
  {
  }

  lemma ProjectedDepth(graph: GraphData, p: Projection, i: nat)
    requires graph.Resolved? && IsProjection(graph, p) && i < |graph.edges|
    ensures |p.edgeDepths| == |graph.edges|
    ensures exists d: nat :: Depth(graph.roots, graph.edges, graph.edges[i].to, d) && p.edgeDepths[i] == if d > 1 then d else 1
    ensures forall d: nat | Depth(graph.roots, graph.edges, graph.edges[i].from, d) :: p.edgeDepths[i] <= d + 1
  {
    hide Depth, Admitted;
    assert EdgeDepth(graph.roots, graph.edges, i, p.edgeDepths[i]);
    forall d: nat | Depth(graph.roots, graph.edges, graph.edges[i].from, d) ensures p.edgeDepths[i] <= d + 1 {
      DepthGrowsByOne(graph, p, i, d);
    }
  }

  // ---------- Writing rows from a document ----------

  function EndpointFor(id: Identity): Endpoint {
    Endpoint(registryId := id.registryId, orgSlug := id.org, packageName := id.name, version := Some(id.version),
             packageId := None, packageVersionId := None)
  }

  /** The row of an edge without links to the registry. */
  function RowFor(graph: GraphData, i: nat, depth: nat): EdgeFacts
    requires i < EdgeTotal(graph)
  {
    match graph
    case Declared(package, dependencies) =>
      var d := dependencies[i];
      EdgeFacts(from := EndpointFor(package), to := EndpointFor(Identity(d.registryId, d.org, d.name, "")).(version := None),
                requirement := Some(d.requirement), dependencyKind := KindName(d.kind), optional := d.optional,
                defaultFeatures := d.defaultFeatures, features := Json.Strings(d.features), target := d.target,
                minimumDepth := depth)
    case Resolved(_, _, _, _, edges) =>
      var e := edges[i];
      EdgeFacts(from := EndpointFor(e.from), to := EndpointFor(e.to), requirement := e.requirement,
                dependencyKind := KindName(e.kind), optional := e.optional, defaultFeatures := true,
                features := Json.Strings(e.features), target := e.target, minimumDepth := depth)
  }

  function Unlinked(row: EdgeFacts): EdgeFacts {
    row.(from := row.from.(packageId := None, packageVersionId := None), to := row.to.(packageId := None, packageVersionId := None))
  }

  /** The edges of an input are accepted exactly when they are the rows of the document with its projected depths,
      up to their links to the registry, and fit their columns. */
  lemma EdgesAgreeIff(graph: GraphData, p: Projection, edges: seq<EdgeFacts>)
    requires |p.edgeDepths| == EdgeTotal(graph)
    ensures EdgesAgree(graph, p, edges) <==>
      && |edges| == |p.edgeDepths|
      && forall i: nat | i < |edges| :: EdgeInputValid(edges[i]) && Unlinked(edges[i]) == RowFor(graph, i, p.edgeDepths[i])
  {
    hide EdgeInputValid, EdgeMatchesDocument, RowFor, Unlinked, EdgeTotal;
    if EdgesAgree(graph, p, edges) {
      forall i: nat | i < |edges| ensures EdgeInputValid(edges[i]) && Unlinked(edges[i]) == RowFor(graph, i, p.edgeDepths[i]) {
        MatchesIffRow(graph, i, edges[i], p.edgeDepths[i]);
      }
    } else if |edges| == |p.edgeDepths| {
      var i: nat :| i < |edges| &&
        !(EdgeInputValid(edges[i]) && edges[i].minimumDepth == p.edgeDepths[i] && EdgeMatchesDocument(graph, i, edges[i]));
      MatchesIffRow(graph, i, edges[i], p.edgeDepths[i]);
    }
  }

  lemma MatchesIffRow(graph: GraphData, i: nat, row: EdgeFacts, depth: nat)
    requires i < EdgeTotal(graph)
    ensures row.minimumDepth == depth && EdgeMatchesDocument(graph, i, row) <==> Unlinked(row) == RowFor(graph, i, depth)
  {
    hide KindName, Json.Strings;
  }

  // ---------- Links into the registry ----------

  // The organization and name of a package row, if both are active.
  function PackageCoordinate(r: Registry, packageId: nat): Option<(string, string)> {
    if packageId !in r.packages then None
    else
      var p := r.packages[packageId];
      if p.isSoftDeleted || p.orgId !in r.orgs || r.orgs[p.orgId].isSoftDeleted then None
      else Some((r.orgs[p.orgId].slug, p.name))
  }

  // The coordinate under which a version row is published, if its package and organization are active.
  function Coordinate(r: Registry, versionId: nat): Option<(string, string, string)> {
    if versionId !in r.versions then None
    else
      var v := r.versions[versionId];
      var at := PackageCoordinate(r, v.packageId);
      if at.None? then None else Some((at.value.0, at.value.1, v.version))
  }

  function RootOf(graph: GraphData): Option<Identity> {
    match graph
    case Declared(package, _) => Some(package)
    case Resolved(_, _, roots, _, _) => if roots == [] then None else Some(roots[0])
  }

  /** The root check passes exactly when the root version is active under the document's root coordinate, and
      misses the version or its package exactly when that is so. */
  lemma RootCheckIff(r: Registry, rootVersionId: nat, document: Document)
    ensures var root, at := RootOf(document.graph), Coordinate(r, rootVersionId);
      && (RootCheck(r, rootVersionId, document) == None <==>
           root.Some? && at == Some((root.value.org, root.value.name, root.value.version)))
      && (RootCheck(r, rootVersionId, document) == Some(RootVersionNotFound) <==> rootVersionId !in r.versions)
      && (RootCheck(r, rootVersionId, document) == Some(RootPackageNotFound) <==> rootVersionId in r.versions && at == None)
  {
  }

  /** A link to a version row points at the active version that the endpoint's coordinate names. */
  lemma VersionLinkIff(r: Registry, e: Endpoint)
    requires e.packageId.Some? && e.packageVersionId.Some?
    ensures EndpointLinked(r, e) <==>
      && e.version.Some? && Coordinate(r, e.packageVersionId.value) == Some((e.orgSlug, e.packageName, e.version.value))
      && r.versions[e.packageVersionId.value].packageId == e.packageId.value
  {
  }

  /** A link to a package row alone points at the active package that the endpoint names. */
  lemma PackageLinkIff(r: Registry, e: Endpoint)
    requires e.packageVersionId.None?
    ensures EndpointLinked(r, e) <==>
      (e.packageId.Some? ==> PackageCoordinate(r, e.packageId.value) == Some((e.orgSlug, e.packageName)))
  {
  }

  // ---------- The constraints of the tables ----------

  // What the table asks of a row of its own, apart from its clock readings.
  predicate ArtifactColumnsPass(a: Artifact) {
    var f := a.facts;
    && Varchar(f.graphKind, 16) && (f.graphKind == "declared" || f.graphKind == "resolved")
    && Varchar(f.schemaVersion, 96) && Octets(f.schemaVersion, 1, 96)
    && Varchar(f.graphDigest, 71) && DigestPattern(f.graphDigest)
    && (f.registryCheckpoint.Some? ==> Octets(f.registryCheckpoint.value, 0, 1024))
    && (f.resolverName.Some? ==> Octets(f.resolverName.value, 1, 120))
    && (f.resolverVersion.Some? ==> Octets(f.resolverVersion.value, 1, 120))
    && (f.resolutionInputDigest.Some? ==> DigestPattern(f.resolutionInputDigest.value))
    && f.target.Object? && f.enabledFeatures.Array?
  }

  predicate ArtifactCountsPass(a: Artifact) {
    && a.facts.nodeCount >= 1 && a.edgeCount >= 0 && a.facts.maxDepth >= 0 && a.facts.cycleCount >= 0
    && a.facts.nodeCount <= 50000 && a.edgeCount <= 500000 && a.facts.maxDepth <= a.facts.nodeCount
  }

  predicate ArtifactShapePasses(a: Artifact) {
    var f := a.facts;
    && (f.graphKind == "declared" ==>
      && f.registryCheckpoint.None? && f.target == Json.Object(map[]) && f.enabledFeatures == Json.Array([])
      && f.resolverName.None? && f.resolverVersion.None? && f.resolutionInputDigest.None?)
    && (f.graphKind == "resolved" ==> f.resolverName.Some? && f.resolverVersion.Some? && f.resolutionInputDigest.Some?)
  }

  // The columns that repeat a member of the document.
  predicate DocumentBound(a: Artifact) {
    var f := a.facts;
    && f.document.schema == f.schemaVersion && f.document.graphDigest == Some(f.graphDigest)
    && (if f.document.graph.Declared? then f.graphKind == "declared" else f.graphKind == "resolved")
    && (f.document.graph.Resolved? ==>
      && f.resolverVersion == Some(f.document.graph.resolverVersion)
      && ReadStrings(f.enabledFeatures) == Some(f.document.graph.enabledFeatures))
  }

  predicate ClockPasses(a: Artifact) {
    a.sealedAt.Some? ==> a.createdAt <= a.sealedAt.value
  }

  predicate EndpointPasses(e: Endpoint) {
    && Octets(e.registryId, 1, 512)
    && Varchar(e.orgSlug, 64) && SlugPattern(e.orgSlug) && Varchar(e.packageName, 128) && NamePattern(e.packageName)
    && (e.version.Some? ==> Varchar(e.version.value, 128) && Octets(e.version.value, 1, 128))
    && (e.packageVersionId.Some? ==> e.packageId.Some? && e.version.Some?)
  }

  predicate EdgeRowPasses(row: EdgeRow) {
    && row.ordinal >= 0
    && EndpointPasses(row.facts.from) && EndpointPasses(row.facts.to)
    && (row.facts.requirement.Some? ==> Octets(row.facts.requirement.value, 1, 1024))
    && ReadKind(row.facts.dependencyKind).Some? && Varchar(row.facts.dependencyKind, 16)
    && row.facts.features.Array?
    && (row.facts.target.Some? ==> Octets(row.facts.target.value, 0, 512))
    && row.facts.minimumDepth >= 1
  }

  // Required text fills a column of between one and `maximum` bytes.
  lemma RequiredOctets(s: string, maximum: nat)
    ensures RequiredText(s, maximum) <==> !Blank(s) && Octets(s, 1, maximum)
    ensures Octets(s, 1, maximum) ==> Varchar(s, maximum)
  {
    RequiredIff(s, maximum);
    BytesBoundCharacters(s);
    hide ByteLength, Blank, RequiredText;
  }

  lemma NonEmptyOctets(s: string)
    ensures ByteLength(s) >= 1 <==> s != ""
  {
  }

  lemma EndpointPassesIff(e: Endpoint)
    ensures EndpointFits(e) && LinksComplete(e) <==>
      EndpointPasses(e) && !Blank(e.registryId) && (e.version.Some? ==> !Blank(e.version.value))
  {
    RequiredOctets(e.registryId, 512);
    SlugValidatorsIff(e.orgSlug);
    SlugValidatorsIff(e.packageName);
    if e.version.Some? { RequiredOctets(e.version.value, 128); }
    hide RequiredText, Octets, OrgSlug, PackageName, Blank;
    assert SlugPattern(e.orgSlug) ==> Varchar(e.orgSlug, 64);
    assert NamePattern(e.packageName) ==> Varchar(e.packageName, 128);
  }

  lemma KindPasses(name: string)
    ensures name in {"runtime", "build", "development", "peer", "tooling"} <==> ReadKind(name).Some?
    ensures ReadKind(name).Some? ==> Varchar(name, 16)
  {
  }

  /** Edge columns are accepted exactly when their row passes the constraints and no required text is blank. */
  lemma EdgeInputIff(row: EdgeRow)
    requires row.ordinal >= 0
    ensures EdgeInputValid(row.facts) <==>
      && EdgeRowPasses(row)
      && (forall e | e in [row.facts.from, row.facts.to] :: !Blank(e.registryId) && (e.version.Some? ==> !Blank(e.version.value)))
      && (row.facts.requirement.Some? ==> !Blank(row.facts.requirement.value))
  {
    var ends := [row.facts.from, row.facts.to];
    assert ends[0] == row.facts.from && ends[1] == row.facts.to;
    EndpointPassesIff(row.facts.from);
    EndpointPassesIff(row.facts.to);
    KindPasses(row.facts.dependencyKind);
    if row.facts.requirement.Some? { RequiredOctets(row.facts.requirement.value, 1024); }
    hide EndpointFits, EndpointPasses, RequiredText, LinksComplete, Blank, ReadKind;
  }

  /** Artifact columns are accepted exactly when they pass the constraints and repeat the document, the document
      verifies and has a single root, and no required text is blank. */
  lemma ColumnsAgreeIff(c: Contract, a: Artifact)
    ensures var f := a.facts; ColumnsAgree(c, f) <==>
      && ArtifactColumnsPass(a) && ArtifactShapePasses(a) && DocumentBound(a)
      && c.verifies(f.document) && (f.document.graph.Resolved? ==> |f.document.graph.roots| == 1)
      && !Blank(f.schemaVersion) && (f.registryCheckpoint.Some? ==> !Blank(f.registryCheckpoint.value))
  {
    var f := a.facts;
    ColumnsFitIff(f);
    if f.document.graph.Resolved? { StringsRoundTrip(f.document.graph.enabledFeatures, f.enabledFeatures); }
    hide ColumnsFit, Octets, Varchar, DigestPattern, Blank, ReadStrings, Json.Strings, ByteLength;
  }

  lemma ColumnsFitIff(f: ArtifactFacts)
    ensures ColumnsFit(f) <==>
      && Octets(f.schemaVersion, 1, 96) && !Blank(f.schemaVersion) && DigestPattern(f.graphDigest)
      && (f.resolverName.Some? ==> Octets(f.resolverName.value, 0, 120))
      && (f.resolverVersion.Some? ==> Octets(f.resolverVersion.value, 0, 120))
      && (f.resolutionInputDigest.Some? ==> DigestPattern(f.resolutionInputDigest.value))
      && (f.registryCheckpoint.Some? ==> Octets(f.registryCheckpoint.value, 1, 1024) && !Blank(f.registryCheckpoint.value))
    ensures Octets(f.schemaVersion, 1, 96) ==> Varchar(f.schemaVersion, 96)
    ensures DigestPattern(f.graphDigest) ==> Varchar(f.graphDigest, 71)
    ensures forall s: string :: Octets(s, 1, 120) <==> Octets(s, 0, 120) && s != ""
    ensures forall s: string :: Octets(s, 0, 1024) && !Blank(s) ==> Octets(s, 1, 1024)
  {
    RequiredOctets(f.schemaVersion, 96);
    if f.registryCheckpoint.Some? { RequiredOctets(f.registryCheckpoint.value, 1024); }
    DigestValidatorsIff(f.graphDigest);
    if f.resolutionInputDigest.Some? { DigestValidatorsIff(f.resolutionInputDigest.value); }
    forall s: string ensures Octets(s, 1, 120) <==> Octets(s, 0, 120) && s != "" { NonEmptyOctets(s); }
    forall s: string | Octets(s, 0, 1024) && !Blank(s) ensures Octets(s, 1, 1024) { NonEmptyOctets(s); }
    hide RequiredText, PrefixedDigest, HexPattern, ByteLength, Blank;
  }

  lemma CountsPass(c: Contract, a: Artifact, edges: seq<EdgeFacts>, p: Projection)
    requires WithinLimits(c, Input(a.facts, edges)) && ProjectedBy(a.facts, edges, p) && a.edgeCount == |edges|
    requires c.maxNodes <= 50000 && c.maxEdges <= 500000
    ensures ArtifactCountsPass(a)
  {
    MaxDepthBound(a.facts.document.graph, p);
    hide IsProjection, EdgesAgree;
  }

  /** Under limits no wider than the schema's, every stored artifact and each of its rows pass the constraints of their
      tables, the artifact's clock readings being in order. */
  lemma StoredRowsPass(c: Contract, t: Tables, id: nat)
    requires StoreInvariant(c, t) && id in t.artifacts && c.maxNodes <= 50000 && c.maxEdges <= 500000
    ensures var a := t.artifacts[id];
      ArtifactColumnsPass(a) && ArtifactCountsPass(a) && ArtifactShapePasses(a) && DocumentBound(a)
    ensures forall i | 0 <= i < |RowsOf(t.rows, id)| :: EdgeRowPasses(RowsOf(t.rows, id)[i])
  {
    var edges, p := SoundRows(c, t, id);
    var a, rows := t.artifacts[id], RowsOf(t.rows, id);
    RowsAreFacts(rows, edges);
    ColumnsAgreeIff(c, a);
    CountsPass(c, a, edges, p);
    hide StoreInvariant, RowsOf, ColumnsAgree, WithinLimits, ProjectedBy, EdgeRowPasses, EdgeInputValid, EdgeMatchesDocument,
      ArtifactColumnsPass, ArtifactCountsPass, ArtifactShapePasses, DocumentBound;
    forall i | 0 <= i < |rows| ensures EdgeRowPasses(rows[i]) {
      assert EdgeInputValid(edges[i]);
      EdgeInputIff(rows[i]);
    }
  }

  // No transaction of the history reads an earlier time when it seals than when it creates.
  ghost predicate ClockForward(es: seq<Event>) {
    forall i | 0 <= i < |es| && es[i].Persist? :: es[i].createdAt <= es[i].sealedAt
  }

  lemma PersistClock(c: Contract, t: Tables, e: Event)
    requires e.Persist? && e.createdAt <= e.sealedAt && forall id | id in t.artifacts :: ClockPasses(t.artifacts[id])
    ensures var t' := After(c, t, e); forall id | id in t'.artifacts :: ClockPasses(t'.artifacts[id])
  {
    hide ValidInput, RootCheck, LinksValid, DigestUsed, DeclaredExists, RowsAre, RowsOf;
  }

  lemma {:induction false} HistoryClock(c: Contract, t: Tables, es: seq<Event>, t': Tables)
    requires History(c, t, es, t') && ClockForward(es) && forall id | id in t.artifacts :: ClockPasses(t.artifacts[id])
    ensures forall id | id in t'.artifacts :: ClockPasses(t'.artifacts[id])
    decreases |es|
  {
    hide Persisted, ClockPasses;
    if es != [] {
      if es[0].Persist? { PersistClock(c, t, es[0]); }
      HistoryClock(c, After(c, t, es[0]), es[1..], t');
    }
  }

  /** From empty graph tables, every history leaves only rows that their tables' constraints accept. */
  lemma EveryHistoryPasses(c: Contract, t: Tables, es: seq<Event>, t': Tables, id: nat)
    requires NoGraphs(t) && History(c, t, es, t') && ClockForward(es) && id in t'.artifacts
    requires c.maxNodes <= 50000 && c.maxEdges <= 500000
    ensures var a := t'.artifacts[id];
      ArtifactColumnsPass(a) && ArtifactCountsPass(a) && ArtifactShapePasses(a) && DocumentBound(a) && ClockPasses(a)
    ensures forall i | 0 <= i < |RowsOf(t'.rows, id)| :: EdgeRowPasses(RowsOf(t'.rows, id)[i])
  {
    EveryHistorySound(c, t, es, t');
    HistoryClock(c, t, es, t');
    StoredRowsPass(c, t', id);
  }
}
