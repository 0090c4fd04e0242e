/** Joining the catalogue's credentials with the schema registry and the registry
    of authentic sources. */
module CredentialsCatalogue {
  import opened Wrappers
  import opened Collections

  datatype DataCapability = DataCapability(datasetId: string, userInformation: Option<string>)

  /** An authentic source; `rest` stands for the organization's other members. */
  datatype AuthenticSource = AuthenticSource(
    entityId: string,
    ipaCode: Option<string>,
    organizationName: string,
    rest: string,
    capabilities: seq<DataCapability>)

  datatype Schema = Schema(
    credentialType: string,
    format: string,
    docType: Option<string>,
    vct: Option<string>,
    uri: string,
    integrity: string)

  datatype SourceRef = SourceRef(id: string, datasetId: string)

  /** A catalogued credential; `rest` stands for the members copied as they are. */
  datatype CatalogueCredential = CatalogueCredential(
    credentialType: string,
    name: string,
    sources: Option<seq<SourceRef>>,
    rest: string)

  datatype ApiSource = ApiSource(
    id: string,
    organizationCode: Option<string>,
    organizationName: string,
    userInformation: Option<string>,
    rest: string)

  datatype ApiFormat = ApiFormat(
    configurationId: string,
    docType: Option<string>,
    format: string,
    uri: string,
    integrity: string,
    vct: Option<string>)

  datatype ApiCredential = ApiCredential(
    sources: seq<ApiSource>,
    formats: seq<ApiFormat>,
    name: string,
    credentialType: string,
    rest: string)

  datatype CatalogueError = SourceMissing(id: string) | SchemasMissing(credentialType: string)

  // ------------------------------------------------------------- the algorithm

  /** The first capability of a data set. */
  function FindCapability(capabilities: seq<DataCapability>, datasetId: string): (r: Option<DataCapability>)
    ensures r.Some? ==> exists i :: IsFirstCapability(capabilities, datasetId, i) && capabilities[i] == r.value
    ensures r.None? ==> forall c :: c in capabilities ==> c.datasetId != datasetId
  {
    if capabilities == [] then None
    else if capabilities[0].datasetId == datasetId then
      assert IsFirstCapability(capabilities, datasetId, 0);
      Some(capabilities[0])
    else
      var r := FindCapability(capabilities[1..], datasetId);
      assert r.Some? ==> exists i :: IsFirstCapability(capabilities, datasetId, i) && capabilities[i] == r.value by {
        if r.Some? {
          ghost var i :| IsFirstCapability(capabilities[1..], datasetId, i) && capabilities[1..][i] == r.value;
          assert forall j :: 0 < j < |capabilities| ==> capabilities[j] == capabilities[1..][j - 1];
          assert IsFirstCapability(capabilities, datasetId, i + 1);
        }
      }
      assert forall c :: c in capabilities <==> c == capabilities[0] || c in capabilities[1..];
      r
  }

  function MapSource(source: AuthenticSource, r: SourceRef): ApiSource {
    var capability := FindCapability(source.capabilities, r.datasetId);
    ApiSource(r.id, source.ipaCode, source.organizationName,
              if capability.Some? then capability.value.userInformation else None, source.rest)
  }

  function ResolveAuthSource(sourcesById: map<string, AuthenticSource>, r: SourceRef): Result<ApiSource, CatalogueError> {
    if r.id in sourcesById then Success(MapSource(sourcesById[r.id], r)) else Failure(SourceMissing(r.id))
  }

  /** `+` and `-` become `_`. */
  function Underscored(s: string): (r: string)
    ensures |r| == |s|
    ensures forall i :: 0 <= i < |s| ==> r[i] == if s[i] == '+' || s[i] == '-' then '_' else s[i]
  {
    if s == "" then ""
    else [if s[0] == '+' || s[0] == '-' then '_' else s[0]] + Underscored(s[1..])
  }

  function MapSchema(schema: Schema): ApiFormat {
    ApiFormat(Underscored(schema.format) + "_" + schema.credentialType,
              schema.docType, schema.format, schema.uri, schema.integrity, schema.vct)
  }

  function MapSchemas(schemas: seq<Schema>): (r: seq<ApiFormat>)
    ensures |r| == |schemas| && forall i :: 0 <= i < |r| ==> r[i] == MapSchema(schemas[i])
  {
    seq(|schemas|, i requires 0 <= i < |schemas| => MapSchema(schemas[i]))
  }

  function ResolveFormats(schemasByType: map<string, seq<Schema>>, credentialType: string)
    : Result<seq<ApiFormat>, CatalogueError>
  {
    if credentialType in schemasByType then Success(MapSchemas(schemasByType[credentialType]))
    else Failure(SchemasMissing(credentialType))
  }

  function MapCredential(sourcesById: map<string, AuthenticSource>, schemasByType: map<string, seq<Schema>>,
                         c: CatalogueCredential): Result<ApiCredential, CatalogueError>
  {
    var sources :- MapAll(Refs(c), (r: SourceRef) => ResolveAuthSource(sourcesById, r));
    var formats :- ResolveFormats(schemasByType, c.credentialType);
    Success(ApiCredential(sources, formats, c.name, c.credentialType, c.rest))
  }

  /** The sources a credential refers to; none if the member is missing. */
  function Refs(c: CatalogueCredential): seq<SourceRef> {
    if c.sources.Some? then c.sources.value else []
  }

  /** Indexes both registries and maps the credentials through the indexes. */
  method MapToCredentialsCatalogue(credentials: seq<CatalogueCredential>, sources: seq<AuthenticSource>, schemas: seq<Schema>)
    returns (r: Result<seq<ApiCredential>, CatalogueError>)
    ensures r.Success? <==> forall c :: c in credentials ==> Resolvable(sources, schemas, c)
    ensures r.Success? ==> JoinedByScan(credentials, sources, schemas, r.value)
  {
    var sourcesById := KeyBy(sources, (s: AuthenticSource) => s.entityId);
    var schemasByType := GroupBy(schemas, (s: Schema) => s.credentialType);
    r := MapAll(credentials, (c: CatalogueCredential) => MapCredential(sourcesById, schemasByType, c));
    forall c: CatalogueCredential
      ensures MapCredential(sourcesById, schemasByType, c).Success? <==> Resolvable(sources, schemas, c)
      ensures MapCredential(sourcesById, schemasByType, c).Success? ==>
                IsJoin(sources, schemas, c, MapCredential(sourcesById, schemasByType, c).value)
    {
      IndexesEqualScans(sourcesById, schemasByType, sources, schemas, c);
    }
  }

  // ------------------------------------------------------------- specification

  /** Every source the credential refers to is registered, and its type has a
      schema. */
  ghost predicate Resolvable(sources: seq<AuthenticSource>, schemas: seq<Schema>, c: CatalogueCredential) {
    && (c.sources.Some? ==> forall r :: r in c.sources.value ==> Registered(sources, r.id))
    && HasSchema(schemas, c.credentialType)
  }

  ghost predicate Registered(sources: seq<AuthenticSource>, id: string) {
    exists s :: s in sources && s.entityId == id
  }

  ghost predicate HasSchema(schemas: seq<Schema>, credentialType: string) {
    exists s :: s in schemas && s.credentialType == credentialType
  }

  /** The result is the credential joined by scanning both registries: its formats
      are the schemas of its type in registry order, its sources the last ones
      registered under their ids. */
  ghost predicate IsJoin(sources: seq<AuthenticSource>, schemas: seq<Schema>, c: CatalogueCredential, r: ApiCredential) {
    && r.name == c.name && r.credentialType == c.credentialType && r.rest == c.rest
    && FormatsJoined(Bucket(schemas, (s: Schema) => s.credentialType, c.credentialType), r.formats)
    && (c.sources.None? ==> r.sources == [])
    && (c.sources.Some? ==> SourcesJoined(sources, c.sources.value, r.sources))
  }

  ghost predicate SourcesJoined(sources: seq<AuthenticSource>, refs: seq<SourceRef>, joined: seq<ApiSource>) {
    |joined| == |refs| && forall i :: 0 <= i < |refs| ==> SourceJoined(sources, refs[i], joined[i])
  }

  /** One format per schema, in order: the configuration id is the schema's format,
      with plus and minus replaced, and its type; the rest is the schema's own. */
  ghost predicate FormatsJoined(schemas: seq<Schema>, formats: seq<ApiFormat>) {
    && |formats| == |schemas|
    && forall i :: 0 <= i < |schemas| ==>
         && formats[i].configurationId == Underscored(schemas[i].format) + "_" + schemas[i].credentialType
         && formats[i].docType == schemas[i].docType && formats[i].vct == schemas[i].vct
         && formats[i].format == schemas[i].format
         && formats[i].uri == schemas[i].uri && formats[i].integrity == schemas[i].integrity
  }

  /** The source is the last one registered under the reference's id; the user
      information is that of its first capability for the reference's data set. */
  ghost predicate SourceJoined(sources: seq<AuthenticSource>, r: SourceRef, joined: ApiSource) {
    exists i :: IsLastSource(sources, r.id, i) &&
      var source := sources[i];
      && joined.id == r.id
      && joined.organizationCode == source.ipaCode && joined.organizationName == source.organizationName
      && joined.rest == source.rest
      && InformationOf(source.capabilities, r.datasetId, joined.userInformation)
  }

  ghost predicate IsLastSource(sources: seq<AuthenticSource>, id: string, i: int) {
    && 0 <= i < |sources| && sources[i].entityId == id
    && forall j :: i < j < |sources| ==> sources[j].entityId != id
  }

  ghost predicate InformationOf(capabilities: seq<DataCapability>, datasetId: string, information: Option<string>) {
    (exists i :: IsFirstCapability(capabilities, datasetId, i) && information == capabilities[i].userInformation) ||
    (information == None && forall c :: c in capabilities ==> c.datasetId != datasetId)
  }

  ghost predicate IsFirstCapability(capabilities: seq<DataCapability>, datasetId: string, i: int) {
    && 0 <= i < |capabilities| && capabilities[i].datasetId == datasetId
    && forall j :: 0 <= j < i ==> capabilities[j].datasetId != datasetId
  }

  /** One result per credential, in the catalogue's order. */
  ghost predicate JoinedByScan(credentials: seq<CatalogueCredential>, sources: seq<AuthenticSource>, schemas: seq<Schema>,
                               r: seq<ApiCredential>) {
    && |r| == |credentials|
    && forall i :: 0 <= i < |r| ==> IsJoin(sources, schemas, credentials[i], r[i])
  }

  // ------------------------------------------------------------------- proofs

  lemma SourceByScan(sourcesById: map<string, AuthenticSource>, sources: seq<AuthenticSource>, r: SourceRef)
    requires forall k :: Get(sourcesById, k) == LastWith(sources, (s: AuthenticSource) => s.entityId, k)
    ensures ResolveAuthSource(sourcesById, r).Success? <==> Registered(sources, r.id)
    ensures ResolveAuthSource(sourcesById, r).Success? ==> SourceJoined(sources, r, ResolveAuthSource(sourcesById, r).value)
  {
    var key := (s: AuthenticSource) => s.entityId;
    assert Get(sourcesById, r.id) == LastWith(sources, key, r.id);
    LastWithExists(sources, key, r.id);
    if s :| s in sources && s.entityId == r.id {
      assert key(s) == r.id;
    }
    if LastWith(sources, key, r.id).Some? {
      var i := LastWithAt(sources, key, r.id);
      assert forall j :: i < j < |sources| ==> key(sources[j]) == sources[j].entityId;
      assert IsLastSource(sources, r.id, i);
    }
  }

  lemma SourcesByScan(sourcesById: map<string, AuthenticSource>, sources: seq<AuthenticSource>, refs: seq<SourceRef>)
    requires forall k :: Get(sourcesById, k) == LastWith(sources, (s: AuthenticSource) => s.entityId, k)
    ensures var r := MapAll(refs, (r: SourceRef) => ResolveAuthSource(sourcesById, r));
            && (r.Success? <==> forall r :: r in refs ==> Registered(sources, r.id))
            && (r.Success? ==> |r.value| == |refs|)
            && (r.Success? ==> forall i :: 0 <= i < |refs| ==> SourceJoined(sources, refs[i], r.value[i]))
  {
    forall r
      ensures ResolveAuthSource(sourcesById, r).Success? <==> Registered(sources, r.id)
      ensures ResolveAuthSource(sourcesById, r).Success? ==> SourceJoined(sources, r, ResolveAuthSource(sourcesById, r).value)
    {
      SourceByScan(sourcesById, sources, r);
    }
    assert (forall i :: 0 <= i < |refs| ==> Registered(sources, refs[i].id)) <==> forall r :: r in refs ==> Registered(sources, r.id);
  }

  lemma FormatsByScan(schemasByType: map<string, seq<Schema>>, schemas: seq<Schema>, credentialType: string)
    requires forall k :: Bucket(schemas, (s: Schema) => s.credentialType, k) == if k in schemasByType then schemasByType[k] else []
    requires forall k :: k in schemasByType ==> schemasByType[k] != []
    ensures ResolveFormats(schemasByType, credentialType).Success?
       <==> HasSchema(schemas, credentialType)
    ensures ResolveFormats(schemasByType, credentialType).Success? ==>
              FormatsJoined(Bucket(schemas, (s: Schema) => s.credentialType, credentialType),
                            ResolveFormats(schemasByType, credentialType).value)
  {
    var key := (s: Schema) => s.credentialType;
    assert Bucket(schemas, key, credentialType) == if credentialType in schemasByType then schemasByType[credentialType] else [];
    LastWithExists(schemas, key, credentialType);
    if s :| s in schemas && s.credentialType == credentialType {
      assert key(s) == credentialType;
    }
  }

  /** Going through the indexes joins a credential exactly as scanning does. */
  lemma IndexesEqualScans(sourcesById: map<string, AuthenticSource>, schemasByType: map<string, seq<Schema>>,
                          sources: seq<AuthenticSource>, schemas: seq<Schema>, c: CatalogueCredential)
    requires forall k :: Get(sourcesById, k) == LastWith(sources, (s: AuthenticSource) => s.entityId, k)
    requires forall k :: Bucket(schemas, (s: Schema) => s.credentialType, k) == if k in schemasByType then schemasByType[k] else []
    requires forall k :: k in schemasByType ==> schemasByType[k] != []
    ensures MapCredential(sourcesById, schemasByType, c).Success? <==> Resolvable(sources, schemas, c)
    ensures MapCredential(sourcesById, schemasByType, c).Success? ==>
              IsJoin(sources, schemas, c, MapCredential(sourcesById, schemasByType, c).value)
  {
    FormatsByScan(schemasByType, schemas, c.credentialType);
    SourcesByScan(sourcesById, sources, Refs(c));
  }
}
