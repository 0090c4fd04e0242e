/** The data of OpenID Federation 1.0 that the trust chain code reads, and the
    foreign code it calls. */
module Federation {
  import opened Wrappers

  /** A public key; `material` stands for the members no function here reads. */
  datatype Jwk = Jwk(kid: Option<string>, x5c: Option<seq<string>>, material: string)

  /** The claims of a decoded token. The members a shape does not guarantee are
      only read after that shape accepted the document. */
  datatype Document = Document(
    kid: string,
    iss: string,
    sub: string,
    keys: seq<Jwk>,
    authorityHints: Option<seq<string>>,
    fetchEndpoint: Option<string>)

  /** The version specific schemas that the factories are configured with. */
  datatype Shapes = Shapes(
    entityConfiguration: Document -> bool,
    entityStatement: Document -> bool,
    first: Document -> bool,
    middle: Document -> bool,
    last: Document -> bool)

  /** JWT decoding, JWT verification and X.509 validation, as they answer. */
  datatype Env = Env(
    shapes: Shapes,
    decode: string -> Option<Document>,
    signatureOk: (string, Jwk) -> bool,
    certificatesOk: (seq<string>, string) -> bool)

  /** What the network serves: entity configurations by entity, statements by
      fetch endpoint and subject, federation lists by list endpoint. */
  datatype Published = Published(
    configurations: map<string, string>,
    statements: map<(string, string), string>,
    lists: map<string, seq<string>>)

  datatype TrustAnchor = TrustAnchor(kid: string, keys: seq<Jwk>, listEndpoint: Option<string>)

  datatype Error =
    | NotFetched(url: string)
    | NotDecoded
    | WrongShape
    | EmptyAuthorityHint
    | MissingFetchEndpoint(entity: string, parent: string)
    | RenewalFailed
    | ChainEmpty
    | TokenMissing(index: nat)
    | UnknownKid(kid: string)
    | BadSignature
    | MissingCertificates
    | BadCertificates
    | AnchorCertificateMissing
    | AnchorKeyMissing
    | AnchorKidMissing
    | TopTokenMissing
    | NotAuthorized

  /** A string that JavaScript treats as present: neither `undefined` nor empty. */
  predicate Truthy(s: Option<string>) {
    s.Some? && s.value != ""
  }

  /** Fetches the self-signed configuration of an entity. */
  function FetchConfiguration(published: Published, url: string): Result<string, Error> {
    if url in published.configurations then Success(published.configurations[url]) else Failure(NotFetched(url))
  }

  /** Fetches the statement about `subject` at a superior's fetch endpoint. */
  function FetchStatement(published: Published, endpoint: string, subject: string): Result<string, Error> {
    if (endpoint, subject) in published.statements
    then Success(published.statements[(endpoint, subject)])
    else Failure(NotFetched(endpoint))
  }

  /** Decodes a token and parses it with a shape. */
  function Parse(env: Env, shape: Document -> bool, token: string): Result<Document, Error> {
    match env.decode(token)
    case None => Failure(NotDecoded)
    case Some(document) => if shape(document) then Success(document) else Failure(WrongShape)
  }

  /** The first key with the given id. */
  function FindKey(keys: seq<Jwk>, kid: string): (r: Option<Jwk>)
    ensures r.Some? <==> exists i :: 0 <= i < |keys| && keys[i].kid == Some(kid)
    ensures r.Some? ==> exists i :: 0 <= i < |keys| && keys[i] == r.value && keys[i].kid == Some(kid)
                                    && forall j :: 0 <= j < i ==> keys[j].kid != Some(kid)
  {
    if keys == [] then None
    else if keys[0].kid == Some(kid) then Some(keys[0])
    else
      var r := FindKey(keys[1..], kid);
      assert forall i :: 0 < i < |keys| ==> keys[i] == keys[1..][i - 1];
      assert r.Some? ==> exists i :: 0 <= i < |keys| && keys[i] == r.value && keys[i].kid == Some(kid)
                                     && forall j :: 0 <= j < i ==> keys[j].kid != Some(kid) by {
        if r.Some? {
          ghost var i :| 0 <= i < |keys[1..]| && keys[1..][i] == r.value && keys[1..][i].kid == Some(kid)
                   && forall j :: 0 <= j < i ==> keys[1..][j].kid != Some(kid);
          assert keys[i + 1] == r.value;
        }
      }
      r
  }

  /** No two keys of a set share an id. */
  ghost predicate UniqueKids(keys: seq<Jwk>) {
    forall i, j :: 0 <= i < j < |keys| && keys[i].kid.Some? ==> keys[i].kid != keys[j].kid
  }
}
