/** Building, renewing and verifying trust chains, and how the three traversals
    relate. */
module TrustChainLifecycle {
  import opened Wrappers
  import opened Federation
  import opened HintGraph
  import opened TrustChainGathering
  import opened TrustChainValidation

  // ------------------------------------------------------------------ renewal

  /** Fetches the fresh version of one token of a chain. */
  function RenewToken(env: Env, published: Published, token: string): Result<string, Error> {
    match env.decode(token)
    case None => Failure(NotDecoded)
    case Some(document) =>
      if env.shapes.entityConfiguration(document) then
        FetchConfiguration(published, document.iss)
      else if env.shapes.entityStatement(document) then
        var (_, parent) :- FetchAndParse(env, published, document.iss);
        if !Truthy(parent.fetchEndpoint) then
          Failure(MissingFetchEndpoint(document.sub, document.iss))
        else
          FetchStatement(published, parent.fetchEndpoint.value, document.sub)
      else
        Failure(RenewalFailed)
  }

  function RenewTrustChain(env: Env, published: Published, chain: seq<string>): Result<seq<string>, Error> {
    MapAll(chain, (token: string) => RenewToken(env, published, token))
  }

  /** The documents published along a walk name the entities they are published
      for: the leaf's and the top's configuration their own entity, a statement
      its issuer and its subject. */
  ghost predicate WellNamed(env: Env, published: Published, path: seq<string>)
    requires path != []
  {
    && Names(env, ConfigurationOf(published, path[0]), path[0])
    && Names(env, ConfigurationOf(published, path[|path| - 1]), path[|path| - 1])
    && forall i :: 0 <= i < |path| - 1 ==>
         NamesPair(env, StatementAbout(env, published, path[i]), path[i + 1], path[i])
  }

  function ConfigurationOf(published: Published, url: string): string {
    if url in published.configurations then published.configurations[url] else ""
  }

  ghost predicate Names(env: Env, token: string, url: string) {
    env.decode(token).Some? && env.decode(token).value.iss == url
  }

  ghost predicate NamesPair(env: Env, token: string, parent: string, subject: string) {
    Names(env, token, parent) && env.decode(token).value.sub == subject
  }

  /** A statement that also has the shape of a configuration is renewed as one. */
  ghost predicate TakenForConfiguration(env: Env, token: string) {
    env.decode(token).Some? && env.shapes.entityConfiguration(env.decode(token).value)
  }

  /** `token'` is what the network now serves in place of `token`: for a
      configuration its entity's configuration, for a statement what its issuer's
      own fetch endpoint serves about its subject. */
  ghost predicate IsFresh(env: Env, after: Published, token: string, token': string) {
    env.decode(token).Some? &&
    var document := env.decode(token).value;
    && document.iss in after.configurations
    && if env.shapes.entityConfiguration(document) then
         token' == after.configurations[document.iss]
       else
         && env.shapes.entityStatement(document)
         && IssuerServes(env, after, after.configurations[document.iss], document.sub, token')
  }

  /** The configuration is well shaped and has a fetch endpoint, which serves the
      statement about the subject. */
  ghost predicate IssuerServes(env: Env, after: Published, configuration: string, subject: string, statement: string) {
    && env.decode(configuration).Some? && env.shapes.entityConfiguration(env.decode(configuration).value)
    && var endpoint := env.decode(configuration).value.fetchEndpoint;
       && endpoint.Some? && endpoint.value != ""
       && (endpoint.value, subject) in after.statements
       && statement == after.statements[(endpoint.value, subject)]
  }

  /** No fresh version of the token is served. */
  ghost predicate Withdrawn(env: Env, after: Published, token: string) {
    forall token' :: !IsFresh(env, after, token, token')
  }

  /** Renewing a token succeeds exactly when its fresh version is served, and
      returns that. */
  lemma RenewedIsFresh(env: Env, after: Published, token: string)
    ensures forall token' :: RenewToken(env, after, token) == Success(token') <==> IsFresh(env, after, token, token')
    ensures RenewToken(env, after, token).Failure? <==> Withdrawn(env, after, token)
  {
    var r := RenewToken(env, after, token);
    if r.Success? {
      assert IsFresh(env, after, token, r.value);
    }
  }

  /** A chain is renewed to the fresh versions of its tokens, position by position. */
  lemma ChainRenewedWhenServed(env: Env, after: Published, chain: seq<string>, renewed: seq<string>)
    ensures RenewTrustChain(env, after, chain) == Success(renewed)
       <==> |renewed| == |chain| && forall i :: 0 <= i < |chain| ==> IsFresh(env, after, chain[i], renewed[i])
  {
    forall i | 0 <= i < |chain| && |renewed| == |chain|
      ensures RenewToken(env, after, chain[i]) == Success(renewed[i]) <==> IsFresh(env, after, chain[i], renewed[i])
    {
      RenewedIsFresh(env, after, chain[i]);
    }
    var r := RenewTrustChain(env, after, chain);
    if |renewed| == |chain| && forall i :: 0 <= i < |chain| ==> IsFresh(env, after, chain[i], renewed[i]) {
      assert r.value == renewed;
    }
  }

  /** And it fails to be renewed exactly when one of its tokens has none. */
  lemma RenewalFailsWhenWithdrawn(env: Env, after: Published, chain: seq<string>)
    ensures RenewTrustChain(env, after, chain).Failure? <==> exists i :: 0 <= i < |chain| && Withdrawn(env, after, chain[i])
  {
    forall i | 0 <= i < |chain|
      ensures RenewToken(env, after, chain[i]).Failure? <==> Withdrawn(env, after, chain[i])
    {
      RenewedIsFresh(env, after, chain[i]);
    }
  }

  /** A chain with a statement that no endpoint serves any more is not renewed. */
  lemma WithdrawnStatement(env: Env, after: Published, chain: seq<string>, i: nat)
    requires i < |chain| && env.decode(chain[i]).Some? && !TakenForConfiguration(env, chain[i])
    requires var subject := env.decode(chain[i]).value.sub;
             forall endpoint :: (endpoint, subject) !in after.statements
    ensures RenewTrustChain(env, after, chain).Failure?
  {
    RenewalFailsWhenWithdrawn(env, after, chain);
    forall token'
      ensures !IsFresh(env, after, chain[i], token')
    {
    }
    assert Withdrawn(env, after, chain[i]);
  }

  lemma ConfigurationRenewed(env: Env, before: Published, after: Published, url: string, token: string, token': string)
    requires Configures(env, before, url, token) && Configures(env, after, url, token') && Names(env, token, url)
    ensures RenewToken(env, after, token) == Success(token')
  {
  }

  lemma StatementRenewed(env: Env, before: Published, after: Published, parent: string, subject: string,
                         token: string, token': string)
    requires Serves(env, before, parent, subject, token) && Serves(env, after, parent, subject, token')
    requires NamesPair(env, token, parent, subject)
    ensures RenewToken(env, after, token)
         == Success(if TakenForConfiguration(env, token) then ConfigurationOf(after, parent) else token')
  {
  }

  lemma StatementPosition(env: Env, published: Published, path: seq<string>, chain: seq<string>, k: nat)
    requires FullWalk(env, published, path) && ChainOf(env, published, path, true) == Success(chain)
    requires 0 < k < |path|
    ensures |chain| == |path| + 1 && chain[k] == StatementAbout(env, published, path[k - 1])
    ensures Serves(env, published, path[k], path[k - 1], chain[k])
  {
    ChainShape(env, published, path, chain);
    var i := k - 1;
    assert Serves(env, published, path[i + 1], path[i], chain[i + 1]);
  }

  /** No statement of the old walk passes for a configuration, or it is renewed
      to itself all the same. */
  ghost predicate RenewsStatements(env: Env, before: Published, after: Published, path: seq<string>) {
    forall k :: 0 < k < |path| && TakenForConfiguration(env, StatementAbout(env, before, path[k - 1])) ==>
      ConfigurationOf(after, path[k]) == StatementAbout(env, after, path[k - 1])
  }

  /** What renewal makes of the token at a position. */
  ghost function RenewedAt(env: Env, after: Published, path: seq<string>, chain: seq<string>, chain': seq<string>, k: nat)
    : string
    requires k < |chain| == |chain'|
  {
    if 0 < k < |path| && TakenForConfiguration(env, chain[k]) then ConfigurationOf(after, path[k]) else chain'[k]
  }

  lemma RenewedToken(env: Env, before: Published, after: Published, path: seq<string>,
                     chain: seq<string>, chain': seq<string>, k: nat)
    requires FullWalk(env, before, path) && ChainOf(env, before, path, true) == Success(chain)
    requires FullWalk(env, after, path) && ChainOf(env, after, path, true) == Success(chain')
    requires WellNamed(env, before, path) && k < |chain|
    ensures |chain| == |chain'|
    ensures RenewToken(env, after, chain[k]) == Success(RenewedAt(env, after, path, chain, chain', k))
  {
    ChainShape(env, before, path, chain);
    ChainShape(env, after, path, chain');
    var d := |path| - 1;
    if 0 < k < |path| {
      StatementPosition(env, before, path, chain, k);
      StatementPosition(env, after, path, chain', k);
      var i := k - 1;
      assert NamesPair(env, StatementAbout(env, before, path[i]), path[i + 1], path[i]);
      StatementRenewed(env, before, after, path[k], path[k - 1], chain[k], chain'[k]);
    } else if k == 0 {
      ConfigurationRenewed(env, before, after, path[0], chain[0], chain'[0]);
    } else {
      ConfigurationRenewed(env, before, after, path[d], chain[k], chain'[k]);
    }
  }

  /** Along a fixed walk, renewing the old chain over the new publication yields
      the chain gathered over it, except where a statement that passes for a
      configuration is replaced by its issuer's configuration. */
  lemma RenewalAlongWalk(env: Env, before: Published, after: Published, path: seq<string>,
                         chain: seq<string>, chain': seq<string>)
    requires FullWalk(env, before, path) && ChainOf(env, before, path, true) == Success(chain)
    requires FullWalk(env, after, path) && ChainOf(env, after, path, true) == Success(chain')
    requires WellNamed(env, before, path)
    ensures |chain| == |chain'| && RenewTrustChain(env, after, chain).Success?
    ensures RenewTrustChain(env, after, chain) == Success(chain') <==> RenewsStatements(env, before, after, path)
  {
    RenewedToken(env, before, after, path, chain, chain', 0);
    forall k | 0 <= k < |chain|
      ensures RenewToken(env, after, chain[k]) == Success(RenewedAt(env, after, path, chain, chain', k))
    {
      RenewedToken(env, before, after, path, chain, chain', k);
    }
    var renewed := RenewTrustChain(env, after, chain).value;
    forall k | 0 < k < |path|
      ensures k < |chain| && chain[k] == StatementAbout(env, before, path[k - 1])
      ensures chain'[k] == StatementAbout(env, after, path[k - 1])
    {
      StatementPosition(env, before, path, chain, k);
      StatementPosition(env, after, path, chain', k);
    }
    assert forall k :: 0 <= k < |chain| ==> renewed[k] == RenewedAt(env, after, path, chain, chain', k);
    if RenewsStatements(env, before, after, path) {
      assert renewed == chain';
    }
    if renewed == chain' {
      forall k | 0 < k < |path| && TakenForConfiguration(env, StatementAbout(env, before, path[k - 1]))
        ensures ConfigurationOf(after, path[k]) == StatementAbout(env, after, path[k - 1])
      {
        assert renewed[k] == RenewedAt(env, after, path, chain, chain', k);
      }
    }
  }

  /** No statement of the walk passes for a configuration. */
  ghost predicate StatementsAreStatements(env: Env, published: Published, path: seq<string>) {
    forall i :: 0 <= i < |path| - 1 ==> !TakenForConfiguration(env, StatementAbout(env, published, path[i]))
  }

  /** With the same first hints, a walk over the new publication goes up from an
      entity of the old walk as that one does, or stops. */
  lemma StepsAgain(env: Env, before: Published, after: Published, path: seq<string>)
    requires FullWalk(env, before, path) && ChainOf(env, before, path, true).Success?
    requires forall u :: u in path ==> FirstHint(env, after, u) == FirstHint(env, before, u)
    ensures forall u :: u in path ==>
              Superiors(env, after)(u).None? || Superiors(env, after)(u) == Superiors(env, before)(u)
  {
    WalkFollowsFirstHints(env, before, path);
    forall i | 0 <= i < |path|
      ensures Superiors(env, after)(path[i]).None? || Superiors(env, after)(path[i]) == Superiors(env, before)(path[i])
    {
      ClimbOutcome(env, after, path[i]);
      assert FirstHint(env, after, path[i]) == FirstHint(env, before, path[i]);
      if i < |path| - 1 {
        var up := Superiors(env, before);
        assert up(path[i]) == Some(path[i + 1]) == FirstHint(env, before, path[i]);
      }
    }
  }

  /** If gathering succeeds at its end, it goes all the way. */
  lemma WholeWalkAgain(env: Env, before: Published, after: Published, path: seq<string>, path': seq<string>)
    requires FullWalk(env, before, path) && ChainOf(env, before, path, true).Success?
    requires FullWalk(env, after, path') && ChainOf(env, after, path', true).Success?
    requires forall u :: u in path ==> FirstHint(env, after, u) == FirstHint(env, before, u)
    requires path' <= path
    ensures path' == path
  {
    WalkFollowsFirstHints(env, after, path');
    var top := |path'| - 1;
    assert path'[top] == path[top] && path[top] in path;
    if top < |path| - 1 {
      GoesOn(env, before, path, top);
    }
  }

  lemma GoesOn(env: Env, published: Published, path: seq<string>, i: nat)
    requires FullWalk(env, published, path) && ChainOf(env, published, path, true).Success?
    requires i < |path| - 1
    ensures FirstHint(env, published, path[i]).Some?
  {
    WalkFollowsFirstHints(env, published, path);
    var hint := FirstHint(env, published, path[i]);
    assert hint == Some(path[i + 1]);
  }

  /** Renewal rebuilds. Take a chain gathered over `before`, whose documents name
      their entities and whose statements do not pass for configurations, and a
      publication `after` with the same first hints of the entities on the way.
      Whenever gathering over `after` succeeds, renewing the old chain over
      `after` yields exactly the newly gathered chain. */
  lemma RenewalRebuilds(env: Env, before: Published, after: Published, url: string, n: nat,
                        chain: seq<string>, chain': seq<string>)
    requires HaltsWithin(Superiors(env, before), url, n)
    requires forall u :: u in Ancestry(Superiors(env, before), url, n) ==>
               FirstHint(env, after, u) == FirstHint(env, before, u)
    requires WellNamed(env, before, Ancestry(Superiors(env, before), url, n))
    requires StatementsAreStatements(env, before, Ancestry(Superiors(env, before), url, n))
    requires ChainOf(env, before, Ancestry(Superiors(env, before), url, n), true) == Success(chain)
    ensures HaltsWithin(Superiors(env, after), url, n)
    ensures ChainOf(env, after, Ancestry(Superiors(env, after), url, n), true) == Success(chain') ==>
              RenewTrustChain(env, after, chain) == Success(chain')
  {
    var path := Ancestry(Superiors(env, before), url, n);
    StepsAgain(env, before, after, path);
    PartOfWalk(Superiors(env, before), Superiors(env, after), url, n);
    var path' := Ancestry(Superiors(env, after), url, n);
    if ChainOf(env, after, path', true) == Success(chain') {
      WholeWalkAgain(env, before, after, path, path');
      RenewalAlongWalk(env, before, after, path, chain, chain');
    }
  }

  /** An entity "a" below a top "b" with fetch endpoint "f", and shapes by which a
      statement with a fetch endpoint of its own passes for a configuration. */
  function EndpointEnv(signatureOk: (string, Jwk) -> bool, certificatesOk: (seq<string>, string) -> bool): Env {
    Env(Shapes((d: Document) => d.iss == d.sub || d.fetchEndpoint.Some?, _ => true, _ => true, _ => true, _ => true),
        token => if token == "configuration of a" then Some(Document("k", "a", "a", [], Some(["b"]), None))
                 else if token == "configuration of b" then Some(Document("k", "b", "b", [], None, Some("f")))
                 else if token == "statement about a" then Some(Document("k", "b", "a", [], None, Some("g")))
                 else None,
        signatureOk, certificatesOk)
  }

  function EndpointPublished(): Published {
    Published(map["a" := "configuration of a", "b" := "configuration of b"], map[("f", "a") := "statement about a"], map[])
  }

  /** Such a statement is renewed to the wrong document, although nothing has
      changed since the chain was gathered. */
  lemma StatementRenewedAsConfiguration(signatureOk: (string, Jwk) -> bool, certificatesOk: (seq<string>, string) -> bool)
    ensures var env, published := EndpointEnv(signatureOk, certificatesOk), EndpointPublished();
            && FullWalk(env, published, ["a", "b"])
            && ChainOf(env, published, ["a", "b"], true)
               == Success(["configuration of a", "statement about a", "configuration of b"])
            && RenewTrustChain(env, published, ["configuration of a", "statement about a", "configuration of b"])
               == Success(["configuration of a", "configuration of b", "configuration of b"])
  {
    var env, published := EndpointEnv(signatureOk, certificatesOk), EndpointPublished();
    assert Climb(env, published, "a") == Up("configuration of a", "statement about a", "b");
    assert Climb(env, published, "b") == Top("configuration of b");
    assert Statements(env, published, ["a", "b"]) == ["statement about a"];
    assert ClimbedTop(env, published, "b") == Success("configuration of b");
    var chain := ["configuration of a", "statement about a", "configuration of b"];
    var renewed := ["configuration of a", "configuration of b", "configuration of b"];
    assert ["configuration of a"] + ["statement about a"] + ["configuration of b"] == chain;
    assert forall i :: 0 <= i < 3 ==> RenewToken(env, published, chain[i]) == Success(renewed[i]);
    assert RenewTrustChain(env, published, chain).value == renewed;
  }

  /** With nothing changed in between, renewing a gathered chain returns it. */
  lemma RenewalIsIdentity(env: Env, published: Published, path: seq<string>, chain: seq<string>)
    requires FullWalk(env, published, path) && ChainOf(env, published, path, true) == Success(chain)
    requires WellNamed(env, published, path)
    ensures RenewTrustChain(env, published, chain) == Success(chain)
       <==> forall k :: 0 < k < |path| && TakenForConfiguration(env, StatementAbout(env, published, path[k - 1])) ==>
              ConfigurationOf(published, path[k]) == StatementAbout(env, published, path[k - 1])
  {
    RenewalAlongWalk(env, published, published, path, chain, chain);
  }

  // ----------------------------------------------------------------- building

  /** Checks the federation list, gathers the chain, and has the last token
      checked under the anchor's first key. */
  method BuildTrustChain(env: Env, published: Published, url: string, anchor: TrustAnchor, ghost n: nat)
    returns (r: Result<seq<string>, Error>)
    requires HaltsWithin(Superiors(env, published), url, n)
    ensures r.Success? ==> ChainOf(env, published, Ancestry(Superiors(env, published), url, n), true) == r
    ensures r.Success? <==>
              var gathered := ChainOf(env, published, Ancestry(Superiors(env, published), url, n), true);
              && anchor.keys != [] && Truthy(anchor.keys[0].kid)
              && Authorized(published, anchor, url)
              && gathered.Success?
              && gathered.value[|gathered.value| - 1] != ""
              && env.signatureOk(gathered.value[|gathered.value| - 1], anchor.keys[0])
  {
    if |anchor.keys| == 0 {
      return Failure(AnchorKeyMissing);
    }
    var key := anchor.keys[0];
    if Truthy(anchor.listEndpoint) {
      if anchor.listEndpoint.value !in published.lists {
        return Failure(NotFetched(anchor.listEndpoint.value));
      }
      if url !in published.lists[anchor.listEndpoint.value] {
        return Failure(NotAuthorized);
      }
    }
    var chain :- GatherTrustChain(env, published, url, true, n);
    ChainShape(env, published, Ancestry(Superiors(env, published), url, n), chain);
    if chain[|chain| - 1] == "" {
      return Failure(TopTokenMissing);
    }
    if !Truthy(key.kid) {
      return Failure(AnchorKidMissing);
    }
    var _ :- VerifyToken(env, chain[|chain| - 1], key.kid.value, [key]);
    return Success(chain);
  }

  /** The anchor has no federation list, or the list names the entity. */
  ghost predicate Authorized(published: Published, anchor: TrustAnchor, url: string) {
    Truthy(anchor.listEndpoint) ==>
      anchor.listEndpoint.value in published.lists && url in published.lists[anchor.listEndpoint.value]
  }

  // -------------------------------------------------------- build, then verify

  /** Shapes as version 1.0.0 configures them: a configuration fits the first
      and the last position, a statement every position but the first. */
  ghost predicate ShapesAgree(env: Env) {
    && env.decode("").None?
    && (forall d: Document :: env.shapes.entityConfiguration(d) ==> env.shapes.first(d) && env.shapes.last(d))
    && (forall d: Document :: env.shapes.entityStatement(d) ==> env.shapes.middle(d) && env.shapes.last(d))
  }

  /** The keys that its superior vouches for; the top vouches for itself. */
  ghost function VouchedKeys(env: Env, published: Published, url: string): seq<Jwk> {
    if Climb(env, published, url).Up? then KeysOf(env, StatementAbout(env, published, url))
    else KeysOf(env, ConfigurationOf(published, url))
  }

  /** The token carries the id of a key of the set that verifies it and has an
      accepted certificate chain. */
  ghost predicate SignedUnder(env: Env, certificate: string, keys: seq<Jwk>, token: string) {
    env.decode(token).Some? &&
    exists key :: key in keys && key.kid == Some(env.decode(token).value.kid) && AcceptedUnder(env, certificate, key, token)
  }

  /** Everything published along a walk is signed as the federation demands: the
      leaf's configuration under the keys its superior vouches for, each
      statement under the keys vouched for its issuer, the top's configuration
      under the anchor's keys. */
  ghost predicate WellSigned(env: Env, published: Published, anchor: TrustAnchor, path: seq<string>)
    requires path != []
  {
    AnchorCertificate(anchor).Success? &&
    var certificate := AnchorCertificate(anchor).value;
    && SignedUnder(env, certificate, anchor.keys, ConfigurationOf(published, path[|path| - 1]))
    && (|path| > 1 ==>
          SignedUnder(env, certificate, VouchedKeys(env, published, path[0]), ConfigurationOf(published, path[0])))
    && forall k :: 0 < k < |path| ==>
         SignedUnder(env, certificate, VouchedKeys(env, published, path[k]), StatementAbout(env, published, path[k - 1]))
  }

  ghost predicate UniquelyKeyed(env: Env, published: Published, anchor: TrustAnchor, path: seq<string>) {
    UniqueKids(anchor.keys) && forall u :: u in path ==> UniqueKids(VouchedKeys(env, published, u))
  }

  lemma SignedIsVouched(env: Env, certificate: string, keys: seq<Jwk>, token: string)
    ensures Vouches(env, certificate, keys, token) ==> SignedUnder(env, certificate, keys, token)
    ensures UniqueKids(keys) && SignedUnder(env, certificate, keys, token) ==> Vouches(env, certificate, keys, token)
  {
    if UniqueKids(keys) && SignedUnder(env, certificate, keys, token) {
      var kid := env.decode(token).value.kid;
      var key :| key in keys && key.kid == Some(kid) && AcceptedUnder(env, certificate, key, token);
      var i :| 0 <= i < |keys| && keys[i] == key;
      assert IsSigningKey(keys, kid, i);
    }
  }

  /** The keys the token at a position of a chain is checked under. */
  ghost function SignerKeys(env: Env, anchor: TrustAnchor, chain: seq<string>, i: nat): seq<Jwk>
    requires i < |chain|
  {
    if i == |chain| - 1 then anchor.keys else KeysOf(env, chain[i + 1])
  }

  lemma ValidWhenVouched(env: Env, anchor: TrustAnchor, chain: seq<string>)
    requires chain != [] && WellShaped(env, chain)
    ensures ValidateTrustChain(env, anchor, chain).Success?
       <==> AnchorCertificate(anchor).Success? && forall i :: 0 <= i < |chain| ==>
              Vouches(env, AnchorCertificate(anchor).value, SignerKeys(env, anchor, chain, i), chain[i])
  {
    if AnchorCertificate(anchor).Success? {
      var certificate := AnchorCertificate(anchor).value;
      ValidationIsPointwise(env, anchor, chain);
      forall i | 0 <= i < |chain|
        ensures ValidateAt(env, anchor, certificate, chain, i).Success?
           <==> Vouches(env, certificate, SignerKeys(env, anchor, chain, i), chain[i])
      {
        AcceptedWhenVouched(env, anchor, certificate, chain, i);
        if i + 1 < |chain| {
          RunExtends(env, certificate, anchor.keys, Downward(chain, i + 2), chain[i + 1]);
        }
      }
    }
  }

  lemma GatheredIsWellShaped(env: Env, published: Published, path: seq<string>, chain: seq<string>)
    requires FullWalk(env, published, path) && ChainOf(env, published, path, true) == Success(chain)
    requires ShapesAgree(env)
    ensures WellShaped(env, chain)
  {
    ChainShape(env, published, path, chain);
    ParsesWhenWellShaped(env, chain);
    forall k | 0 <= k < |chain|
      ensures ParseAt(env, chain, k).Success?
    {
      if 0 < k < |path| {
        StatementPosition(env, published, path, chain, k);
      }
    }
  }

  /** The tokens of a gathered chain are checked under the keys that the
      federation vouches for. */
  lemma GatheredSigners(env: Env, published: Published, anchor: TrustAnchor, path: seq<string>, chain: seq<string>)
    requires FullWalk(env, published, path) && ChainOf(env, published, path, true) == Success(chain)
    ensures chain != [] && chain[0] == ConfigurationOf(published, path[0])
    ensures chain[|chain| - 1] == ConfigurationOf(published, path[|path| - 1])
    ensures SignerKeys(env, anchor, chain, |chain| - 1) == anchor.keys
    ensures |path| > 1 ==>
              |chain| == |path| + 1 && SignerKeys(env, anchor, chain, 0) == VouchedKeys(env, published, path[0])
    ensures forall k :: 0 < k < |path| ==>
              && chain[k] == StatementAbout(env, published, path[k - 1])
              && SignerKeys(env, anchor, chain, k) == VouchedKeys(env, published, path[k])
  {
    ChainShape(env, published, path, chain);
    var up := Superiors(env, published);
    assert forall i :: 0 <= i < |path| - 1 ==> up(path[i]) == Some(path[i + 1]);
    assert up(path[|path| - 1]).None?;
    forall k | 0 < k < |path|
      ensures k < |chain| - 1 && chain[k] == StatementAbout(env, published, path[k - 1])
    {
      StatementPosition(env, published, path, chain, k);
    }
    forall k | 0 < k < |path|
      ensures SignerKeys(env, anchor, chain, k) == VouchedKeys(env, published, path[k])
    {
      if k < |path| - 1 {
        assert chain[k + 1] == StatementAbout(env, published, path[k]);
      }
    }
  }

  /** At every position, being signed under the checking keys is being vouched
      for by them. */
  lemma GatheredPosition(env: Env, published: Published, anchor: TrustAnchor, path: seq<string>,
                         chain: seq<string>, certificate: string, k: nat)
    requires FullWalk(env, published, path) && ChainOf(env, published, path, true) == Success(chain)
    requires UniquelyKeyed(env, published, anchor, path) && k < |chain|
    ensures Vouches(env, certificate, SignerKeys(env, anchor, chain, k), chain[k])
       <==> SignedUnder(env, certificate, SignerKeys(env, anchor, chain, k), chain[k])
  {
    GatheredSigners(env, published, anchor, path, chain);
    ChainShape(env, published, path, chain);
    if k < |chain| - 1 {
      assert path[k] in path;
    }
    SignedIsVouched(env, certificate, SignerKeys(env, anchor, chain, k), chain[k]);
  }

  /** The federation's demands are those on the positions of the chain. */
  /** Every token of the chain is signed under the keys it is checked with. */
  ghost predicate SignedByPosition(env: Env, anchor: TrustAnchor, chain: seq<string>, certificate: string) {
    forall k :: 0 <= k < |chain| ==> SignedUnder(env, certificate, SignerKeys(env, anchor, chain, k), chain[k])
  }

  lemma PositionsWellSigned(env: Env, published: Published, anchor: TrustAnchor, path: seq<string>, chain: seq<string>)
    requires FullWalk(env, published, path) && ChainOf(env, published, path, true) == Success(chain)
    requires AnchorCertificate(anchor).Success?
    requires SignedByPosition(env, anchor, chain, AnchorCertificate(anchor).value)
    ensures WellSigned(env, published, anchor, path)
  {
    var certificate := AnchorCertificate(anchor).value;
    GatheredSigners(env, published, anchor, path, chain);
    ChainShape(env, published, path, chain);
    var last := |chain| - 1;
    assert last == if |path| == 1 then 0 else |path|;
    assert SignedUnder(env, certificate, SignerKeys(env, anchor, chain, last), chain[last]);
    assert SignedUnder(env, certificate, SignerKeys(env, anchor, chain, 0), chain[0]);
    forall k | 0 < k < |path|
      ensures SignedUnder(env, certificate, VouchedKeys(env, published, path[k]), StatementAbout(env, published, path[k - 1]))
    {
      assert SignedUnder(env, certificate, SignerKeys(env, anchor, chain, k), chain[k]);
    }
  }

  lemma WellSignedPositions(env: Env, published: Published, anchor: TrustAnchor, path: seq<string>, chain: seq<string>)
    requires FullWalk(env, published, path) && ChainOf(env, published, path, true) == Success(chain)
    requires AnchorCertificate(anchor).Success?
    requires WellSigned(env, published, anchor, path)
    ensures SignedByPosition(env, anchor, chain, AnchorCertificate(anchor).value)
  {
    var certificate := AnchorCertificate(anchor).value;
    GatheredSigners(env, published, anchor, path, chain);
    ChainShape(env, published, path, chain);
    forall k | 0 <= k < |chain|
      ensures SignedUnder(env, certificate, SignerKeys(env, anchor, chain, k), chain[k])
    {
      if 0 < k < |path| {
        assert SignedUnder(env, certificate, VouchedKeys(env, published, path[k]), StatementAbout(env, published, path[k - 1]));
      }
    }
  }

  /** Build, then verify. In a federation whose published documents are signed as
      it demands, with unique key ids per key set, every gathered chain passes
      validation at every depth, and validation returns its decoded tokens in
      order. Without that, it does not pass. */
  lemma GatheredChainValidates(env: Env, published: Published, anchor: TrustAnchor, path: seq<string>, chain: seq<string>)
    requires FullWalk(env, published, path) && ChainOf(env, published, path, true) == Success(chain)
    requires ShapesAgree(env) && UniquelyKeyed(env, published, anchor, path)
    ensures ValidateTrustChain(env, anchor, chain).Success? <==> WellSigned(env, published, anchor, path)
    ensures WellSigned(env, published, anchor, path) ==>
              DecodesTo(env, chain, ValidateTrustChain(env, anchor, chain).value)
  {
    GatheredIsWellShaped(env, published, path, chain);
    ChainShape(env, published, path, chain);
    ValidWhenVouched(env, anchor, chain);
    ValidationIsARun(env, anchor, chain);
    if AnchorCertificate(anchor).Success? {
      var certificate := AnchorCertificate(anchor).value;
      if WellSigned(env, published, anchor, path) {
        WellSignedPositions(env, published, anchor, path, chain);
      } else if SignedByPosition(env, anchor, chain, certificate) {
        PositionsWellSigned(env, published, anchor, path, chain);
      }
      forall k | 0 <= k < |chain|
        ensures Vouches(env, certificate, SignerKeys(env, anchor, chain, k), chain[k])
           <==> SignedUnder(env, certificate, SignerKeys(env, anchor, chain, k), chain[k])
      {
        GatheredPosition(env, published, anchor, path, chain, certificate, k);
      }
    }
  }

  // ------------------------------------------------------------- verification

  /** Validates the chain; if that fails and renewal is allowed, validates the
      renewed chain instead. */
  function VerifyTrustChain(env: Env, published: Published, anchor: TrustAnchor, chain: seq<string>, renewOnFail: bool)
    : Result<seq<Document>, Error>
  {
    var first := ValidateTrustChain(env, anchor, chain);
    if first.Success? || !renewOnFail then
      first
    else
      var renewed :- RenewTrustChain(env, published, chain);
      ValidateTrustChain(env, anchor, renewed)
  }

  /** A valid chain is accepted as it is, whatever the network serves; any other
      chain only through a renewed one that is valid. */
  lemma VerificationSucceedsWhen(env: Env, published: Published, anchor: TrustAnchor, chain: seq<string>, renewOnFail: bool)
    ensures ValidateTrustChain(env, anchor, chain).Success? ==>
              VerifyTrustChain(env, published, anchor, chain, renewOnFail) == ValidateTrustChain(env, anchor, chain)
    ensures VerifyTrustChain(env, published, anchor, chain, renewOnFail).Success?
       <==> ValidateTrustChain(env, anchor, chain).Success? ||
            (renewOnFail && RenewTrustChain(env, published, chain).Success?
             && ValidateTrustChain(env, anchor, RenewTrustChain(env, published, chain).value).Success?)
  {
  }

  /** Build, then verify, end to end: the chain gathered in a well-signed federation
      is verified whatever the network serves by then, and an anchor with a single
      named key also lets it pass the check that ends building. */
  lemma BuiltChainVerifies(env: Env, published: Published, later: Published, anchor: TrustAnchor, path: seq<string>,
                           chain: seq<string>, renewOnFail: bool)
    requires FullWalk(env, published, path) && ChainOf(env, published, path, true) == Success(chain)
    requires ShapesAgree(env) && UniquelyKeyed(env, published, anchor, path)
    requires WellSigned(env, published, anchor, path)
    ensures VerifyTrustChain(env, later, anchor, chain, renewOnFail).Success?
    ensures DecodesTo(env, chain, VerifyTrustChain(env, later, anchor, chain, renewOnFail).value)
    ensures chain != [] && chain[|chain| - 1] != ""
    ensures |anchor.keys| == 1 ==> env.signatureOk(chain[|chain| - 1], anchor.keys[0])
  {
    GatheredChainValidates(env, published, anchor, path, chain);
    VerificationSucceedsWhen(env, later, anchor, chain, renewOnFail);
    GatheredSigners(env, published, anchor, path, chain);
  }

  /** Soundness of verification. Whatever verification returns, on the original
      or on the renewed chain, are the decoded tokens of that chain, as many as
      the input has and in its order, and the key set of every one of them is
      derivable from the anchor's keys by a run of signature and certificate
      steps. */
  lemma VerificationIsSound(env: Env, published: Published, anchor: TrustAnchor, chain: seq<string>, renewOnFail: bool)
    returns (verified: seq<string>)
    requires VerifyTrustChain(env, published, anchor, chain, renewOnFail).Success?
    ensures verified == chain || (renewOnFail && RenewTrustChain(env, published, chain) == Success(verified))
    ensures |verified| == |chain| && verified != []
    ensures DecodesTo(env, verified, VerifyTrustChain(env, published, anchor, chain, renewOnFail).value)
    ensures AnchorCertificate(anchor).Success?
    ensures forall i :: 0 <= i < |verified| ==>
              Trusted(env, anchor, AnchorCertificate(anchor).value,
                      VerifyTrustChain(env, published, anchor, chain, renewOnFail).value[i].keys)
  {
    verified := if ValidateTrustChain(env, anchor, chain).Success? then chain else RenewTrustChain(env, published, chain).value;
    ValidationIsARun(env, anchor, verified);
    forall i | 0 <= i < |verified|
      ensures Trusted(env, anchor, AnchorCertificate(anchor).value,
                      VerifyTrustChain(env, published, anchor, chain, renewOnFail).value[i].keys)
    {
      AcceptedKeysAreTrusted(env, anchor, verified, i);
    }
  }

  /** A stale chain heals. If the chain gathered over `before` no longer validates,
      verification with renewal accepts it exactly when the chain gathered over
      `after` validates, and returns the same documents. */
  lemma StaleChainHeals(env: Env, before: Published, after: Published, anchor: TrustAnchor, path: seq<string>,
                        chain: seq<string>, chain': seq<string>)
    requires FullWalk(env, before, path) && ChainOf(env, before, path, true) == Success(chain)
    requires FullWalk(env, after, path) && ChainOf(env, after, path, true) == Success(chain')
    requires WellNamed(env, before, path) && RenewsStatements(env, before, after, path)
    requires ValidateTrustChain(env, anchor, chain).Failure?
    ensures VerifyTrustChain(env, after, anchor, chain, true) == ValidateTrustChain(env, anchor, chain')
  {
    RenewalAlongWalk(env, before, after, path, chain, chain');
  }
}
