/** Gathering a trust chain from a leaf up to its trust anchor
    (section 10.1 of OpenID Federation 1.0). */
module TrustChainGathering {
  import opened Wrappers
  import opened Federation
  import opened HintGraph

  /** What one call of the recursion finds out before recursing. */
  datatype Step =
    | Top(configuration: string)
    | Up(configuration: string, statement: string, parent: string)
    | Stuck(error: Error)

  /** Fetches an entity's configuration and, unless it has no superior, the
      statement its first superior makes about it. */
  function Climb(env: Env, published: Published, url: string): Step {
    match FetchAndParse(env, published, url)
    case Failure(e) => Stuck(e)
    case Success((token, entity)) =>
      if entity.authorityHints.None? || entity.authorityHints.value == [] then
        Top(token)
      else if entity.authorityHints.value[0] == "" then
        Stuck(EmptyAuthorityHint)
      else
        match FetchStatementBy(env, published, url, entity.authorityHints.value[0])
        case Failure(e) => Stuck(e)
        case Success(statement) => Up(token, statement, entity.authorityHints.value[0])
  }

  /** An entity's configuration, as a token and as a document. */
  function FetchAndParse(env: Env, published: Published, url: string): Result<(string, Document), Error> {
    var token :- FetchConfiguration(published, url);
    var document :- Parse(env, env.shapes.entityConfiguration, token);
    Success((token, document))
  }

  /** The statement about `url` that `parent` serves at the fetch endpoint of its
      own configuration. */
  function FetchStatementBy(env: Env, published: Published, url: string, parent: string): Result<string, Error> {
    var (_, document) :- FetchAndParse(env, published, parent);
    if !Truthy(document.fetchEndpoint) then
      Failure(MissingFetchEndpoint(url, parent))
    else
      var statement :- FetchStatement(published, document.fetchEndpoint.value, url);
      var _ :- Parse(env, env.shapes.entityStatement, statement);
      Success(statement)
  }

  /** The first-hint graph of what is published. */
  function Superiors(env: Env, published: Published): Superior {
    (url: string) =>
      var step := Climb(env, published, url);
      if step.Up? then Some(step.parent) else None
  }

  // ----------------------------------------------------------- specification

  /** The token a step contributes about the entity itself. */
  function StatementAbout(env: Env, published: Published, url: string): string {
    var step := Climb(env, published, url);
    if step.Up? then step.statement else ""
  }

  /** The chain that belongs to a walk, stated without recursion: the leaf's
      configuration, one statement about each entity below the top, the top's
      configuration, and a leaf that is its own top only once. */
  function ChainOf(env: Env, published: Published, path: seq<string>, isLeaf: bool): Result<seq<string>, Error>
    requires path != []
  {
    var top :- ClimbedTop(env, published, path[|path| - 1]);
    var leaf :- FetchConfiguration(published, path[0]);
    Success((if isLeaf then [leaf] else [])
            + Statements(env, published, path)
            + (if isLeaf && |path| == 1 then [] else [top]))
  }

  function ClimbedTop(env: Env, published: Published, url: string): Result<string, Error> {
    match Climb(env, published, url)
    case Stuck(e) => Failure(e)
    case Up(token, _, _) => Success(token)
    case Top(token) => Success(token)
  }

  /** The statement about each entity of a walk but the last. */
  function Statements(env: Env, published: Published, path: seq<string>): (s: seq<string>)
    requires path != []
    ensures |s| == |path| - 1
    ensures forall i :: 0 <= i < |path| - 1 ==> s[i] == StatementAbout(env, published, path[i])
  {
    seq(|path| - 1, i requires 0 <= i < |path| - 1 => StatementAbout(env, published, path[i]))
  }

  /** A walk that goes up until it stops. */
  ghost predicate FullWalk(env: Env, published: Published, path: seq<string>) {
    IsWalk(Superiors(env, published), path) && Superiors(env, published)(path[|path| - 1]).None?
  }

  // ------------------------------------------------------------- the algorithm

  /** The recursive function, with its local chain. The source has no guard
      against a cycle of hints, so the precondition is that the walk ends. */
  method GatherTrustChain(env: Env, published: Published, url: string, isLeaf: bool, ghost n: nat)
    returns (r: Result<seq<string>, Error>)
    requires HaltsWithin(Superiors(env, published), url, n)
    ensures r == ChainOf(env, published, Ancestry(Superiors(env, published), url, n), isLeaf)
    decreases n
  {
    ChainWithoutSuperior(env, published, url, isLeaf, n);
    var chain := [];
    var entityToken :- FetchConfiguration(published, url);
    var entity :- Parse(env, env.shapes.entityConfiguration, entityToken);
    if isLeaf {
      chain := chain + [entityToken];
    }
    var hints := if entity.authorityHints.Some? then entity.authorityHints.value else [];
    if |hints| == 0 {
      if !isLeaf {
        chain := chain + [entityToken];
      }
      assert Climb(env, published, url) == Top(entityToken);
      assert chain == [entityToken];
      return Success(chain);
    }
    var parent := hints[0];
    if parent == "" {
      return Failure(EmptyAuthorityHint);
    }
    var parentToken :- FetchConfiguration(published, parent);
    var parentDocument :- Parse(env, env.shapes.entityConfiguration, parentToken);
    if !Truthy(parentDocument.fetchEndpoint) {
      return Failure(MissingFetchEndpoint(url, parent));
    }
    var statement :- FetchStatement(published, parentDocument.fetchEndpoint.value, url);
    var _ :- Parse(env, env.shapes.entityStatement, statement);
    chain := chain + [statement];
    assert Climb(env, published, url) == Up(entityToken, statement, parent);
    ChainAboveParent(env, published, url, isLeaf, n);
    var parentChain :- GatherTrustChain(env, published, parent, false, n - 1);
    assert chain == (if isLeaf then [entityToken] else []) + [statement];
    return Success(chain + parentChain);
  }

  /** The chain from an entity is its own contribution before the chain from its
      parent. */
  lemma ChainAboveParent(env: Env, published: Published, url: string, isLeaf: bool, n: nat)
    requires HaltsWithin(Superiors(env, published), url, n) && Climb(env, published, url).Up?
    ensures n > 0 && HaltsWithin(Superiors(env, published), Climb(env, published, url).parent, n - 1)
    ensures var step := Climb(env, published, url);
            var above := ChainOf(env, published, Ancestry(Superiors(env, published), step.parent, n - 1), false);
            ChainOf(env, published, Ancestry(Superiors(env, published), url, n), isLeaf)
            == if above.Failure? then above
               else Success((if isLeaf then [step.configuration] else []) + [step.statement] + above.value)
  {
    var parent := Climb(env, published, url).parent;
    assert Superiors(env, published)(url) == Some(parent);
    ChainUnfolds(env, published, url, Ancestry(Superiors(env, published), parent, n - 1), isLeaf);
  }

  /** A call that does not recurse fails, or yields the single configuration. */
  lemma ChainWithoutSuperior(env: Env, published: Published, url: string, isLeaf: bool, n: nat)
    requires HaltsWithin(Superiors(env, published), url, n)
    ensures var step := Climb(env, published, url);
            !step.Up? ==>
              ChainOf(env, published, Ancestry(Superiors(env, published), url, n), isLeaf)
              == if step.Stuck? then Failure(step.error) else Success([step.configuration])
  {
    var step := Climb(env, published, url);
    if step.Top? {
      var token := step.configuration;
      assert FetchConfiguration(published, url) == Success(token);
      assert [token] + [] + [] == [] + [] + [token] == [token];
    }
  }

  /** The chain of a longer walk is the first call's contribution before the
      chain of the rest. */
  lemma ChainUnfolds(env: Env, published: Published, url: string, rest: seq<string>, isLeaf: bool)
    requires Climb(env, published, url).Up?
    requires rest != [] && rest[0] == Climb(env, published, url).parent
    ensures var step := Climb(env, published, url);
            var above := ChainOf(env, published, rest, false);
            ChainOf(env, published, [url] + rest, isLeaf)
            == if above.Failure? then above
               else Success((if isLeaf then [step.configuration] else []) + [step.statement] + above.value)
  {
    var step := Climb(env, published, url);
    var statements := Statements(env, published, rest);
    var leaf := if isLeaf then [step.configuration] else [];
    assert Statements(env, published, [url] + rest) == [step.statement] + statements;
    assert ([url] + rest)[|rest|] == rest[|rest| - 1];
    ClimbedFetches(env, published, url);
    match ClimbedTop(env, published, rest[|rest| - 1])
    case Failure(_) =>
    case Success(top) => Regroup(leaf, step.statement, statements, top);
  }

  lemma Regroup(leaf: seq<string>, statement: string, statements: seq<string>, top: string)
    ensures leaf + ([statement] + statements) + [top] == leaf + [statement] + ([] + statements + [top])
  {
  }

  /** A step up has fetched both configurations. */
  lemma ClimbedFetches(env: Env, published: Published, url: string)
    requires Climb(env, published, url).Up?
    ensures var step := Climb(env, published, url);
            && FetchConfiguration(published, url) == Success(step.configuration)
            && FetchConfiguration(published, step.parent).Success?
  {
  }

  // ------------------------------------------------------ shape of the result

  /** `token` is what the fetch endpoint in `parent`'s configuration serves about
      `subject`, and it has the shape of a statement. */
  ghost predicate Serves(env: Env, published: Published, parent: string, subject: string, token: string) {
    && FetchAndParse(env, published, parent).Success?
    && var document := FetchAndParse(env, published, parent).value.1;
       && Truthy(document.fetchEndpoint)
       && (document.fetchEndpoint.value, subject) in published.statements
       && token == published.statements[(document.fetchEndpoint.value, subject)]
       && env.decode(token).Some? && env.shapes.entityStatement(env.decode(token).value)
  }

  /** `token` is the configuration of `url`, and it has the shape of one. */
  ghost predicate Configures(env: Env, published: Published, url: string, token: string) {
    && url in published.configurations && token == published.configurations[url]
    && env.decode(token).Some? && env.shapes.entityConfiguration(env.decode(token).value)
  }

  /** The first authority hint in the published configuration of `url`. */
  ghost function FirstHint(env: Env, published: Published, url: string): Option<string> {
    if url in published.configurations && env.decode(published.configurations[url]).Some? then
      var hints := env.decode(published.configurations[url]).value.authorityHints;
      if hints.Some? && hints.value != [] then Some(hints.value[0]) else None
    else
      None
  }

  /** When a call goes up, when it stops at the top, and that it fails otherwise:
      the configuration must be served and well shaped, and a first hint must be
      non-empty and name a parent that serves a statement. */
  lemma ClimbOutcome(env: Env, published: Published, url: string)
    ensures Climb(env, published, url).Top? <==>
              && url in published.configurations && Configures(env, published, url, published.configurations[url])
              && FirstHint(env, published, url) == None
    ensures Climb(env, published, url).Up? <==>
              && url in published.configurations && Configures(env, published, url, published.configurations[url])
              && Truthy(FirstHint(env, published, url))
              && exists token :: Serves(env, published, FirstHint(env, published, url).value, url, token)
    ensures Climb(env, published, url).Up? ==> FirstHint(env, published, url) == Some(Climb(env, published, url).parent)
  {
    var hint := FirstHint(env, published, url);
    if Truthy(hint) {
      ServedStatement(env, published, hint.value, url);
    }
  }

  /** Why a call fails, with its configuration served and well shaped: the first
      hint is empty, or the parent's configuration or the statement is not served
      or not well shaped, or the parent has no fetch endpoint. */
  lemma ClimbFailure(env: Env, published: Published, url: string)
    requires url in published.configurations && Configures(env, published, url, published.configurations[url])
    ensures Climb(env, published, url) == Stuck(EmptyAuthorityHint) <==> FirstHint(env, published, url) == Some("")
    ensures forall parent: string :: parent != "" && FirstHint(env, published, url) == Some(parent) ==>
              (Climb(env, published, url) == Stuck(MissingFetchEndpoint(url, parent))
               <==> && parent in published.configurations
                    && Configures(env, published, parent, published.configurations[parent])
                    && !Truthy(env.decode(published.configurations[parent]).value.fetchEndpoint))
  {
  }

  lemma ServedStatement(env: Env, published: Published, parent: string, subject: string)
    ensures FetchStatementBy(env, published, subject, parent).Success? <==>
              exists token :: Serves(env, published, parent, subject, token)
    ensures FetchStatementBy(env, published, subject, parent).Success? ==>
              Serves(env, published, parent, subject, FetchStatementBy(env, published, subject, parent).value)
  {
    var fetched := FetchStatementBy(env, published, subject, parent);
    if fetched.Success? {
      assert Serves(env, published, parent, subject, fetched.value);
    }
  }

  /** The walk follows first hints, and a chain is only gathered for a walk that
      ends at an entity without any. */
  lemma WalkFollowsFirstHints(env: Env, published: Published, path: seq<string>)
    requires FullWalk(env, published, path) && ChainOf(env, published, path, true).Success?
    ensures forall i :: 0 <= i < |path| - 1 ==> FirstHint(env, published, path[i]) == Some(path[i + 1])
    ensures FirstHint(env, published, path[|path| - 1]) == None
  {
    var up := Superiors(env, published);
    forall i | 0 <= i < |path| - 1
      ensures FirstHint(env, published, path[i]) == Some(path[i + 1])
    {
      assert up(path[i]) == Some(path[i + 1]);
    }
  }

  /** The shape of a gathered chain. A leaf `d` steps below the top has `d + 2`
      tokens, or the single configuration when `d` is 0; the statement at
      position `i + 1` is what the parent's own fetch endpoint serves about
      entity `i`, so a parent without an endpoint is never asked. */
  lemma ChainShape(env: Env, published: Published, path: seq<string>, chain: seq<string>)
    requires FullWalk(env, published, path)
    requires ChainOf(env, published, path, true) == Success(chain)
    ensures var d := |path| - 1;
            && |chain| == (if d == 0 then 1 else d + 2)
            && Configures(env, published, path[0], chain[0])
            && Configures(env, published, path[d], chain[|chain| - 1])
            && forall i :: 0 <= i < d ==> Serves(env, published, path[i + 1], path[i], chain[i + 1])
  {
    var d := |path| - 1;
    var up := Superiors(env, published);
    if d > 0 {
      assert up(path[0]) == Some(path[1]);
      assert chain == [chain[0]] + Statements(env, published, path) + [chain[|chain| - 1]];
      forall i | 0 <= i < d
        ensures Serves(env, published, path[i + 1], path[i], chain[i + 1])
      {
        assert up(path[i]) == Some(path[i + 1]);
        assert FetchStatementBy(env, published, path[i], path[i + 1]).Success?;
      }
    }
  }

  /** Gathering along a walk succeeds exactly when the walk ends at a well-shaped
      configuration without authority hints. */
  lemma GatheringSucceeds(env: Env, published: Published, path: seq<string>)
    requires FullWalk(env, published, path)
    ensures ChainOf(env, published, path, true).Success?
       <==> var top := path[|path| - 1];
            && top in published.configurations && Configures(env, published, top, published.configurations[top])
            && FirstHint(env, published, top) == None
  {
    ClimbOutcome(env, published, path[|path| - 1]);
    if |path| > 1 {
      var up := Superiors(env, published);
      assert up(path[0]) == Some(path[1]);
    }
  }

  // ------------------------------------------------------------- termination

  /** Gathering terminates exactly when the first hints never lead back to an
      entity already visited, and then it recurses no more often than there are
      published configurations. */
  lemma TerminationCondition(env: Env, published: Published, url: string)
    ensures var up := Superiors(env, published);
            && (Halts(up, url) <==> Acyclic(up, url))
            && (Halts(up, url) ==> HaltsWithin(up, url, |published.configurations|))
  {
    var up := Superiors(env, published);
    if Halts(up, url) {
      var n: nat :| HaltsWithin(up, url, n);
      HaltingIsAcyclic(up, url, n);
    }
    if Acyclic(up, url) {
      forall u: string | up(u).Some?
        ensures u in published.configurations.Keys
      {
        assert Climb(env, published, u).Up?;
      }
      AcyclicHalts(up, url, published.configurations.Keys);
    }
  }
}
