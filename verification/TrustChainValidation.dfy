/** Validating a trust chain against a trust anchor
    (section 10.2 of OpenID Federation 1.0). */
module TrustChainValidation {
  import opened Wrappers
  import opened Federation

  // ------------------------------------------------------------- the algorithm

  /** The shape expected at a position of a chain. */
  function TokenShape(shapes: Shapes, length: nat, i: nat): Document -> bool {
    if i == 0 then shapes.first
    else if i == length - 1 then shapes.last
    else shapes.middle
  }

  function ParseAt(env: Env, chain: seq<string>, i: nat): Result<Document, Error>
    requires i < |chain|
  {
    if chain[i] == "" then Failure(TokenMissing(i))
    else Parse(env, TokenShape(env.shapes, |chain|, i), chain[i])
  }

  /** The keys a token is checked against: those of the next token, or the
      anchor's at the end of the chain. */
  function SelectKeys(env: Env, anchor: TrustAnchor, chain: seq<string>, i: nat): Result<seq<Jwk>, Error>
    requires i < |chain|
  {
    if i == |chain| - 1 then
      Success(anchor.keys)
    else
      var next :- ParseAt(env, chain, i + 1);
      Success(next.keys)
  }

  /** Looks up the key by id and has the signature checked. */
  function VerifyToken(env: Env, token: string, kid: string, keys: seq<Jwk>): Result<Document, Error> {
    match FindKey(keys, kid)
    case None => Failure(UnknownKid(kid))
    case Some(key) =>
      if !env.signatureOk(token, key) then Failure(BadSignature)
      else
        match env.decode(token)
        case None => Failure(NotDecoded)
        case Some(document) => Success(document)
  }

  /** The anchor's certificate: the first one of the key that signed its own
      configuration. */
  function AnchorCertificate(anchor: TrustAnchor): Result<string, Error> {
    match FindKey(anchor.keys, anchor.kid)
    case None => Failure(AnchorCertificateMissing)
    case Some(key) =>
      if key.x5c.Some? && key.x5c.value != [] && key.x5c.value[0] != ""
      then Success(key.x5c.value[0])
      else Failure(AnchorCertificateMissing)
  }

  /** The certificates handed to X.509 validation, without a trailing anchor. */
  function WithoutAnchor(x5c: seq<string>, certificate: string): seq<string> {
    if |x5c| > 1 && x5c[|x5c| - 1] == certificate then x5c[..|x5c| - 1] else x5c
  }

  function CheckCertificates(env: Env, certificate: string, key: Jwk): Result<(), Error> {
    if key.x5c.None? || key.x5c.value == [] then
      Failure(MissingCertificates)
    else if !env.certificatesOk(WithoutAnchor(key.x5c.value, certificate), certificate) then
      Failure(BadCertificates)
    else
      Success(())
  }

  function ValidateAt(env: Env, anchor: TrustAnchor, certificate: string, chain: seq<string>, i: nat)
    : Result<Document, Error>
    requires i < |chain|
  {
    var document :- ParseAt(env, chain, i);
    var keys :- SelectKeys(env, anchor, chain, i);
    var parsed :- VerifyToken(env, chain[i], document.kid, keys);
    var _ :- CheckCertificates(env, certificate, FindKey(keys, document.kid).value);
    Success(parsed)
  }

  /** Every token of the chain is validated on its own; the chain is accepted
      when all of them are. */
  function ValidateTrustChain(env: Env, anchor: TrustAnchor, chain: seq<string>): Result<seq<Document>, Error> {
    if chain == [] then
      Failure(ChainEmpty)
    else
      var certificate :- AnchorCertificate(anchor);
      All(seq(|chain|, i requires 0 <= i < |chain| => ValidateAt(env, anchor, certificate, chain, i)))
  }

  // ------------------------------------------------------------- specification

  /** A key set vouches for a token: its first key with the token's key id
      verifies the signature and carries a certificate chain accepted under the
      anchor's certificate. */
  ghost predicate Vouches(env: Env, certificate: string, keys: seq<Jwk>, token: string) {
    env.decode(token).Some? &&
    exists i :: 0 <= i < |keys| && IsSigningKey(keys, env.decode(token).value.kid, i)
                && AcceptedUnder(env, certificate, keys[i], token)
  }

  ghost predicate IsSigningKey(keys: seq<Jwk>, kid: string, i: nat)
    requires i < |keys|
  {
    keys[i].kid == Some(kid) && forall j :: 0 <= j < i ==> keys[j].kid != Some(kid)
  }

  ghost predicate AcceptedUnder(env: Env, certificate: string, key: Jwk, token: string) {
    && env.signatureOk(token, key)
    && key.x5c.Some? && key.x5c.value != []
    && env.certificatesOk(WithoutAnchor(key.x5c.value, certificate), certificate)
  }

  /** The keys that a token hands on. */
  ghost function KeysOf(env: Env, token: string): seq<Jwk> {
    match env.decode(token)
    case None => []
    case Some(document) => document.keys
  }

  /** A run of signature and certificate steps: each token is vouched for by the
      keys reached so far, and hands on its own. */
  ghost predicate Run(env: Env, certificate: string, keys: seq<Jwk>, tokens: seq<string>)
    decreases |tokens|
  {
    tokens == [] ||
    (Vouches(env, certificate, keys, tokens[0]) && Run(env, certificate, KeysOf(env, tokens[0]), tokens[1..]))
  }

  /** The keys reached at the end of a run. */
  ghost function Reached(env: Env, keys: seq<Jwk>, tokens: seq<string>): seq<Jwk>
    decreases |tokens|
  {
    if tokens == [] then keys else Reached(env, KeysOf(env, tokens[0]), tokens[1..])
  }

  /** A key set that some run derives from the anchor's keys. */
  ghost predicate Trusted(env: Env, anchor: TrustAnchor, certificate: string, keys: seq<Jwk>) {
    exists run: seq<string> :: Run(env, certificate, anchor.keys, run) && Reached(env, anchor.keys, run) == keys
  }

  /** The tokens of a chain from its end down to position `i`. */
  function Downward(chain: seq<string>, i: nat): (run: seq<string>)
    requires i <= |chain|
    ensures |run| == |chain| - i
    decreases |chain| - i
  {
    if i == |chain| then [] else Downward(chain, i + 1) + [chain[i]]
  }

  /** Every token is there, and the first, the last and those in between have the
      shapes meant for them; a single token counts as the first. */
  ghost predicate WellShaped(env: Env, chain: seq<string>) {
    forall i :: 0 <= i < |chain| ==>
      && chain[i] != "" && env.decode(chain[i]).Some?
      && var document := env.decode(chain[i]).value;
         && (i == 0 ==> env.shapes.first(document))
         && (0 < i < |chain| - 1 ==> env.shapes.middle(document))
         && (0 < i == |chain| - 1 ==> env.shapes.last(document))
  }

  // ------------------------------------------------------------------- proofs

  /** Parsing by position succeeds throughout exactly on well-shaped chains. */
  lemma ParsesWhenWellShaped(env: Env, chain: seq<string>)
    ensures WellShaped(env, chain) <==> forall i :: 0 <= i < |chain| ==> ParseAt(env, chain, i).Success?
  {
    if forall i :: 0 <= i < |chain| ==> ParseAt(env, chain, i).Success? {
      forall i | 0 <= i < |chain|
        ensures chain[i] != "" && env.decode(chain[i]).Some?
        ensures TokenShape(env.shapes, |chain|, i)(env.decode(chain[i]).value)
      {
        assert ParseAt(env, chain, i).Success?;
      }
    }
  }

  /** A trailing anchor certificate, and only that, is taken off a longer chain. */
  lemma AnchorIsSuppliedSeparately(x5c: seq<string>, certificate: string)
    ensures var rest := WithoutAnchor(x5c, certificate);
            && (rest == x5c || rest + [certificate] == x5c)
            && (x5c != [] ==> rest != [])
            && (rest == x5c <==> |x5c| <= 1 || x5c[|x5c| - 1] != certificate)
  {
  }

  lemma {:induction false} RunExtends(env: Env, certificate: string, keys: seq<Jwk>, tokens: seq<string>, next: string)
    ensures Run(env, certificate, keys, tokens + [next])
       <==> Run(env, certificate, keys, tokens) && Vouches(env, certificate, Reached(env, keys, tokens), next)
    ensures Reached(env, keys, tokens + [next]) == KeysOf(env, next)
    decreases |tokens|
  {
    if tokens == [] {
      assert ([next])[1..] == [];
    } else {
      RunExtends(env, certificate, KeysOf(env, tokens[0]), tokens[1..], next);
      assert (tokens + [next])[1..] == tokens[1..] + [next];
    }
  }

  lemma OneSigningKey(keys: seq<Jwk>, kid: string, i: nat, j: nat)
    requires i < |keys| && j < |keys| && IsSigningKey(keys, kid, i) && IsSigningKey(keys, kid, j)
    ensures i == j
  {
  }

  /** The key lookup and checks of one token amount to being vouched for. */
  lemma ChecksVouch(env: Env, certificate: string, keys: seq<Jwk>, token: string)
    requires env.decode(token).Some?
    ensures var kid := env.decode(token).value.kid;
            Vouches(env, certificate, keys, token)
            <==> VerifyToken(env, token, kid, keys).Success?
                 && CheckCertificates(env, certificate, FindKey(keys, kid).value).Success?
  {
    var kid := env.decode(token).value.kid;
    match FindKey(keys, kid)
    case None =>
    case Some(key) =>
      var i :| 0 <= i < |keys| && keys[i] == key && IsSigningKey(keys, kid, i);
      forall j | 0 <= j < |keys| && IsSigningKey(keys, kid, j)
        ensures j == i
      {
        OneSigningKey(keys, kid, i, j);
      }
  }

  /** The anchor's certificate is the first one of its signing key, if present. */
  lemma AnchorCertificateIsTheSigners(anchor: TrustAnchor, certificate: string)
    ensures AnchorCertificate(anchor) == Success(certificate)
       <==> certificate != "" &&
            exists i :: 0 <= i < |anchor.keys| && IsSigningKey(anchor.keys, anchor.kid, i)
                        && anchor.keys[i].x5c.Some? && |anchor.keys[i].x5c.value| > 0
                        && anchor.keys[i].x5c.value[0] == certificate
  {
    match FindKey(anchor.keys, anchor.kid)
    case None =>
    case Some(key) =>
      var i :| 0 <= i < |anchor.keys| && anchor.keys[i] == key && IsSigningKey(anchor.keys, anchor.kid, i);
      forall j | 0 <= j < |anchor.keys| && IsSigningKey(anchor.keys, anchor.kid, j)
        ensures j == i
      {
        OneSigningKey(anchor.keys, anchor.kid, i, j);
      }
  }

  /** The keys the code selects are those reached by the run down to the next
      token. */
  lemma SelectedKeys(env: Env, anchor: TrustAnchor, chain: seq<string>, i: nat)
    requires i < |chain| && WellShaped(env, chain)
    ensures SelectKeys(env, anchor, chain, i) == Success(Reached(env, anchor.keys, Downward(chain, i + 1)))
  {
    ParsesWhenWellShaped(env, chain);
    if i + 1 < |chain| {
      assert ParseAt(env, chain, i + 1).Success?;
      RunExtends(env, "", anchor.keys, Downward(chain, i + 2), chain[i + 1]);
    }
  }

  /** One token of a well-shaped chain is accepted exactly when the keys reached
      by the run down to the next token vouch for it. */
  lemma AcceptedWhenVouched(env: Env, anchor: TrustAnchor, certificate: string, chain: seq<string>, i: nat)
    requires i < |chain| && WellShaped(env, chain)
    ensures ValidateAt(env, anchor, certificate, chain, i).Success?
       <==> Vouches(env, certificate, Reached(env, anchor.keys, Downward(chain, i + 1)), chain[i])
  {
    ParsesWhenWellShaped(env, chain);
    assert ParseAt(env, chain, i).Success?;
    SelectedKeys(env, anchor, chain, i);
    ChecksVouch(env, certificate, Reached(env, anchor.keys, Downward(chain, i + 1)), chain[i]);
  }

  lemma AcceptedIsDecoded(env: Env, anchor: TrustAnchor, certificate: string, chain: seq<string>, i: nat)
    requires i < |chain| && ValidateAt(env, anchor, certificate, chain, i).Success?
    ensures ParseAt(env, chain, i).Success?
    ensures env.decode(chain[i]) == Some(ValidateAt(env, anchor, certificate, chain, i).value)
  {
  }

  lemma OneTokenFurther(env: Env, anchor: TrustAnchor, certificate: string, chain: seq<string>, i: nat)
    requires i < |chain| && WellShaped(env, chain)
    ensures Run(env, certificate, anchor.keys, Downward(chain, i))
       <==> && Run(env, certificate, anchor.keys, Downward(chain, i + 1))
            && ValidateAt(env, anchor, certificate, chain, i).Success?
  {
    RunExtends(env, certificate, anchor.keys, Downward(chain, i + 1), chain[i]);
    AcceptedWhenVouched(env, anchor, certificate, chain, i);
  }

  lemma {:induction false} RunsDownTo(env: Env, anchor: TrustAnchor, certificate: string, chain: seq<string>, i: nat)
    requires i <= |chain| && WellShaped(env, chain)
    ensures Run(env, certificate, anchor.keys, Downward(chain, i))
       <==> forall k :: i <= k < |chain| ==> ValidateAt(env, anchor, certificate, chain, k).Success?
    decreases |chain| - i
  {
    if i < |chain| {
      RunsDownTo(env, anchor, certificate, chain, i + 1);
      OneTokenFurther(env, anchor, certificate, chain, i);
    }
  }

  /** Validation accepts exactly the non-empty, well-shaped chains that, read
      from the anchor's end, are a run of signature and certificate steps from
      the anchor's own keys; it then returns the decoded tokens in order. */
  lemma ValidationIsARun(env: Env, anchor: TrustAnchor, chain: seq<string>)
    ensures ValidateTrustChain(env, anchor, chain).Success?
       <==> && chain != []
            && AnchorCertificate(anchor).Success?
            && WellShaped(env, chain)
            && Run(env, AnchorCertificate(anchor).value, anchor.keys, Downward(chain, 0))
    ensures ValidateTrustChain(env, anchor, chain).Success? ==>
              DecodesTo(env, chain, ValidateTrustChain(env, anchor, chain).value)
  {
    if chain != [] && AnchorCertificate(anchor).Success? {
      var certificate := AnchorCertificate(anchor).value;
      ValidationIsPointwise(env, anchor, chain);
      ParsesWhenWellShaped(env, chain);
      forall i | 0 <= i < |chain| && ValidateAt(env, anchor, certificate, chain, i).Success?
        ensures ParseAt(env, chain, i).Success?
        ensures env.decode(chain[i]) == Some(ValidateAt(env, anchor, certificate, chain, i).value)
      {
        AcceptedIsDecoded(env, anchor, certificate, chain, i);
      }
      if WellShaped(env, chain) {
        RunsDownTo(env, anchor, certificate, chain, 0);
      }
    }
  }

  lemma ValidationIsPointwise(env: Env, anchor: TrustAnchor, chain: seq<string>)
    requires chain != [] && AnchorCertificate(anchor).Success?
    ensures var certificate := AnchorCertificate(anchor).value;
            var r := ValidateTrustChain(env, anchor, chain);
            && (r.Success? <==> forall i :: 0 <= i < |chain| ==> ValidateAt(env, anchor, certificate, chain, i).Success?)
            && (r.Success? ==> |r.value| == |chain|)
            && (r.Success? ==> forall i :: 0 <= i < |chain| ==> r.value[i] == ValidateAt(env, anchor, certificate, chain, i).value)
  {
    var certificate := AnchorCertificate(anchor).value;
    var outcomes := seq(|chain|, i requires 0 <= i < |chain| => ValidateAt(env, anchor, certificate, chain, i));
    assert ValidateTrustChain(env, anchor, chain) == All(outcomes);
    assert forall i :: 0 <= i < |chain| ==> outcomes[i] == ValidateAt(env, anchor, certificate, chain, i);
  }

  /** `documents` are the decoded tokens of the chain, in its order. */
  ghost predicate DecodesTo(env: Env, chain: seq<string>, documents: seq<Document>) {
    && |documents| == |chain|
    && forall i :: 0 <= i < |chain| ==> env.decode(chain[i]) == Some(documents[i])
  }

  lemma {:induction false} RunPrefix(env: Env, certificate: string, keys: seq<Jwk>, chain: seq<string>, i: nat)
    requires i <= |chain| && Run(env, certificate, keys, Downward(chain, 0))
    ensures Run(env, certificate, keys, Downward(chain, i))
    decreases i
  {
    if i > 0 {
      RunPrefix(env, certificate, keys, chain, i - 1);
      RunExtends(env, certificate, keys, Downward(chain, i), chain[i - 1]);
    }
  }

  /** Soundness over keys: in an accepted chain the key set of every token is
      derivable from the anchor's keys. */
  lemma AcceptedKeysAreTrusted(env: Env, anchor: TrustAnchor, chain: seq<string>, i: nat)
    requires ValidateTrustChain(env, anchor, chain).Success? && i < |chain|
    ensures AnchorCertificate(anchor).Success?
    ensures Trusted(env, anchor, AnchorCertificate(anchor).value, ValidateTrustChain(env, anchor, chain).value[i].keys)
  {
    ValidationIsARun(env, anchor, chain);
    var certificate := AnchorCertificate(anchor).value;
    RunPrefix(env, certificate, anchor.keys, chain, i);
    RunExtends(env, certificate, anchor.keys, Downward(chain, i + 1), chain[i]);
    assert Run(env, certificate, anchor.keys, Downward(chain, i));
  }
}
