/** Evaluating a DCQL query against the stored credentials, and collecting the
    tokens of the response. */
module DcqlEvaluation {
  import opened Wrappers
  import opened Json
  import opened PresentationFrame
  import opened DcqlDisclosure

  /** The stored pair of key tag and raw credential. */
  datatype Original = Original(keyTag: string, credential: string)

  /** A stored credential, decoded for the query library. */
  datatype StoredCredential =
    | StoredSdJwt(vct: string, original: Original)
    | StoredMdoc(doctype: string, original: Original)

  /** What the library reports about the metadata of a matched credential. */
  datatype MatchOutput =
    | DcSdJwt(vct: string)
    | LegacySdJwt(optionalVct: Option<string>)
    | MsoMdoc(doctype: string)
    | OtherFormat

  datatype ValidCredential = ValidCredential(inputIndex: nat, output: MatchOutput, claims: Option<MatchedClaims>)

  datatype Match = Match(success: bool, queryId: string, valid: seq<ValidCredential>)

  datatype CredentialSet = CredentialSet(matchingOptions: Option<seq<seq<string>>>, purpose: Option<string>, required: bool)

  /** The library's answer; the matches are the entries of an object, by id. */
  datatype QueryResult = QueryResult(
    canBeSatisfied: bool,
    matches: seq<(string, Match)>,
    credentialSets: Option<seq<CredentialSet>>)

  datatype Purpose = Purpose(description: Option<string>, required: bool)

  datatype Format = SdJwtFormat | LegacySdJwtFormat | MdocFormat

  datatype Evaluated = Evaluated(
    id: string,
    format: Format,
    identifier: string,
    original: Original,
    frame: map<string, Frame>,
    disclosures: seq<Disclosure>,
    purposes: seq<Purpose>)

  datatype EvaluationError =
    | CredentialsNotFound
    | NotStored(identifier: string)
    | UnsupportedFormat
    | BadFrame(frameError: FrameError)

  // ---------------------------------------------------------------- the index

  function Identifier(c: StoredCredential): (id: string)
    ensures c == StoredSdJwt(id, c.original) || c == StoredMdoc(id, c.original)
  {
    if c.StoredSdJwt? then c.vct else c.doctype
  }

  /** The dictionary from vct or doctype to the stored credential. */
  function CredentialsById(credentials: seq<StoredCredential>): map<string, Original> {
    if credentials == [] then map[]
    else
      var n := |credentials| - 1;
      CredentialsById(credentials[..n])[Identifier(credentials[n]) := credentials[n].original]
  }

  /** The credential at `i` is the last one listed with its identifier. */
  ghost predicate IsLastWithId(credentials: seq<StoredCredential>, id: string, i: nat) {
    && i < |credentials| && Identifier(credentials[i]) == id
    && forall j :: i < j < |credentials| ==> Identifier(credentials[j]) != id
  }

  /** The dictionary holds, under an identifier, the last credential listed with it. */
  lemma {:induction false} IndexHoldsLast(credentials: seq<StoredCredential>, id: string, i: nat) returns (last: nat)
    requires i < |credentials| && Identifier(credentials[i]) == id
    ensures i <= last && IsLastWithId(credentials, id, last)
    ensures id in CredentialsById(credentials) && CredentialsById(credentials)[id] == credentials[last].original
    decreases |credentials|
  {
    var n := |credentials| - 1;
    if Identifier(credentials[n]) == id {
      last := n;
    } else {
      last := IndexHoldsLast(credentials[..n], id, i);
      assert forall j :: 0 <= j < n ==> credentials[..n][j] == credentials[j];
    }
  }

  // --------------------------------------------------------------- evaluation

  function Successful(matches: seq<(string, Match)>): (r: seq<(string, Match)>)
    ensures forall m :: m in r <==> m in matches && m.1.success
  {
    if matches == [] then []
    else
      assert forall m :: m in matches <==> m == matches[0] || m in matches[1..];
      if matches[0].1.success then [matches[0]] + Successful(matches[1..]) else Successful(matches[1..])
  }

  /** Wherever the list of matches is cut, the front's come before the back's. */
  lemma {:induction false} SuccessfulKeepOrder(front: seq<(string, Match)>, back: seq<(string, Match)>)
    ensures Successful(front + back) == Successful(front) + Successful(back)
  {
    if front == [] {
      assert front + back == back;
    } else {
      assert (front + back)[1..] == front[1..] + back;
      SuccessfulKeepOrder(front[1..], back);
    }
  }

  function Flatten(options: seq<seq<string>>): seq<string> {
    if options == [] then [] else options[0] + Flatten(options[1..])
  }

  function SetsNaming(sets: seq<CredentialSet>, id: string): seq<Purpose> {
    if sets == [] then []
    else
      (if sets[0].matchingOptions.Some? && id in Flatten(sets[0].matchingOptions.value)
       then [Purpose(sets[0].purpose, sets[0].required)] else []) + SetsNaming(sets[1..], id)
  }

  /** A match without credential sets is required by default. */
  function PurposesOf(sets: Option<seq<CredentialSet>>, id: string): seq<Purpose> {
    if sets.None? then [Purpose(None, true)] else SetsNaming(sets.value, id)
  }

  ghost predicate Names(s: CredentialSet, id: string) {
    s.matchingOptions.Some? && exists option :: option in s.matchingOptions.value && id in option
  }

  lemma {:induction false} FlattenedOptions(options: seq<seq<string>>, id: string)
    ensures id in Flatten(options) <==> exists option :: option in options && id in option
  {
    if options != [] {
      FlattenedOptions(options[1..], id);
      assert forall option :: option in options <==> option == options[0] || option in options[1..];
    }
  }

  /** The purposes are those of the credential sets that name the id in one of
      their matching options. */
  lemma {:induction false} PurposesOfNamingSets(sets: seq<CredentialSet>, id: string, purpose: Purpose)
    ensures purpose in PurposesOf(Some(sets), id)
       <==> exists s :: s in sets && Names(s, id) && purpose == Purpose(s.purpose, s.required)
  {
    if sets != [] {
      PurposesOfNamingSets(sets[1..], id, purpose);
      assert forall s :: s in sets <==> s == sets[0] || s in sets[1..];
      if sets[0].matchingOptions.Some? {
        FlattenedOptions(sets[0].matchingOptions.value, id);
      }
    }
  }

  /** The indices are those of the sets that name the id, in order. */
  ghost predicate ListsNaming(sets: seq<CredentialSet>, id: string, indices: seq<int>) {
    && (forall k, l :: 0 <= k < l < |indices| ==> indices[k] < indices[l])
    && forall i :: i in indices <==> 0 <= i < |sets| && Names(sets[i], id)
  }

  /** The purposes are what the sets at the indices say. */
  ghost predicate ArePurposesOf(sets: seq<CredentialSet>, indices: seq<int>, purposes: seq<Purpose>) {
    && |purposes| == |indices|
    && forall k :: 0 <= k < |indices| ==>
         && 0 <= indices[k] < |sets|
         && purposes[k] == Purpose(sets[indices[k]].purpose, sets[indices[k]].required)
  }

  lemma OneMoreSet(front: seq<CredentialSet>, last: CredentialSet, id: string)
    ensures PurposesOf(Some(front + [last]), id)
         == PurposesOf(Some(front), id) + if Names(last, id) then [Purpose(last.purpose, last.required)] else []
  {
    PurposesKeepOrder(front, [last], id);
    assert [last][1..] == [] && SetsNaming([], id) == [];
    assert SetsNaming([last], id)
        == if last.matchingOptions.Some? && id in Flatten(last.matchingOptions.value)
           then [Purpose(last.purpose, last.required)] else [];
    if last.matchingOptions.Some? {
      FlattenedOptions(last.matchingOptions.value, id);
    }
  }

  lemma NamingOneMore(front: seq<CredentialSet>, last: CredentialSet, id: string, indices: seq<int>)
    requires ListsNaming(front, id, indices)
    ensures ListsNaming(front + [last], id, if Names(last, id) then indices + [|front|] else indices)
  {
    var sets, all := front + [last], if Names(last, id) then indices + [|front|] else indices;
    forall i
      ensures i in all <==> 0 <= i < |sets| && Names(sets[i], id)
    {
      assert 0 <= i < |front| ==> sets[i] == front[i];
    }
    forall k, l | 0 <= k < l < |all|
      ensures all[k] < all[l]
    {
      assert all[k] in indices;
    }
  }

  lemma PurposesOneMore(front: seq<CredentialSet>, last: CredentialSet, id: string, indices: seq<int>)
    requires ArePurposesOf(front, indices, PurposesOf(Some(front), id))
    ensures ArePurposesOf(front + [last], if Names(last, id) then indices + [|front|] else indices,
                          PurposesOf(Some(front + [last]), id))
  {
    OneMoreSet(front, last, id);
  }

  /** There is one purpose for each credential set that names the id, in the order
      of the sets. */
  lemma {:induction false} PurposesOfSets(sets: seq<CredentialSet>, id: string) returns (indices: seq<int>)
    ensures ListsNaming(sets, id, indices) && ArePurposesOf(sets, indices, PurposesOf(Some(sets), id))
    decreases |sets|
  {
    if sets == [] {
      indices := [];
    } else {
      var front, last := sets[..|sets| - 1], sets[|sets| - 1];
      assert sets == front + [last];
      indices := PurposesOfSets(front, id);
      NamingOneMore(front, last, id, indices);
      PurposesOneMore(front, last, id, indices);
      indices := if Names(last, id) then indices + [|front|] else indices;
    }
  }

  /** And they are in the order of those sets. */
  lemma {:induction false} PurposesKeepOrder(front: seq<CredentialSet>, back: seq<CredentialSet>, id: string)
    ensures PurposesOf(Some(front + back), id) == PurposesOf(Some(front), id) + PurposesOf(Some(back), id)
  {
    if front == [] {
      assert front + back == back;
    } else {
      assert (front + back)[1..] == front[1..] + back;
      PurposesKeepOrder(front[1..], back, id);
    }
  }

  function ClaimsOf(m: Match): (r: ValidCredentials)
    ensures |r| == |m.valid| && forall i :: 0 <= i < |r| ==> r[i] == m.valid[i].claims
  {
    seq(|m.valid|, i requires 0 <= i < |m.valid| => m.valid[i].claims)
  }

  function EvaluateSdJwt(index: map<string, Original>, query: seq<QueriedCredential>, result: QueryResult,
                         id: string, m: Match, vct: string, format: Format): Result<Evaluated, EvaluationError> {
    if vct !in index then Failure(NotStored(vct))
    else
      match PresentationFrameOf(ClaimsOf(m), query, m.queryId)
      case Failure(e) => Failure(BadFrame(e))
      case Success(frame) =>
        Success(Evaluated(id, format, vct, index[vct], frame, ListedClaims(ValidClaims(ClaimsOf(m))),
                          PurposesOf(result.credentialSets, id)))
  }

  function EvaluateMdoc(index: map<string, Original>, result: QueryResult, id: string, m: Match, doctype: string)
    : Result<Evaluated, EvaluationError> {
    if doctype !in index then Failure(NotStored(doctype))
    else
      var listed := ListedElements(ValidClaims(ClaimsOf(m)));
      match AddAll(listed)
      case Failure(e) => Failure(BadFrame(e))
      case Success(frame) =>
        Success(Evaluated(id, MdocFormat, doctype, index[doctype], map[doctype := Node(frame)], listed,
                          PurposesOf(result.credentialSets, id)))
  }

  /** One match, as version 1.3.3 evaluates it. */
  function EvaluateMatch(index: map<string, Original>, query: seq<QueriedCredential>, result: QueryResult,
                         entry: (string, Match)): Result<Evaluated, EvaluationError> {
    var (id, m) := entry;
    if m.valid == [] then Failure(UnsupportedFormat)
    else
      match m.valid[0].output
      case DcSdJwt(vct) => EvaluateSdJwt(index, query, result, id, m, vct, SdJwtFormat)
      case MsoMdoc(doctype) => EvaluateMdoc(index, result, id, m, doctype)
      case _ => Failure(UnsupportedFormat)
  }

  function EvaluateDcqlQuery(sdJwts: seq<StoredCredential>, mdocs: seq<StoredCredential>,
                             query: seq<QueriedCredential>, result: QueryResult)
    : Result<seq<Evaluated>, EvaluationError> {
    if !result.canBeSatisfied then Failure(CredentialsNotFound)
    else
      var index := CredentialsById(sdJwts + mdocs);
      MapAll(Successful(result.matches), (entry: (string, Match)) => EvaluateMatch(index, query, result, entry))
  }

  ghost predicate Stored(credentials: seq<StoredCredential>, id: string) {
    exists c :: c in credentials && Identifier(c) == id
  }

  lemma {:induction false} IndexHoldsStored(credentials: seq<StoredCredential>, id: string)
    ensures id in CredentialsById(credentials) <==> Stored(credentials, id)
  {
    if credentials != [] {
      var n := |credentials| - 1;
      IndexHoldsStored(credentials[..n], id);
      assert forall c :: c in credentials <==> c in credentials[..n] || c == credentials[n];
    }
  }

  /** A match can be evaluated: its first valid credential is an SD-JWT or mdoc
      stored under the reported identifier, and its frame can be built. */
  ghost predicate CanEvaluate(credentials: seq<StoredCredential>, query: seq<QueriedCredential>, m: Match) {
    m.valid != [] &&
    match m.valid[0].output
    case DcSdJwt(vct) => Stored(credentials, vct) && PresentationFrameOf(ClaimsOf(m), query, m.queryId).Success?
    case MsoMdoc(doctype) => Stored(credentials, doctype) && !Conflict(ListedElements(ValidClaims(ClaimsOf(m))))
    case _ => false
  }

  lemma MatchEvaluates(credentials: seq<StoredCredential>, query: seq<QueriedCredential>, result: QueryResult,
                       entry: (string, Match))
    ensures EvaluateMatch(CredentialsById(credentials), query, result, entry).Success?
       <==> CanEvaluate(credentials, query, entry.1)
  {
    if entry.1.valid != [] {
      match entry.1.valid[0].output
      case DcSdJwt(vct) => IndexHoldsStored(credentials, vct);
      case MsoMdoc(doctype) =>
        IndexHoldsStored(credentials, doctype);
        MixedFrame(ListedElements(ValidClaims(ClaimsOf(entry.1))));
      case _ =>
    }
  }

  /** Evaluation succeeds exactly when the query can be satisfied and every
      successful match can be evaluated, and then has their results, in order. */
  lemma EvaluationSucceeds(sdJwts: seq<StoredCredential>, mdocs: seq<StoredCredential>,
                           query: seq<QueriedCredential>, result: QueryResult)
    ensures EvaluateDcqlQuery(sdJwts, mdocs, query, result).Success?
       <==> && result.canBeSatisfied
            && forall entry :: entry in result.matches && entry.1.success ==> CanEvaluate(sdJwts + mdocs, query, entry.1)
    ensures !result.canBeSatisfied ==> EvaluateDcqlQuery(sdJwts, mdocs, query, result) == Failure(CredentialsNotFound)
    ensures EvaluateDcqlQuery(sdJwts, mdocs, query, result).Success? ==>
              var results, entries := EvaluateDcqlQuery(sdJwts, mdocs, query, result).value, Successful(result.matches);
              && |results| == |entries|
              && forall i :: 0 <= i < |entries| ==>
                   EvaluateMatch(CredentialsById(sdJwts + mdocs), query, result, entries[i]) == Success(results[i])
  {
    var entries := Successful(result.matches);
    forall i | 0 <= i < |entries|
      ensures EvaluateMatch(CredentialsById(sdJwts + mdocs), query, result, entries[i]).Success?
         <==> CanEvaluate(sdJwts + mdocs, query, entries[i].1)
    {
      MatchEvaluates(sdJwts + mdocs, query, result, entries[i]);
    }
    assert (forall i :: 0 <= i < |entries| ==> CanEvaluate(sdJwts + mdocs, query, entries[i].1))
       <==> forall entry :: entry in entries ==> CanEvaluate(sdJwts + mdocs, query, entry.1);
  }

  // ----------------------------------------------------- version 1.0.0 compared

  /** One match, as version 1.0.0 evaluates it: SD-JWT only, the legacy format
      included. */
  function EvaluateMatchV1(index: map<string, Original>, query: seq<QueriedCredential>, result: QueryResult,
                           entry: (string, Match)): Result<Evaluated, EvaluationError> {
    var (id, m) := entry;
    if m.valid == [] then Failure(UnsupportedFormat)
    else
      match m.valid[0].output
      case DcSdJwt(vct) => EvaluateSdJwt(index, query, result, id, m, vct, SdJwtFormat)
      case LegacySdJwt(Some(vct)) => EvaluateSdJwt(index, query, result, id, m, vct, LegacySdJwtFormat)
      case _ => Failure(UnsupportedFormat)
  }

  function EvaluateDcqlQueryV1(sdJwts: seq<StoredCredential>, query: seq<QueriedCredential>, result: QueryResult)
    : Result<seq<Evaluated>, EvaluationError> {
    if !result.canBeSatisfied then Failure(CredentialsNotFound)
    else
      var index := CredentialsById(sdJwts);
      MapAll(Successful(result.matches), (entry: (string, Match)) => EvaluateMatchV1(index, query, result, entry))
  }

  lemma NewerMatchAgrees(index: map<string, Original>, query: seq<QueriedCredential>, result: QueryResult,
                         entry: (string, Match))
    ensures entry.1.valid != [] && entry.1.valid[0].output.DcSdJwt? ==>
              EvaluateMatchV1(index, query, result, entry) == EvaluateMatch(index, query, result, entry)
    ensures EvaluateMatch(index, query, result, entry).Success? ==>
              entry.1.valid != [] &&
              (EvaluateMatch(index, query, result, entry).value.format == SdJwtFormat <==> entry.1.valid[0].output.DcSdJwt?)
  {
  }

  /** A match can be evaluated by the older version. */
  ghost predicate CanEvaluateV1(credentials: seq<StoredCredential>, query: seq<QueriedCredential>, m: Match) {
    m.valid != [] && PresentationFrameOf(ClaimsOf(m), query, m.queryId).Success? &&
    match m.valid[0].output
    case DcSdJwt(vct) => Stored(credentials, vct)
    case LegacySdJwt(Some(vct)) => Stored(credentials, vct)
    case _ => false
  }

  lemma OlderMatchEvaluates(credentials: seq<StoredCredential>, query: seq<QueriedCredential>, result: QueryResult,
                            entry: (string, Match))
    ensures EvaluateMatchV1(CredentialsById(credentials), query, result, entry).Success?
       <==> CanEvaluateV1(credentials, query, entry.1)
  {
    if entry.1.valid != [] {
      match entry.1.valid[0].output
      case DcSdJwt(vct) => IndexHoldsStored(credentials, vct);
      case LegacySdJwt(Some(vct)) => IndexHoldsStored(credentials, vct);
      case _ =>
    }
  }

  /** The older version succeeds exactly when the query can be satisfied and every
      successful match can be evaluated, and then has their results, in order. */
  lemma OlderEvaluationSucceeds(sdJwts: seq<StoredCredential>, query: seq<QueriedCredential>, result: QueryResult)
    ensures EvaluateDcqlQueryV1(sdJwts, query, result).Success?
       <==> && result.canBeSatisfied
            && forall entry :: entry in result.matches && entry.1.success ==> CanEvaluateV1(sdJwts, query, entry.1)
    ensures !result.canBeSatisfied ==> EvaluateDcqlQueryV1(sdJwts, query, result) == Failure(CredentialsNotFound)
    ensures EvaluateDcqlQueryV1(sdJwts, query, result).Success? ==>
              var results, entries := EvaluateDcqlQueryV1(sdJwts, query, result).value, Successful(result.matches);
              && |results| == |entries|
              && forall i :: 0 <= i < |entries| ==>
                   EvaluateMatchV1(CredentialsById(sdJwts), query, result, entries[i]) == Success(results[i])
  {
    var entries := Successful(result.matches);
    forall i | 0 <= i < |entries|
      ensures EvaluateMatchV1(CredentialsById(sdJwts), query, result, entries[i]).Success?
         <==> CanEvaluateV1(sdJwts, query, entries[i].1)
    {
      OlderMatchEvaluates(sdJwts, query, result, entries[i]);
    }
    assert (forall i :: 0 <= i < |entries| ==> CanEvaluateV1(sdJwts, query, entries[i].1))
       <==> forall entry :: entry in entries ==> CanEvaluateV1(sdJwts, query, entry.1);
  }

  /** The match reported in the legacy format. */
  function AsLegacy(m: Match, vct: string): Match
    requires m.valid != []
  {
    m.(valid := [m.valid[0].(output := LegacySdJwt(Some(vct)))] + m.valid[1..])
  }

  /** The older version evaluates a legacy SD-JWT that reports its vct as it does
      any SD-JWT, but for the format. */
  lemma LegacyEvaluates(index: map<string, Original>, query: seq<QueriedCredential>, result: QueryResult,
                        entry: (string, Match), vct: string)
    requires entry.1.valid != [] && entry.1.valid[0].output == DcSdJwt(vct)
    ensures var r := EvaluateMatchV1(index, query, result, entry);
            EvaluateMatchV1(index, query, result, (entry.0, AsLegacy(entry.1, vct)))
            == match r case Failure(e) => Failure(e) case Success(e) => Success(e.(format := LegacySdJwtFormat))
  {
    var legacy := AsLegacy(entry.1, vct);
    assert ClaimsOf(legacy) == ClaimsOf(entry.1);
  }

  /** It has no other formats. */
  lemma OlderFormats(index: map<string, Original>, query: seq<QueriedCredential>, result: QueryResult, entry: (string, Match))
    requires EvaluateMatchV1(index, query, result, entry).Success?
    ensures entry.1.valid != []
    ensures var output := entry.1.valid[0].output;
            output.DcSdJwt? || (output.LegacySdJwt? && output.optionalVct.Some?)
  {
  }

  /** On SD-JWT credentials, whenever the newer version answers, the older one
      gives the same answer. */
  lemma VersionsAgree(sdJwts: seq<StoredCredential>, query: seq<QueriedCredential>, result: QueryResult)
    requires forall c :: c in sdJwts ==> c.StoredSdJwt?
    requires EvaluateDcqlQuery(sdJwts, [], query, result).Success?
    requires forall e :: e in EvaluateDcqlQuery(sdJwts, [], query, result).value ==> e.format == SdJwtFormat
    ensures EvaluateDcqlQueryV1(sdJwts, query, result) == EvaluateDcqlQuery(sdJwts, [], query, result)
  {
    assert sdJwts + [] == sdJwts;
    var index := CredentialsById(sdJwts);
    var entries := Successful(result.matches);
    var newer := EvaluateDcqlQuery(sdJwts, [], query, result).value;
    forall i | 0 <= i < |entries|
      ensures EvaluateMatchV1(index, query, result, entries[i]) == Success(newer[i])
    {
      assert EvaluateMatch(index, query, result, entries[i]) == Success(newer[i]);
      assert newer[i] in newer;
      NewerMatchAgrees(index, query, result, entries[i]);
    }
    assert EvaluateDcqlQueryV1(sdJwts, query, result).value == newer;
  }

  // ------------------------------------------------------- what results carry

  /** The library reports the metadata of the credential it was given. */
  ghost predicate ReportsInput(credentials: seq<StoredCredential>, m: Match) {
    m.valid != [] &&
    var first := m.valid[0];
    && first.inputIndex < |credentials|
    && (first.output.DcSdJwt? ==> first.output.vct == Identifier(credentials[first.inputIndex]))
    && (first.output.MsoMdoc? ==> first.output.doctype == Identifier(credentials[first.inputIndex]))
  }

  ghost predicate DistinctIdentifiers(credentials: seq<StoredCredential>) {
    forall i, j :: 0 <= i < j < |credentials| ==> Identifier(credentials[i]) != Identifier(credentials[j])
  }

  /** A result carries what the dictionary holds for the reported identifier. */
  lemma CarriesIndexed(index: map<string, Original>, query: seq<QueriedCredential>, result: QueryResult,
                       entry: (string, Match), credentials: seq<StoredCredential>)
    requires ReportsInput(credentials, entry.1)
    requires EvaluateMatch(index, query, result, entry).Success?
    ensures var e := EvaluateMatch(index, query, result, entry).value;
            var id := Identifier(credentials[entry.1.valid[0].inputIndex]);
            && e.id == entry.0 && e.identifier == id && id in index && e.original == index[id]
            && e.purposes == PurposesOf(result.credentialSets, entry.0)
            && (e.format == SdJwtFormat <==> entry.1.valid[0].output.DcSdJwt?)
            && (e.format == MdocFormat <==> entry.1.valid[0].output.MsoMdoc?)
  {
  }

  /** A result carries the last stored credential with the identifier of the first
      valid match, which with distinct identifiers is the matched one itself, and
      the format of that match. Its purposes are those of the credential sets that
      name its id, or that it is required if there are no credential sets. */
  lemma MatchCarriesCredential(credentials: seq<StoredCredential>, query: seq<QueriedCredential>, result: QueryResult,
                               entry: (string, Match)) returns (last: nat, naming: seq<int>)
    requires ReportsInput(credentials, entry.1)
    requires EvaluateMatch(CredentialsById(credentials), query, result, entry).Success?
    ensures var e := EvaluateMatch(CredentialsById(credentials), query, result, entry).value;
            var matched := entry.1.valid[0].inputIndex;
            && e.id == entry.0 && e.identifier == Identifier(credentials[matched])
            && (e.format == SdJwtFormat <==> entry.1.valid[0].output.DcSdJwt?)
            && (e.format == MdocFormat <==> entry.1.valid[0].output.MsoMdoc?)
            && (result.credentialSets.None? ==> e.purposes == [Purpose(None, true)])
            && (result.credentialSets.Some? ==>
                  && ListsNaming(result.credentialSets.value, entry.0, naming)
                  && ArePurposesOf(result.credentialSets.value, naming, e.purposes))
            && matched <= last && IsLastWithId(credentials, Identifier(credentials[matched]), last)
            && e.original == credentials[last].original
            && (DistinctIdentifiers(credentials) ==> last == matched)
  {
    var matched := entry.1.valid[0].inputIndex;
    var id := Identifier(credentials[matched]);
    last := IndexHoldsLast(credentials, id, matched);
    naming := [];
    if result.credentialSets.Some? {
      naming := PurposesOfSets(result.credentialSets.value, entry.0);
    }
    CarriesIndexed(CredentialsById(credentials), query, result, entry, credentials);
  }

  /** With a faithful library no lookup in the dictionary can miss. */
  lemma LookupsSucceed(credentials: seq<StoredCredential>, query: seq<QueriedCredential>, result: QueryResult,
                       entry: (string, Match))
    requires ReportsInput(credentials, entry.1)
    ensures EvaluateMatch(CredentialsById(credentials), query, result, entry).Failure? ==>
              !EvaluateMatch(CredentialsById(credentials), query, result, entry).error.NotStored?
  {
    var matched := entry.1.valid[0].inputIndex;
    var _ := IndexHoldsLast(credentials, Identifier(credentials[matched]), matched);
  }

  /** The claims of an SD-JWT match are keyed by the roots of the paths that a
      non-empty query requests. */
  ghost predicate KeyedByQuery(query: seq<QueriedCredential>, m: Match) {
    && QueriedClaims(query, m.queryId) != []
    && forall c :: c in ValidClaims(ClaimsOf(m)) ==> KeyedByRoot(QueriedClaims(query, m.queryId), c)
  }

  /** No output of an mdoc match has the empty namespace. */
  ghost predicate NamespacedOutputs(m: Match) {
    forall c :: c in ValidClaims(ClaimsOf(m)) && c.output.Obj? ==> "" !in c.output.keys
  }

  /** For an SD-JWT, the names the user is asked to consent to are the roots of
      what the frame discloses. */
  lemma SdJwtConsentIsDisclosed(index: map<string, Original>, query: seq<QueriedCredential>, result: QueryResult,
                                entry: (string, Match), name: string)
    requires EvaluateMatch(index, query, result, entry).Success? && KeyedByQuery(query, entry.1)
    requires EvaluateMatch(index, query, result, entry).value.format == SdJwtFormat
    ensures var e := EvaluateMatch(index, query, result, entry).value;
            name in e.frame <==> exists d :: d in e.disclosures && d.name == name
  {
    SdJwtResult(index, query, result, entry);
    ConsentEqualsFrame(QueriedClaims(query, entry.1.queryId), ValidClaims(ClaimsOf(entry.1)), name);
  }

  lemma SdJwtResult(index: map<string, Original>, query: seq<QueriedCredential>, result: QueryResult, entry: (string, Match))
    requires EvaluateMatch(index, query, result, entry).Success?
    requires EvaluateMatch(index, query, result, entry).value.format == SdJwtFormat
    ensures var e := EvaluateMatch(index, query, result, entry).value;
            && PresentationFrameOf(ClaimsOf(entry.1), query, entry.1.queryId) == Success(e.frame)
            && e.disclosures == ListedClaims(ValidClaims(ClaimsOf(entry.1)))
  {
    if entry.1.valid[0].output.DcSdJwt? {
      EvaluatedSdJwt(index, query, result, entry.0, entry.1, entry.1.valid[0].output.vct);
    }
  }

  lemma EvaluatedSdJwt(index: map<string, Original>, query: seq<QueriedCredential>, result: QueryResult, id: string, m: Match,
                       vct: string)
    requires EvaluateSdJwt(index, query, result, id, m, vct, SdJwtFormat).Success?
    ensures var e := EvaluateSdJwt(index, query, result, id, m, vct, SdJwtFormat).value;
            && PresentationFrameOf(ClaimsOf(m), query, m.queryId) == Success(e.frame)
            && e.disclosures == ListedClaims(ValidClaims(ClaimsOf(m)))
  {
  }

  /** For an mdoc, the elements the user is asked to consent to are those that the
      frame discloses. */
  lemma MdocConsentIsDisclosed(index: map<string, Original>, query: seq<QueriedCredential>, result: QueryResult,
                               entry: (string, Match), namespace: string, name: string)
    requires EvaluateMatch(index, query, result, entry).Success? && NamespacedOutputs(entry.1)
    requires EvaluateMatch(index, query, result, entry).value.format == MdocFormat
    ensures var e := EvaluateMatch(index, query, result, entry).value;
            Discloses(Node(e.frame), [e.identifier, namespace, name]) <==> Requested(e.disclosures, namespace, name)
  {
    var claims := ValidClaims(ClaimsOf(entry.1));
    var identifier := MdocResult(index, query, result, entry);
    MdocFrameDiscloses(claims, namespace, name);
    ElementsListed(claims, namespace, name);
    UnderDocType(identifier, AddAll(ListedElements(claims)).value, namespace, name);
  }

  lemma MdocResult(index: map<string, Original>, query: seq<QueriedCredential>, result: QueryResult, entry: (string, Match))
    returns (identifier: string)
    requires EvaluateMatch(index, query, result, entry).Success?
    requires EvaluateMatch(index, query, result, entry).value.format == MdocFormat
    ensures var e := EvaluateMatch(index, query, result, entry).value;
            var listed := ListedElements(ValidClaims(ClaimsOf(entry.1)));
            && AddAll(listed).Success? && e.disclosures == listed && e.identifier == identifier
            && e.frame == map[identifier := Node(AddAll(listed).value)]
  {
    identifier := EvaluateMatch(index, query, result, entry).value.identifier;
    if entry.1.valid[0].output.MsoMdoc? {
      EvaluatedMdoc(index, result, entry.0, entry.1, entry.1.valid[0].output.doctype);
    }
  }

  lemma EvaluatedMdoc(index: map<string, Original>, result: QueryResult, id: string, m: Match, doctype: string)
    requires EvaluateMdoc(index, result, id, m, doctype).Success?
    ensures var e := EvaluateMdoc(index, result, id, m, doctype).value;
            var listed := ListedElements(ValidClaims(ClaimsOf(m)));
            && AddAll(listed).Success? && e.disclosures == listed && e.identifier == doctype
            && e.frame == map[doctype := Node(AddAll(listed).value)]
  {
  }

  lemma UnderDocType(docType: string, frame: map<string, Frame>, namespace: string, name: string)
    ensures Discloses(Node(map[docType := Node(frame)]), [docType, namespace, name])
       <==> Discloses(Node(frame), [namespace, name])
  {
    assert [docType, namespace, name][1..] == [namespace, name];
  }

  // ------------------------------------------------------------------- tokens

  datatype Presentation = Presentation(credentialId: string, vpToken: string)

  /** One presentation per result; `token` stands for the foreign presentation
      and signing calls. */
  function PrepareRemotePresentations(results: seq<Evaluated>, token: Evaluated -> string): (r: seq<Presentation>)
    ensures |r| == |results|
    ensures forall i :: 0 <= i < |r| ==> r[i] == Presentation(results[i].id, token(results[i]))
  {
    seq(|results|, i requires 0 <= i < |results| => Presentation(results[i].id, token(results[i])))
  }

  /** The tokens of one credential id, in order. */
  function TokensFor(presentations: seq<Presentation>, id: string): seq<string> {
    if presentations == [] then []
    else
      var n := |presentations| - 1;
      TokensFor(presentations[..n], id) + (if presentations[n].credentialId == id then [presentations[n].vpToken] else [])
  }

  lemma OneMoreToken(presentations: seq<Presentation>, i: nat)
    requires i < |presentations|
    ensures forall id :: TokensFor(presentations[..i + 1], id)
                      == TokensFor(presentations[..i], id)
                         + if presentations[i].credentialId == id then [presentations[i].vpToken] else []
  {
    assert presentations[..i + 1][..i] == presentations[..i];
  }

  /** The `vp_token` of version 1.3.3: tokens pushed into one array per id. */
  method GroupTokens(presentations: seq<Presentation>) returns (acc: map<string, seq<string>>)
    ensures forall id :: TokensFor(presentations, id) == if id in acc then acc[id] else []
    ensures forall id :: id in acc ==> acc[id] != []
  {
    acc := map[];
    for i := 0 to |presentations|
      invariant forall id :: TokensFor(presentations[..i], id) == if id in acc then acc[id] else []
      invariant forall id :: id in acc ==> acc[id] != []
    {
      var p := presentations[i];
      OneMoreToken(presentations, i);
      if p.credentialId !in acc {
        acc := acc[p.credentialId := []];
      }
      acc := acc[p.credentialId := acc[p.credentialId] + [p.vpToken]];
    }
    assert presentations[..|presentations|] == presentations;
  }

  /** The `vp_token` of version 1.0.0: a later token overwrites an earlier one. */
  function OverwritingTokens(presentations: seq<Presentation>): map<string, string> {
    if presentations == [] then map[]
    else
      var n := |presentations| - 1;
      OverwritingTokens(presentations[..n])[presentations[n].credentialId := presentations[n].vpToken]
  }

  ghost predicate DistinctIds(presentations: seq<Presentation>) {
    forall i, j :: 0 <= i < j < |presentations| ==> presentations[i].credentialId != presentations[j].credentialId
  }

  /** Grouping neither loses nor invents a token: each id's group holds each token
      as often as it was presented for that id. */
  lemma {:induction false} NoTokenLost(presentations: seq<Presentation>, id: string, token: string)
    ensures multiset(TokensFor(presentations, id))[token] == multiset(presentations)[Presentation(id, token)]
  {
    if presentations != [] {
      var n := |presentations| - 1;
      NoTokenLost(presentations[..n], id, token);
      assert presentations == presentations[..n] + [presentations[n]];
    }
  }

  /** Wherever the presentations are cut, the front's tokens come before the back's. */
  lemma {:induction false} TokensKeepOrder(front: seq<Presentation>, back: seq<Presentation>, id: string)
    ensures TokensFor(front + back, id) == TokensFor(front, id) + TokensFor(back, id)
    decreases |back|
  {
    if back == [] {
      assert front + back == front;
    } else {
      var n := |back| - 1;
      TokensKeepOrder(front, back[..n], id);
      assert (front + back)[..|front| + n] == front + back[..n];
    }
  }

  /** The older map keeps the last token of each group. */
  lemma {:induction false} OverwritingKeepsLast(presentations: seq<Presentation>, id: string)
    ensures id in OverwritingTokens(presentations) <==> TokensFor(presentations, id) != []
    ensures id in OverwritingTokens(presentations) ==>
              var group := TokensFor(presentations, id); OverwritingTokens(presentations)[id] == group[|group| - 1]
  {
    if presentations != [] {
      OverwritingKeepsLast(presentations[..|presentations| - 1], id);
    }
  }

  lemma {:induction false} GroupSize(presentations: seq<Presentation>, id: string)
    ensures TokensFor(presentations, id) == []
       <==> forall i :: 0 <= i < |presentations| ==> presentations[i].credentialId != id
    ensures |TokensFor(presentations, id)| <= 1
       <==> forall i, j :: 0 <= i < j < |presentations| ==>
              !(presentations[i].credentialId == id && presentations[j].credentialId == id)
  {
    if presentations != [] {
      var n := |presentations| - 1;
      GroupSize(presentations[..n], id);
      assert forall i :: 0 <= i < n ==> presentations[..n][i] == presentations[i];
    }
  }

  /** The two token maps hold the same tokens exactly when no id is presented
      twice; then every id has one token. */
  lemma TokenMapsAgree(presentations: seq<Presentation>)
    ensures (forall id :: id in OverwritingTokens(presentations) ==>
               TokensFor(presentations, id) == [OverwritingTokens(presentations)[id]])
       <==> DistinctIds(presentations)
  {
    forall id
      ensures id in OverwritingTokens(presentations) ==>
                (TokensFor(presentations, id) == [OverwritingTokens(presentations)[id]]
                 <==> |TokensFor(presentations, id)| <= 1)
      ensures id in OverwritingTokens(presentations) || |TokensFor(presentations, id)| <= 1
    {
      OverwritingKeepsLast(presentations, id);
    }
    forall id
      ensures |TokensFor(presentations, id)| <= 1
         <==> forall i, j :: 0 <= i < j < |presentations| ==>
                !(presentations[i].credentialId == id && presentations[j].credentialId == id)
    {
      GroupSize(presentations, id);
    }
    if !DistinctIds(presentations) {
      var i, j :| 0 <= i < j < |presentations| && presentations[i].credentialId == presentations[j].credentialId;
      assert |TokensFor(presentations, presentations[i].credentialId)| > 1;
    }
  }

  // ---------------------------------------------------------------- end to end

  ghost predicate DistinctKeys(entries: seq<(string, Match)>) {
    forall i, j :: 0 <= i < j < |entries| ==> entries[i].0 != entries[j].0
  }

  lemma {:induction false} SuccessfulKeepsDistinct(entries: seq<(string, Match)>)
    requires DistinctKeys(entries)
    ensures DistinctKeys(Successful(entries))
  {
    if entries != [] {
      SuccessfulKeepsDistinct(entries[1..]);
      var rest := Successful(entries[1..]);
      forall m | m in rest
        ensures m.0 != entries[0].0
      {
        var j :| 0 <= j < |entries[1..]| && entries[1..][j] == m;
        assert entries[j + 1] == m;
      }
    }
  }

  lemma {:induction false} OnlyTokenOf(presentations: seq<Presentation>, i: nat)
    requires DistinctIds(presentations) && i < |presentations|
    ensures TokensFor(presentations, presentations[i].credentialId) == [presentations[i].vpToken]
    decreases |presentations|
  {
    var n := |presentations| - 1;
    if i == n {
      GroupSize(presentations[..n], presentations[n].credentialId);
    } else {
      OnlyTokenOf(presentations[..n], i);
    }
  }

  /** From query to response: the results' ids are those of the successful
      matches, in order and pairwise distinct, so each id's group is exactly the
      token of its own result, in both versions. */
  lemma ResponseHasOneTokenPerResult(sdJwts: seq<StoredCredential>, mdocs: seq<StoredCredential>,
                                     query: seq<QueriedCredential>, result: QueryResult, token: Evaluated -> string)
    requires EvaluateDcqlQuery(sdJwts, mdocs, query, result).Success?
    requires DistinctKeys(result.matches)
    ensures var results := EvaluateDcqlQuery(sdJwts, mdocs, query, result).value;
            var presentations := PrepareRemotePresentations(results, token);
            && |results| == |Successful(result.matches)|
            && (forall i :: 0 <= i < |results| ==> results[i].id == Successful(result.matches)[i].0)
            && DistinctIds(presentations)
            && forall i :: 0 <= i < |results| ==>
                 && TokensFor(presentations, results[i].id) == [token(results[i])]
                 && results[i].id in OverwritingTokens(presentations)
                 && OverwritingTokens(presentations)[results[i].id] == token(results[i])
  {
    var results := EvaluateDcqlQuery(sdJwts, mdocs, query, result).value;
    var presentations := PrepareRemotePresentations(results, token);
    ResultIds(sdJwts, mdocs, query, result);
    SuccessfulKeepsDistinct(result.matches);
    assert DistinctIds(presentations);
    forall i | 0 <= i < |results|
      ensures TokensFor(presentations, results[i].id) == [token(results[i])]
      ensures results[i].id in OverwritingTokens(presentations)
      ensures OverwritingTokens(presentations)[results[i].id] == token(results[i])
    {
      OnlyTokenOf(presentations, i);
      OverwritingKeepsLast(presentations, results[i].id);
    }
  }

  lemma ResultIds(sdJwts: seq<StoredCredential>, mdocs: seq<StoredCredential>,
                  query: seq<QueriedCredential>, result: QueryResult)
    requires EvaluateDcqlQuery(sdJwts, mdocs, query, result).Success?
    ensures var results := EvaluateDcqlQuery(sdJwts, mdocs, query, result).value;
            && |results| == |Successful(result.matches)|
            && forall i :: 0 <= i < |results| ==> results[i].id == Successful(result.matches)[i].0
  {
    var index := CredentialsById(sdJwts + mdocs);
    var entries := Successful(result.matches);
    var results := EvaluateDcqlQuery(sdJwts, mdocs, query, result).value;
    forall i | 0 <= i < |results|
      ensures results[i].id == entries[i].0
    {
      assert EvaluateMatch(index, query, result, entries[i]) == Success(results[i]);
      EvaluatedId(index, query, result, entries[i]);
    }
  }

  lemma EvaluatedId(index: map<string, Original>, query: seq<QueriedCredential>, result: QueryResult,
                    entry: (string, Match))
    requires EvaluateMatch(index, query, result, entry).Success?
    ensures EvaluateMatch(index, query, result, entry).value.id == entry.0
  {
  }
}
