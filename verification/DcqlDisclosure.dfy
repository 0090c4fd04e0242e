/** From a DCQL match to the claims listed for consent and the frame that
    discloses them. */
module DcqlDisclosure {
  import opened Wrappers
  import opened Json
  import opened PresentationFrame
  import opened FrameMerging

  /** A claim as the query library reports it. */
  datatype MatchedClaim = MatchedClaim(claimIndex: int, output: Json)

  datatype ClaimSet = ClaimSet(validClaimIndexes: Option<seq<int>>)

  datatype MatchedClaims = MatchedClaims(validClaims: Option<seq<MatchedClaim>>, validClaimSets: seq<ClaimSet>)

  /** The claims part of the valid credentials of a match. */
  type ValidCredentials = seq<Option<MatchedClaims>>

  /** A requested claim, and a credential query with its requested claims. */
  datatype QueriedClaim = QueriedClaim(path: Option<Path>)

  datatype QueriedCredential = QueriedCredential(id: string, claims: Option<seq<QueriedClaim>>)

  datatype Disclosure = Disclosure(name: string, namespace: Option<string>, value: Json)

  datatype FrameError = NoPath(claimIndex: int) | NoObject | NotAFrame

  // ------------------------------------------------------------- valid claims

  /** The claim at `i` is the first one with the claim index. */
  ghost predicate IsFirstClaim(claims: seq<MatchedClaim>, index: int, i: int) {
    && 0 <= i < |claims| && claims[i].claimIndex == index
    && forall j :: 0 <= j < i ==> claims[j].claimIndex != index
  }

  /** The claim is the first one with its claim index. */
  ghost predicate IsFirstWithIndex(claims: seq<MatchedClaim>, c: MatchedClaim) {
    exists i :: IsFirstClaim(claims, c.claimIndex, i) && claims[i] == c
  }

  function FindClaim(claims: seq<MatchedClaim>, index: int): (r: Option<MatchedClaim>)
    ensures r.Some? ==> r.value in claims && r.value.claimIndex == index
    ensures r.None? ==> forall c :: c in claims ==> c.claimIndex != index
  {
    if claims == [] then None
    else
      assert forall c :: c in claims <==> c == claims[0] || c in claims[1..];
      if claims[0].claimIndex == index then Some(claims[0]) else FindClaim(claims[1..], index)
  }

  /** The claims with the given indices that were found, in the indices' order. */
  function FindClaims(claims: seq<MatchedClaim>, indexes: seq<int>): seq<MatchedClaim> {
    if indexes == [] then []
    else FoundClaim(claims, indexes[0]) + FindClaims(claims, indexes[1..])
  }

  function FoundClaim(claims: seq<MatchedClaim>, index: int): seq<MatchedClaim> {
    var found := FindClaim(claims, index);
    if found.Some? then [found.value] else []
  }

  /** The claims to disclose: those of the first valid claim set, or all valid
      claims when there is none. */
  function ValidClaims(credentials: ValidCredentials): (r: seq<MatchedClaim>)
    ensures (&& credentials != [] && credentials[0].Some? && credentials[0].value.validClaims.Some?
             && credentials[0].value.validClaimSets == [])
        ==> r == credentials[0].value.validClaims.value
    ensures credentials == [] || credentials[0].None? || credentials[0].value.validClaims.None? ==> r == []
    ensures (&& credentials != [] && credentials[0].Some? && credentials[0].value.validClaimSets != []
             && credentials[0].value.validClaimSets[0].validClaimIndexes.None?)
        ==> r == []
  {
    if credentials == [] || credentials[0].None? || credentials[0].value.validClaims.None? then
      []
    else
      var claims, sets := credentials[0].value.validClaims.value, credentials[0].value.validClaimSets;
      if sets == [] then claims
      else if sets[0].validClaimIndexes.None? then []
      else FindClaims(claims, sets[0].validClaimIndexes.value)
  }

  lemma {:induction false} FoundInOrder(claims: seq<MatchedClaim>, indexes: seq<int>)
    ensures forall c :: c in FindClaims(claims, indexes) <==>
              exists i :: i in indexes && FindClaim(claims, i) == Some(c)
    ensures (forall i :: i in indexes ==> FindClaim(claims, i).Some?) ==>
              && |FindClaims(claims, indexes)| == |indexes|
              && forall j :: 0 <= j < |indexes| ==> FindClaim(claims, indexes[j]) == Some(FindClaims(claims, indexes)[j])
  {
    if indexes != [] {
      FoundInOrder(claims, indexes[1..]);
      assert forall i :: i in indexes <==> i == indexes[0] || i in indexes[1..];
    }
  }

  lemma {:induction false} FirstClaimAt(claims: seq<MatchedClaim>, index: int, i: int)
    requires IsFirstClaim(claims, index, i)
    ensures FindClaim(claims, index) == Some(claims[i])
  {
    if i > 0 {
      FirstClaimAt(claims[1..], index, i - 1);
    }
  }

  lemma {:induction false} FoundIsFirst(claims: seq<MatchedClaim>, index: int) returns (i: int)
    requires FindClaim(claims, index).Some?
    ensures IsFirstClaim(claims, index, i) && claims[i] == FindClaim(claims, index).value
  {
    if claims[0].claimIndex == index {
      i := 0;
    } else {
      i := FoundIsFirst(claims[1..], index);
      assert forall j :: 0 < j < |claims| ==> claims[j] == claims[1..][j - 1];
      i := i + 1;
    }
  }

  /** Looking up finds exactly the claims that are the first with their index. */
  lemma FirstClaimFound(claims: seq<MatchedClaim>, c: MatchedClaim)
    ensures FindClaim(claims, c.claimIndex) == Some(c) <==> IsFirstWithIndex(claims, c)
  {
    if FindClaim(claims, c.claimIndex) == Some(c) {
      var i := FoundIsFirst(claims, c.claimIndex);
      assert IsFirstClaim(claims, c.claimIndex, i) && claims[i] == c;
    }
    if IsFirstWithIndex(claims, c) {
      var i :| IsFirstClaim(claims, c.claimIndex, i) && claims[i] == c;
      FirstClaimAt(claims, c.claimIndex, i);
    }
  }

  /** With a claim set, the disclosed claims are, in the order of its indices, the
      first valid claim for each index that has one, and no others. */
  lemma DisclosedClaims(credentials: ValidCredentials, claims: seq<MatchedClaim>, indexes: seq<int>)
    requires credentials != [] && credentials[0].Some? && credentials[0].value.validClaims == Some(claims)
    requires credentials[0].value.validClaimSets != []
    requires credentials[0].value.validClaimSets[0].validClaimIndexes == Some(indexes)
    ensures forall c :: c in ValidClaims(credentials) <==> c.claimIndex in indexes && IsFirstWithIndex(claims, c)
    ensures (forall i :: i in indexes ==> exists c :: c in claims && c.claimIndex == i) ==>
              && |ValidClaims(credentials)| == |indexes|
              && forall j :: 0 <= j < |indexes| ==> ValidClaims(credentials)[j].claimIndex == indexes[j]
  {
    FoundInOrder(claims, indexes);
    forall c: MatchedClaim
      ensures FindClaim(claims, c.claimIndex) == Some(c) <==> IsFirstWithIndex(claims, c)
    {
      FirstClaimFound(claims, c);
    }
    forall i | i in indexes && exists c :: c in claims && c.claimIndex == i
      ensures FindClaim(claims, i).Some?
    {
    }
  }

  /** Wherever the claim set is cut, the front's claims come before the back's. */
  lemma {:induction false} FoundKeepOrder(claims: seq<MatchedClaim>, front: seq<int>, back: seq<int>)
    ensures FindClaims(claims, front + back) == FindClaims(claims, front) + FindClaims(claims, back)
    decreases |back|
  {
    if back == [] {
      assert front + back == front;
    } else {
      var n := |back| - 1;
      assert front + back == (front + back[..n]) + [back[n]] && back == back[..n] + [back[n]];
      FoundKeepOrder(claims, front, back[..n]);
      OneMoreFound(claims, front + back[..n], back[n]);
      OneMoreFound(claims, back[..n], back[n]);
    }
  }

  lemma {:induction false} OneMoreFound(claims: seq<MatchedClaim>, indexes: seq<int>, index: int)
    ensures FindClaims(claims, indexes + [index]) == FindClaims(claims, indexes) + FoundClaim(claims, index)
  {
    if indexes == [] {
      assert [] + [index] == [index] && [index][1..] == [];
    } else {
      assert (indexes + [index])[1..] == indexes[1..] + [index];
      OneMoreFound(claims, indexes[1..], index);
    }
  }

  // ------------------------------------------------------------ SD-JWT frames

  /** The credential query at `i` is the first one with the id. */
  ghost predicate IsFirstQuery(query: seq<QueriedCredential>, id: string, i: int) {
    && 0 <= i < |query| && query[i].id == id
    && forall j :: 0 <= j < i ==> query[j].id != id
  }

  function FindQuery(query: seq<QueriedCredential>, id: string): (r: Option<QueriedCredential>)
    ensures r.Some? ==> r.value in query && r.value.id == id
    ensures r.None? ==> forall q :: q in query ==> q.id != id
  {
    if query == [] then None
    else
      assert forall q :: q in query <==> q == query[0] || q in query[1..];
      if query[0].id == id then Some(query[0]) else FindQuery(query[1..], id)
  }

  /** Looking up finds the first credential query with the id. */
  lemma {:induction false} FirstQueryFound(query: seq<QueriedCredential>, id: string, i: int)
    requires IsFirstQuery(query, id, i)
    ensures FindQuery(query, id) == Some(query[i])
    decreases |query|
  {
    if i > 0 {
      FirstQueryFound(query[1..], id, i - 1);
    }
  }

  /** The claims that the query requests from the matched credential. */
  function QueriedClaims(query: seq<QueriedCredential>, id: string): seq<QueriedClaim> {
    var found := FindQuery(query, id);
    if found.Some? && found.value.claims.Some? then found.value.claims.value else []
  }

  /** The frame of one disclosed claim. */
  function ClaimFrame(queried: seq<QueriedClaim>, claim: MatchedClaim): Result<Frame, FrameError> {
    if 0 <= claim.claimIndex < |queried| && queried[claim.claimIndex].path.Some? then
      match PathToFrame(queried[claim.claimIndex].path.value, claim.output)
      case Failure(_) => Failure(NoObject)
      case Success(frame) => Success(frame)
    else
      Failure(NoPath(claim.claimIndex))
  }

  /** The frames of the disclosed claims, in their order. */
  function ClaimFrames(queried: seq<QueriedClaim>, claims: seq<MatchedClaim>): Result<seq<Frame>, FrameError> {
    MapAll(claims, (c: MatchedClaim) => ClaimFrame(queried, c))
  }

  /** The frame that discloses a match: the merged frames of its claims, or
      nothing when the query requests no particular claims. */
  function PresentationFrameOf(credentials: ValidCredentials, query: seq<QueriedCredential>, id: string)
    : Result<map<string, Frame>, FrameError>
  {
    var queried := QueriedClaims(query, id);
    if queried == [] then Success(map[])
    else
      var frames :- ClaimFrames(queried, ValidClaims(credentials));
      Success(MergeFrames(frames))
  }

  /** Builds the presentation frame, claim by claim. */
  method GetPresentationFrame(credentials: ValidCredentials, query: seq<QueriedCredential>, id: string)
    returns (r: Result<map<string, Frame>, FrameError>)
    ensures r.Success? <==> PresentationFrameOf(credentials, query, id).Success?
    ensures r.Success? ==> r == PresentationFrameOf(credentials, query, id)
  {
    var queried := QueriedClaims(query, id);
    if |queried| == 0 {
      return Success(map[]);
    }
    var claims := ValidClaims(credentials);
    var acc := map[];
    ghost var frames: seq<Frame> := [];
    for i := 0 to |claims|
      invariant |frames| == i && acc == MergeFrames(frames)
      invariant forall j :: 0 <= j < i ==> ClaimFrame(queried, claims[j]) == Success(frames[j])
    {
      var frame := ClaimFrame(queried, claims[i]);
      if frame.Failure? {
        return Failure(frame.error);
      }
      acc := MergeInto(acc, frame.value);
      frames := frames + [frame.value];
      assert frames[..i] == frames[..|frames| - 1];
    }
    assert ClaimFrames(queried, claims).value == frames;
    return Success(acc);
  }

  /** The claims listed for consent, for an SD-JWT credential. */
  function ListedClaims(claims: seq<MatchedClaim>): seq<Disclosure> {
    if claims == [] then [] else Entries(claims[0].output) + ListedClaims(claims[1..])
  }

  function Entries(output: Json): (r: seq<Disclosure>)
    ensures |r| == if output.Obj? then |output.keys| else 0
    ensures forall i :: 0 <= i < |r| ==>
              r[i] == Disclosure(output.keys[i], None, FieldOr(output.fields, output.keys[i]))
  {
    match output
    case Obj(keys, fields) =>
      seq(|keys|, i requires 0 <= i < |keys| => Disclosure(keys[i], None, FieldOr(fields, keys[i])))
    case _ => []
  }

  function FieldOr(fields: map<string, Json>, key: string): Json {
    if key in fields then fields[key] else Null
  }

  /** The names listed for consent. */
  ghost predicate Lists(claims: seq<MatchedClaim>, name: string) {
    exists d :: d in ListedClaims(claims) && d.name == name
  }

  /** A claim's output holds the root of its own path, and only that. */
  ghost predicate KeyedByRoot(queried: seq<QueriedClaim>, claim: MatchedClaim) {
    && 0 <= claim.claimIndex < |queried| && queried[claim.claimIndex].path.Some?
    && var path := queried[claim.claimIndex].path.value;
       && path != [] && path[0].Key?
       && claim.output.Obj? && claim.output.keys == [path[0].name] && path[0].name in claim.output.fields
  }

  lemma {:induction false} ListedNames(claims: seq<MatchedClaim>)
    requires forall c :: c in claims ==> c.output.Obj? && |c.output.keys| == 1 && c.output.keys[0] in c.output.fields
    ensures forall name :: Lists(claims, name) <==> exists c :: c in claims && c.output.keys == [name]
  {
    if claims != [] {
      ListedNames(claims[1..]);
      assert forall c :: c in claims <==> c == claims[0] || c in claims[1..];
      var key := claims[0].output.keys[0];
      forall name
        ensures Lists(claims, name) <==> name == key || Lists(claims[1..], name)
      {
        if name == key {
          assert Entries(claims[0].output)[0] in ListedClaims(claims);
        }
        if Lists(claims[1..], name) {
          var d :| d in ListedClaims(claims[1..]) && d.name == name;
          assert d in ListedClaims(claims);
        }
        if Lists(claims, name) && name != key {
          var d :| d in ListedClaims(claims) && d.name == name;
          assert d in ListedClaims(claims[1..]);
        }
      }
      assert forall name :: [key] == [name] <==> key == name;
    }
  }

  lemma {:induction false} MergedRoots(frames: seq<Frame>)
    ensures forall k :: k in MergeFrames(frames) <==> exists i :: 0 <= i < |frames| && k in Children(frames[i])
  {
    if frames != [] {
      var n := |frames| - 1;
      MergedRoots(frames[..n]);
      assert forall i :: 0 <= i < n ==> frames[..n][i] == frames[i];
    }
  }

  /** The consent list equals the frame: if every output is keyed by its path's
      root, the listed names are exactly the frame's root keys. */
  lemma ConsentEqualsFrame(queried: seq<QueriedClaim>, claims: seq<MatchedClaim>, name: string)
    requires forall c :: c in claims ==> KeyedByRoot(queried, c)
    requires ClaimFrames(queried, claims).Success?
    ensures Lists(claims, name) <==> name in MergeFrames(ClaimFrames(queried, claims).value)
  {
    var frames := ClaimFrames(queried, claims).value;
    ListedNames(claims);
    MergedRoots(frames);
    forall i | 0 <= i < |claims|
      ensures name in Children(frames[i]) <==> claims[i].output.keys == [name]
    {
      assert claims[i] in claims;
      RootOfFrame(queried, claims[i], name);
    }
    if Lists(claims, name) {
      var c :| c in claims && c.output.keys == [name];
      var i :| 0 <= i < |claims| && claims[i] == c;
      assert name in Children(frames[i]);
    }
  }

  lemma RootOfFrame(queried: seq<QueriedClaim>, claim: MatchedClaim, name: string)
    requires KeyedByRoot(queried, claim) && ClaimFrame(queried, claim).Success?
    ensures name in Children(ClaimFrame(queried, claim).value) <==> claim.output.keys == [name]
  {
    var path := queried[claim.claimIndex].path.value;
    assert PathToFrame(path, claim.output).value.Node?;
    assert [path[0].name] == [name] <==> path[0].name == name;
  }

  /** A claim of the form the compiler handles, as the query outputs it. */
  ghost predicate Compiles(queried: seq<QueriedClaim>, claim: MatchedClaim) {
    && 0 <= claim.claimIndex < |queried| && queried[claim.claimIndex].path.Some?
    && var path := queried[claim.claimIndex].path.value;
       path != [] && Compilable(path) && Outputs(path, claim.output)
  }

  /** The claim's path selects the position or one above it. */
  ghost predicate SelectsUpTo(queried: seq<QueriedClaim>, claim: MatchedClaim, position: seq<string>)
    requires Compiles(queried, claim)
  {
    SelectsAbove(queried[claim.claimIndex].path.value, claim.output, position)
  }

  lemma ClaimFrameCovers(queried: seq<QueriedClaim>, claim: MatchedClaim, position: seq<string>)
    requires Compiles(queried, claim)
    ensures ClaimFrame(queried, claim).Success? && ClaimFrame(queried, claim).value.Node?
    ensures Covers(ClaimFrame(queried, claim).value, position) <==> SelectsUpTo(queried, claim, position)
  {
    var path := queried[claim.claimIndex].path.value;
    CompilationDisclosesSelection(path, claim.output, []);
    var frame := ClaimFrame(queried, claim).value;
    assert !path[0].Wildcard?;
    CoversBelowDisclosed(frame, position);
    forall n | 0 <= n <= |position|
      ensures Discloses(frame, position[..n]) <==> Selects(path, claim.output, position[..n])
    {
      CompilationDisclosesSelection(path, claim.output, position[..n]);
    }
  }

  /** The path of some claim selects the position or one above it. */
  ghost predicate SelectedBySome(queried: seq<QueriedClaim>, claims: seq<MatchedClaim>, position: seq<string>) {
    exists c :: c in claims && Compiles(queried, c) && SelectsUpTo(queried, c, position)
  }

  lemma FramesSelect(queried: seq<QueriedClaim>, claims: seq<MatchedClaim>, position: seq<string>)
    requires forall c :: c in claims ==> Compiles(queried, c)
    ensures ClaimFrames(queried, claims).Success?
    ensures forall f :: f in ClaimFrames(queried, claims).value ==> f.Node?
    ensures CoveredBySome(ClaimFrames(queried, claims).value, position) <==> SelectedBySome(queried, claims, position)
  {
    forall i | 0 <= i < |claims|
      ensures ClaimFrame(queried, claims[i]).Success? && ClaimFrame(queried, claims[i]).value.Node?
      ensures Covers(ClaimFrame(queried, claims[i]).value, position) <==> SelectsUpTo(queried, claims[i], position)
    {
      ClaimFrameCovers(queried, claims[i], position);
    }
    var frames := ClaimFrames(queried, claims).value;
    if f :| f in frames && Covers(f, position) {
      var i :| 0 <= i < |frames| && frames[i] == f;
      assert claims[i] in claims && SelectsUpTo(queried, claims[i], position);
    }
    if c :| c in claims && SelectsUpTo(queried, c, position) {
      var i :| 0 <= i < |claims| && claims[i] == c;
      assert frames[i] in frames && Covers(frames[i], position);
    }
  }

  /** No over-disclosure: for paths of the form the compiler handles, whatever the
      whole frame covers is selected by some disclosed claim's path. */
  lemma NothingUnselected(queried: seq<QueriedClaim>, claims: seq<MatchedClaim>, position: seq<string>)
    requires forall c :: c in claims ==> Compiles(queried, c)
    ensures ClaimFrames(queried, claims).Success?
    ensures Covers(Node(MergeFrames(ClaimFrames(queried, claims).value)), position) ==>
              SelectedBySome(queried, claims, position)
  {
    FramesSelect(queried, claims, position);
    if Covers(Node(MergeFrames(ClaimFrames(queried, claims).value)), position) {
      NothingMore(ClaimFrames(queried, claims).value, position);
    }
  }

  /** The whole frame discloses what was asked for, neither more nor less, exactly
      when merging the claims' frames loses nothing: a position is covered if and
      only if the path of some disclosed claim selects it or a position above it. */
  lemma FrameCoversSelection(queried: seq<QueriedClaim>, claims: seq<MatchedClaim>)
    requires forall c :: c in claims ==> Compiles(queried, c)
    ensures ClaimFrames(queried, claims).Success?
    ensures (forall position :: Covers(Node(MergeFrames(ClaimFrames(queried, claims).value)), position)
                                <==> SelectedBySome(queried, claims, position))
       <==> LosesNothing(ClaimFrames(queried, claims).value)
  {
    FramesSelect(queried, claims, []);
    forall position
      ensures CoveredBySome(ClaimFrames(queried, claims).value, position) <==> SelectedBySome(queried, claims, position)
    {
      FramesSelect(queried, claims, position);
    }
    MergeCoversUnion(ClaimFrames(queried, claims).value);
  }

  /** The claim's path in the query compiles to a frame. */
  ghost predicate HasFrame(queried: seq<QueriedClaim>, claim: MatchedClaim) {
    && 0 <= claim.claimIndex < |queried| && queried[claim.claimIndex].path.Some?
    && PathToFrame(queried[claim.claimIndex].path.value, claim.output).Success?
  }

  /** Without a credential query of that id, or without requested claims in the
      first one, nothing is disclosed. */
  lemma NothingRequested(credentials: ValidCredentials, query: seq<QueriedCredential>, id: string)
    ensures (forall q :: q in query ==> q.id != id) ==> PresentationFrameOf(credentials, query, id) == Success(map[])
    ensures forall i :: IsFirstQuery(query, id, i) && (query[i].claims.None? || query[i].claims.value == []) ==>
              PresentationFrameOf(credentials, query, id) == Success(map[])
  {
    forall i | IsFirstQuery(query, id, i)
      ensures FindQuery(query, id) == Some(query[i])
    {
      FirstQueryFound(query, id, i);
    }
  }

  /** The frame of a match is built from the claims of the first credential query
      with its id. It fails to be built exactly when some disclosed claim has no
      path there or the path does not compile. */
  lemma FrameFailsWhen(credentials: ValidCredentials, query: seq<QueriedCredential>, id: string, i: int, queried: seq<QueriedClaim>)
    requires IsFirstQuery(query, id, i) && query[i].claims == Some(queried) && queried != []
    ensures PresentationFrameOf(credentials, query, id).Success?
       <==> forall c :: c in ValidClaims(credentials) ==> HasFrame(queried, c)
  {
    FirstQueryFound(query, id, i);
    var claims := ValidClaims(credentials);
    if ClaimFrames(queried, claims).Success? {
      forall c | c in claims
        ensures HasFrame(queried, c)
      {
        var j :| 0 <= j < |claims| && claims[j] == c;
        assert ClaimFrame(queried, claims[j]).Success?;
      }
    }
    if forall c :: c in claims ==> HasFrame(queried, c) {
      forall j | 0 <= j < |claims|
        ensures ClaimFrame(queried, claims[j]).Success?
      {
        assert claims[j] in claims;
      }
    }
  }

  /** End to end for an SD-JWT: if the paths of the first credential query with the
      id have the form the compiler handles, the frame of a match covers exactly
      what the paths of its disclosed claims select, if and only if merging loses
      nothing. */
  lemma MatchFrameCoversSelection(credentials: ValidCredentials, query: seq<QueriedCredential>, id: string, i: int,
                                  queried: seq<QueriedClaim>)
    requires IsFirstQuery(query, id, i) && query[i].claims == Some(queried) && queried != []
    requires forall c :: c in ValidClaims(credentials) ==> Compiles(queried, c)
    ensures PresentationFrameOf(credentials, query, id).Success? && ClaimFrames(queried, ValidClaims(credentials)).Success?
    ensures (forall position :: Covers(Node(PresentationFrameOf(credentials, query, id).value), position)
                                <==> SelectedBySome(queried, ValidClaims(credentials), position))
       <==> LosesNothing(ClaimFrames(queried, ValidClaims(credentials)).value)
  {
    FirstQueryFound(query, id, i);
    FrameCoversSelection(queried, ValidClaims(credentials));
  }

  /** Claims are listed with the names and values of their outputs. */
  lemma {:induction false} ListedFromOutputs(claims: seq<MatchedClaim>, d: Disclosure)
    ensures d in ListedClaims(claims) <==>
              exists c :: c in claims && c.output.Obj? && d.name in c.output.keys
                          && d == Disclosure(d.name, None, FieldOr(c.output.fields, d.name))
  {
    if claims != [] {
      ListedFromOutputs(claims[1..], d);
      assert forall c :: c in claims <==> c == claims[0] || c in claims[1..];
      var output := claims[0].output;
      if output.Obj? && d.name in output.keys && d == Disclosure(d.name, None, FieldOr(output.fields, d.name)) {
        var i :| 0 <= i < |output.keys| && output.keys[i] == d.name;
        assert Entries(output)[i] == d;
      }
      assert d in ListedClaims(claims) <==> d in Entries(output) || d in ListedClaims(claims[1..]);
    }
  }

  /** Wherever the list of disclosed claims is cut, the front's names come before
      the back's. */
  lemma {:induction false} ListedKeepOrder(front: seq<MatchedClaim>, back: seq<MatchedClaim>)
    ensures ListedClaims(front + back) == ListedClaims(front) + ListedClaims(back)
  {
    if front == [] {
      assert front + back == back;
    } else {
      assert (front + back)[1..] == front[1..] + back && (front + back)[0] == front[0];
      ListedKeepOrder(front[1..], back);
    }
  }

  // -------------------------------------------------------------- mdoc frames

  /** The claims listed for consent, for an mdoc: the outputs are objects of
      elements by namespace. */
  function ListedElements(claims: seq<MatchedClaim>): seq<Disclosure> {
    if claims == [] then [] else NamespaceEntries(claims[0].output) + ListedElements(claims[1..])
  }

  function NamespaceEntries(output: Json): seq<Disclosure> {
    if !output.Obj? then [] else NamespacesFrom(output.keys, output.fields)
  }

  function NamespacesFrom(keys: seq<string>, fields: map<string, Json>): seq<Disclosure> {
    if keys == [] then []
    else
      (if keys[0] in fields then ElementEntries(keys[0], fields[keys[0]]) else []) + NamespacesFrom(keys[1..], fields)
  }

  function ElementEntries(namespace: string, elements: Json): (r: seq<Disclosure>)
    ensures forall d :: d in r ==> d.namespace == Some(namespace) && elements.Obj? && d.name in elements.keys
    ensures elements.Obj? ==> |r| == |elements.keys|
    ensures elements.Obj? ==> forall i :: 0 <= i < |elements.keys| ==>
              r[i] == Disclosure(elements.keys[i], Some(namespace), FieldOr(elements.fields, elements.keys[i]))
  {
    match elements
    case Obj(keys, fields) =>
      seq(|keys|, i requires 0 <= i < |keys| =>
        Disclosure(keys[i], Some(namespace), FieldOr(fields, keys[i])))
    case _ => []
  }

  /** One requested claim added to the frame. Assigning into a closed frame throws. */
  function AddRequested(acc: map<string, Frame>, claim: Disclosure): Result<map<string, Frame>, FrameError> {
    if claim.namespace.Some? && claim.namespace.value != "" then
      var namespace := claim.namespace.value;
      var existing := if namespace in acc then acc[namespace] else Node(map[]);
      if existing.All? then Failure(NotAFrame)
      else Success(acc[namespace := Node(existing.children[claim.name := All])])
    else
      Success(acc[claim.name := All])
  }

  function AddAll(claims: seq<Disclosure>): Result<map<string, Frame>, FrameError> {
    if claims == [] then Success(map[])
    else
      var acc :- AddAll(claims[..|claims| - 1]);
      AddRequested(acc, claims[|claims| - 1])
  }

  method GetPresentationFrameFromClaims(requested: seq<Disclosure>, docType: string)
    returns (r: Result<map<string, Frame>, FrameError>)
    ensures r.Success? <==> AddAll(requested).Success?
    ensures r.Success? ==> r.value == map[docType := Node(AddAll(requested).value)]
  {
    var acc := map[];
    for i := 0 to |requested|
      invariant AddAll(requested[..i]) == Success(acc)
    {
      assert requested[..i + 1][..i] == requested[..i];
      var next := AddRequested(acc, requested[i]);
      if next.Failure? {
        FailsForGood(requested, i + 1);
        return Failure(next.error);
      }
      acc := next.value;
    }
    assert requested[..|requested|] == requested;
    return Success(map[docType := Node(acc)]);
  }

  lemma {:induction false} FailsForGood(claims: seq<Disclosure>, i: nat)
    requires i <= |claims| && AddAll(claims[..i]).Failure?
    ensures AddAll(claims).Failure?
    decreases |claims|
  {
    if i == |claims| {
      assert claims[..i] == claims;
    } else {
      assert claims[..|claims| - 1][..i] == claims[..i];
      FailsForGood(claims[..|claims| - 1], i);
    }
  }

  /** A frame of two levels, closed at exactly the requested pairs. */
  ghost predicate ClosedAt(frame: map<string, Frame>, claims: seq<Disclosure>) {
    && (forall ns :: ns in frame ==> frame[ns].Node?)
    && (forall ns, name :: HasSecond(Node(frame), ns, name) ==> frame[ns].children[name].All?)
    && (forall ns, name :: HasSecond(Node(frame), ns, name) <==> Requested(claims, ns, name))
    && forall ns :: ns in frame <==> exists d :: d in claims && d.namespace == Some(ns)
  }

  ghost predicate Requested(claims: seq<Disclosure>, ns: string, name: string) {
    exists d :: d in claims && d.namespace == Some(ns) && d.name == name
  }

  ghost predicate Namespaced(d: Disclosure) {
    d.namespace.Some? && d.namespace.value != ""
  }

  lemma AddOne(frame: map<string, Frame>, claims: seq<Disclosure>, d: Disclosure)
    requires ClosedAt(frame, claims) && Namespaced(d)
    ensures AddRequested(frame, d).Success?
    ensures ClosedAt(AddRequested(frame, d).value, claims + [d])
  {
    var next := AddRequested(frame, d).value;
    var all := claims + [d];
    assert forall c :: c in all <==> c in claims || c == d;
    forall ns, name
      ensures HasSecond(Node(next), ns, name) <==> Requested(all, ns, name)
    {
      assert HasSecond(Node(next), ns, name) <==>
        HasSecond(Node(frame), ns, name) || (d.namespace == Some(ns) && d.name == name);
      assert HasSecond(Node(frame), ns, name) <==> Requested(claims, ns, name);
    }
  }

  /** With non-empty namespaces the frame is always built, and
      `frame[docType][ns][name]` is set exactly for the listed pairs. */
  lemma {:induction false} MdocFrameIsTheList(claims: seq<Disclosure>)
    requires forall d :: d in claims ==> Namespaced(d)
    ensures AddAll(claims).Success? && ClosedAt(AddAll(claims).value, claims)
  {
    if claims != [] {
      var front, last := claims[..|claims| - 1], claims[|claims| - 1];
      assert claims == front + [last];
      MdocFrameIsTheList(front);
      AddOne(AddAll(front).value, front, last);
    }
  }

  /** Some claim without a namespace is for the root. */
  ghost predicate NamesRoot(claims: seq<Disclosure>, k: string) {
    exists d :: d in claims && !Namespaced(d) && d.name == k
  }

  /** A claim without a namespace comes before one in the namespace of its name. */
  ghost predicate Conflict(claims: seq<Disclosure>) {
    exists j :: 0 <= j < |claims| && Namespaced(claims[j]) && NamesRoot(claims[..j], claims[j].namespace.value)
  }

  lemma ConflictGrows(front: seq<Disclosure>, last: Disclosure)
    ensures Conflict(front + [last]) <==> Conflict(front) || (Namespaced(last) && NamesRoot(front, last.namespace.value))
  {
    var all := front + [last];
    forall j | 0 <= j <= |front|
      ensures all[..j] == front[..j]
    {
    }
    assert all[..|front|] == front && all[|front|] == last;
    if Conflict(front) {
      var j :| 0 <= j < |front| && Namespaced(front[j]) && NamesRoot(front[..j], front[j].namespace.value);
      assert Namespaced(all[j]) && NamesRoot(all[..j], all[j].namespace.value);
    }
    if Namespaced(last) && NamesRoot(front, last.namespace.value) {
      assert Namespaced(all[|front|]);
    }
  }

  /** Mixing claims with and without namespaces: the frame fails to be built
      exactly when a name closed before is opened as a namespace; otherwise the
      roots closed are those named without a namespace. */
  lemma {:induction false} MixedFrame(claims: seq<Disclosure>)
    ensures AddAll(claims).Failure? <==> Conflict(claims)
    ensures AddAll(claims).Success? ==>
              forall k :: NamesRoot(claims, k) <==> k in AddAll(claims).value && AddAll(claims).value[k].All?
  {
    if claims != [] {
      var front, last := claims[..|claims| - 1], claims[|claims| - 1];
      assert claims == front + [last];
      MixedFrame(front);
      ConflictGrows(front, last);
      assert forall k :: NamesRoot(claims, k) <==> NamesRoot(front, k) || (!Namespaced(last) && last.name == k);
    }
  }

  /** Without namespaces the frame closes exactly the listed names at its root. */
  lemma {:induction false} FlatFrameIsTheList(claims: seq<Disclosure>)
    requires forall d :: d in claims ==> !Namespaced(d)
    ensures AddAll(claims).Success?
    ensures forall name :: name in AddAll(claims).value <==> exists d :: d in claims && d.name == name
    ensures forall name :: name in AddAll(claims).value ==> AddAll(claims).value[name].All?
  {
    if claims != [] {
      var n := |claims| - 1;
      FlatFrameIsTheList(claims[..n]);
      assert claims == claims[..n] + [claims[n]];
      assert !Namespaced(claims[n]);
    }
  }

  lemma AddedSecond(acc: map<string, Frame>, last: Disclosure, ns: string, name: string)
    requires AddRequested(acc, last).Success? && ns != ""
    ensures var next := AddRequested(acc, last).value;
            && (HasSecond(Node(next), ns, name)
                <==> !(!Namespaced(last) && last.name == ns)
                     && (HasSecond(Node(acc), ns, name) || (last.namespace == Some(ns) && last.name == name
                                                            && !(ns in acc && acc[ns].All?))))
            && (HasSecond(Node(next), ns, name) ==>
                  next[ns].children[name] == All ||
                  (HasSecond(Node(acc), ns, name) && next[ns].children[name] == acc[ns].children[name]))
  {
  }

  /** And the roots left open hold the names listed in their namespace. */
  lemma {:induction false} OpenRoots(claims: seq<Disclosure>, ns: string, name: string)
    requires AddAll(claims).Success? && ns != ""
    ensures HasSecond(Node(AddAll(claims).value), ns, name) <==> Requested(claims, ns, name) && !NamesRoot(claims, ns)
    ensures HasSecond(Node(AddAll(claims).value), ns, name) ==> AddAll(claims).value[ns].children[name].All?
  {
    if claims != [] {
      var front, last := claims[..|claims| - 1], claims[|claims| - 1];
      assert claims == front + [last];
      OpenRoots(front, ns, name);
      MixedFrame(front);
      AddedSecond(AddAll(front).value, last, ns, name);
      assert NamesRoot(claims, ns) <==> NamesRoot(front, ns) || (!Namespaced(last) && last.name == ns);
      assert Requested(claims, ns, name) <==> Requested(front, ns, name) || (last.namespace == Some(ns) && last.name == name);
    }
  }

  /** The claim's output holds the element. */
  ghost predicate Holds(claim: MatchedClaim, ns: string, name: string) {
    && claim.output.Obj? && ns in claim.output.keys && ns in claim.output.fields
    && claim.output.fields[ns].Obj? && name in claim.output.fields[ns].keys
  }

  lemma {:induction false} EntriesOfNamespaces(keys: seq<string>, fields: map<string, Json>, ns: string, name: string)
    ensures Requested(NamespacesFrom(keys, fields), ns, name)
       <==> ns in keys && ns in fields && fields[ns].Obj? && name in fields[ns].keys
    ensures forall d :: d in NamespacesFrom(keys, fields) ==> d.namespace.Some? && d.namespace.value in keys
  {
    if keys != [] {
      EntriesOfNamespaces(keys[1..], fields, ns, name);
      var first := if keys[0] in fields then ElementEntries(keys[0], fields[keys[0]]) else [];
      var rest := NamespacesFrom(keys[1..], fields);
      assert forall k :: k in keys <==> k == keys[0] || k in keys[1..];
      assert forall d :: d in NamespacesFrom(keys, fields) <==> d in first || d in rest;
      if keys[0] == ns && ns in fields && fields[ns].Obj? && name in fields[ns].keys {
        var i :| 0 <= i < |fields[ns].keys| && fields[ns].keys[i] == name;
        assert first[i] in first;
      }
    }
  }

  lemma {:induction false} ElementsListed(claims: seq<MatchedClaim>, ns: string, name: string)
    ensures Requested(ListedElements(claims), ns, name) <==> exists c :: c in claims && Holds(c, ns, name)
  {
    if claims != [] {
      ElementsListed(claims[1..], ns, name);
      assert forall c :: c in claims <==> c == claims[0] || c in claims[1..];
      var first, rest := NamespaceEntries(claims[0].output), ListedElements(claims[1..]);
      assert forall d :: d in ListedElements(claims) <==> d in first || d in rest;
      if claims[0].output.Obj? {
        EntriesOfNamespaces(claims[0].output.keys, claims[0].output.fields, ns, name);
      }
      assert Requested(first, ns, name) <==> Holds(claims[0], ns, name);
    }
  }

  /** Wherever an output's namespaces are cut, the front's elements come before the
      back's. */
  lemma {:induction false} NamespacesKeepOrder(front: seq<string>, back: seq<string>, fields: map<string, Json>)
    ensures NamespacesFrom(front + back, fields) == NamespacesFrom(front, fields) + NamespacesFrom(back, fields)
  {
    if front == [] {
      assert front + back == back;
    } else {
      assert (front + back)[1..] == front[1..] + back && (front + back)[0] == front[0];
      NamespacesKeepOrder(front[1..], back, fields);
    }
  }

  /** Wherever the list of disclosed claims is cut, the front's elements come
      before the back's. */
  lemma {:induction false} ElementsKeepOrder(front: seq<MatchedClaim>, back: seq<MatchedClaim>)
    ensures ListedElements(front + back) == ListedElements(front) + ListedElements(back)
  {
    if front == [] {
      assert front + back == back;
    } else {
      assert (front + back)[1..] == front[1..] + back && (front + back)[0] == front[0];
      ElementsKeepOrder(front[1..], back);
    }
  }

  /** The disclosure has the value that the output holds under its namespace and
      name. */
  ghost predicate HoldsValue(output: Json, d: Disclosure) {
    && output.Obj? && d.namespace.Some? && d.namespace.value in output.keys && d.namespace.value in output.fields
    && var elements := output.fields[d.namespace.value];
       elements.Obj? && d.name in elements.keys && d.value == FieldOr(elements.fields, d.name)
  }

  lemma ElementValue(namespace: string, elements: Json, d: Disclosure)
    ensures d in ElementEntries(namespace, elements)
       <==> && d.namespace == Some(namespace) && elements.Obj? && d.name in elements.keys
            && d.value == FieldOr(elements.fields, d.name)
  {
    if elements.Obj? && d.name in elements.keys {
      var i :| 0 <= i < |elements.keys| && elements.keys[i] == d.name;
      assert ElementEntries(namespace, elements)[i] in ElementEntries(namespace, elements);
    }
  }

  lemma {:induction false} NamespaceValues(keys: seq<string>, fields: map<string, Json>, d: Disclosure)
    ensures d in NamespacesFrom(keys, fields)
       <==> && d.namespace.Some? && d.namespace.value in keys && d.namespace.value in fields
            && fields[d.namespace.value].Obj? && d.name in fields[d.namespace.value].keys
            && d.value == FieldOr(fields[d.namespace.value].fields, d.name)
  {
    if keys != [] {
      NamespaceValues(keys[1..], fields, d);
      assert forall k :: k in keys <==> k == keys[0] || k in keys[1..];
      if keys[0] in fields {
        ElementValue(keys[0], fields[keys[0]], d);
      }
    }
  }

  /** Elements are listed with the values of their outputs. */
  lemma {:induction false} ElementsFromOutputs(claims: seq<MatchedClaim>, d: Disclosure)
    ensures d in ListedElements(claims) <==> exists c :: c in claims && HoldsValue(c.output, d)
  {
    if claims != [] {
      ElementsFromOutputs(claims[1..], d);
      assert forall c :: c in claims <==> c == claims[0] || c in claims[1..];
      if claims[0].output.Obj? {
        NamespaceValues(claims[0].output.keys, claims[0].output.fields, d);
      }
      assert d in NamespaceEntries(claims[0].output) <==> HoldsValue(claims[0].output, d);
    }
  }

  lemma {:induction false} ElementsNamespaced(claims: seq<MatchedClaim>)
    requires forall c :: c in claims && c.output.Obj? ==> "" !in c.output.keys
    ensures forall d :: d in ListedElements(claims) ==> Namespaced(d)
  {
    if claims != [] {
      assert claims[0] in claims;
      assert forall c :: c in claims[1..] ==> c in claims;
      ElementsNamespaced(claims[1..]);
      if claims[0].output.Obj? {
        EntriesOfNamespaces(claims[0].output.keys, claims[0].output.fields, "", "");
      }
    }
  }

  /** End to end for an mdoc: the frame discloses an element exactly when the
      output of some disclosed claim holds it. */
  lemma MdocFrameDiscloses(claims: seq<MatchedClaim>, ns: string, name: string)
    requires forall c :: c in claims && c.output.Obj? ==> "" !in c.output.keys
    ensures AddAll(ListedElements(claims)).Success?
    ensures Discloses(Node(AddAll(ListedElements(claims)).value), [ns, name])
       <==> exists c :: c in claims && Holds(c, ns, name)
  {
    ElementsNamespaced(claims);
    ElementsListed(claims, ns, name);
    MdocFrameIsTheList(ListedElements(claims));
    DisclosesSecond(AddAll(ListedElements(claims)).value, ListedElements(claims), ns, name);
  }

  lemma DisclosesSecond(frame: map<string, Frame>, claims: seq<Disclosure>, ns: string, name: string)
    requires ClosedAt(frame, claims)
    ensures Discloses(Node(frame), [ns, name]) <==> Requested(claims, ns, name)
  {
    DisclosesTwoDown(Node(frame), [ns, name]);
    assert [ns, name][2..] == [];
    assert HasSecond(Node(frame), ns, name) <==> Requested(claims, ns, name);
  }
}
