/** What localising a credential keeps, drops and names. */
module SdJwtLocalisation {
  import opened Wrappers
  import opened Json
  import opened IssuerConfig
  import opened SdJwtParser

  // ------------------------------------------------------------- conservation

  /** Erasing the name wrappers of `out` gives `data` back: all of it when
      `whole`, else a part with the same array lengths and the same leaf values. */
  ghost predicate Erases(out: Parsed, data: Json, whole: bool) {
    match out
    case Leaf(json) => json == data && !data.Arr? && !data.Obj?
    case Verbatim(json) => json == data
    case Items(items) =>
      && data.Arr? && |items| == |data.items|
      && forall i :: 0 <= i < |items| ==> Erases(items[i], data.items[i], whole)
    case Record(entries) =>
      && data.Obj? && entries.Keys <= data.fields.Keys
      && (whole ==> entries.Keys == data.fields.Keys)
      && forall k :: k in entries ==> Erases(entries[k].value, data.fields[k], whole)
  }

  /** Conservation, for every JSON tree and every claim list: with undeclared
      attributes included the whole input comes back, otherwise a part of it. */
  lemma {:induction false} Conservation(claims: seq<DisplayableClaim>, data: Json, path: Path, includeUndefined: bool)
    ensures Erases(Localise(claims, data, path, includeUndefined), data, includeUndefined)
    decreases data
  {
    match data
    case Arr(items) =>
      forall i | 0 <= i < |items|
        ensures Erases(Localise(claims, items[i], path + [Wildcard], includeUndefined), items[i], includeUndefined)
      {
        Conservation(claims, items[i], path + [Wildcard], includeUndefined);
      }
    case Obj(_, fields) =>
      forall k | k in fields
        ensures Erases(LocaliseField(claims, data, path, includeUndefined, k).value, fields[k], includeUndefined)
      {
        var spelling := LastSpelling(DeclaredBelow(claims, path), k);
        if spelling.Some? {
          Conservation(claims, fields[k], path + [spelling.value], includeUndefined);
        }
      }
    case _ =>
  }

  // ---------------------------------------------------------------- positions

  /** One step down a JSON tree. */
  datatype Step = Field(key: string) | Item(index: nat)

  type Position = seq<Step>

  ghost predicate Has(data: Json, position: Position)
    decreases |position|
  {
    position == [] ||
    match position[0]
    case Field(k) => data.Obj? && k in data.fields && Has(data.fields[k], position[1..])
    case Item(i) => data.Arr? && i < |data.items| && Has(data.items[i], position[1..])
  }

  /** Whether the parsed tree still has the position. */
  ghost predicate Survives(out: Parsed, position: Position)
    decreases |position|
  {
    match out
    case Leaf(json) => Has(json, position)
    case Verbatim(json) => Has(json, position)
    case Items(items) =>
      position == [] ||
      (position[0].Item? && position[0].index < |items| && Survives(items[position[0].index], position[1..]))
    case Record(entries) =>
      position == [] ||
      (position[0].Field? && position[0].key in entries && Survives(entries[position[0].key].value, position[1..]))
  }

  /** What a step is in a claims path pointer: array indices are read as `null`. */
  function SegmentOf(step: Step): Segment {
    if step.Field? then Key(step.key) else Wildcard
  }

  /** The path of a position as a claims path pointer, cut after its last key. */
  function PathToLastKey(position: Position): Path {
    if position == [] then []
    else
      var rest := PathToLastKey(position[1..]);
      if rest != [] || position[0].Field? then [SegmentOf(position[0])] + rest else []
  }

  /** The cut path is the position's path up to and including its last key. */
  lemma {:induction false} PathToLastKeyIsAPrefix(position: Position)
    ensures var path := PathToLastKey(position);
            && |path| <= |position|
            && (forall i :: 0 <= i < |path| ==> path[i] == SegmentOf(position[i]))
            && (path != [] ==> position[|path| - 1].Field?)
            && forall i :: |path| <= i < |position| ==> position[i].Item?
  {
    if position != [] {
      PathToLastKeyIsAPrefix(position[1..]);
      var rest := PathToLastKey(position[1..]);
      assert forall i :: 1 <= i < |position| ==> position[i] == position[1..][i - 1];
    }
  }

  // ----------------------------------------------------------- followed paths

  /** The segment by which the code goes on from a place: `null` into an array,
      the last declared segment that spells the key into an object. Undeclared
      attributes, if included, overwrite what the key itself does not declare. */
  function Spelling(claims: seq<DisplayableClaim>, at: Path, step: Segment, includeUndefined: bool): Option<Segment> {
    if step.Wildcard? then Some(Wildcard)
    else if includeUndefined && Key(SegmentName(step)) !in DeclaredBelow(claims, at) then None
    else LastSpelling(DeclaredBelow(claims, at), SegmentName(step))
  }

  /** The path under which the code processes the place that `path` leads to from
      a place processed under `at`, if it gets there. */
  function Followed(claims: seq<DisplayableClaim>, at: Path, path: Path, includeUndefined: bool): Option<Path>
    decreases |path|
  {
    if path == [] then Some(at)
    else
      match Spelling(claims, at, path[0], includeUndefined)
      case None => None
      case Some(segment) => Followed(claims, at + [segment], path[1..], includeUndefined)
  }

  /** A number read as the key that it spells. */
  function AsKey(segment: Segment): Segment {
    if segment.Wildcard? then Wildcard else Key(SegmentName(segment))
  }

  function AsKeys(path: Path): (keys: Path)
    ensures |keys| == |path| && forall i :: 0 <= i < |path| ==> keys[i] == AsKey(path[i])
  {
    seq(|path|, i requires 0 <= i < |path| => AsKey(path[i]))
  }

  /** A path of keys and `null`, as positions in a tree have. */
  predicate IsPlace(path: Path) {
    forall i :: 0 <= i < |path| ==> !path[i].Index?
  }

  lemma KeysOfPlace(path: Path)
    requires IsPlace(path)
    ensures AsKeys(path) == path
  {
  }

  predicate EndsInKey(path: Path) {
    path != [] && !path[|path| - 1].Wildcard?
  }

  /** Some claim's path has `path` as a prefix, possibly itself. */
  predicate Declared(claims: seq<DisplayableClaim>, path: Path) {
    exists c | c in claims :: path <= c.path
  }

  /** A declared segment continues some claim's path. */
  lemma DeclaredSegment(claims: seq<DisplayableClaim>, at: Path, segment: Segment)
    ensures segment in DeclaredBelow(claims, at) <==> !segment.Wildcard? && Declared(claims, at + [segment])
  {
    forall c | c in claims
      ensures NextSegment(at, c) == Some(segment) <==> !segment.Wildcard? && at + [segment] <= c.path
    {
      if at < c.path && c.path[|at|] == segment {
        assert c.path == at + c.path[|at|..];
      }
    }
  }

  lemma SpellingIsDeclared(claims: seq<DisplayableClaim>, at: Path, step: Segment, includeUndefined: bool)
    ensures var r := Spelling(claims, at, step, includeUndefined);
            r.Some? ==> AsKey(r.value) == AsKey(step) && (!step.Wildcard? ==> Declared(claims, at + [r.value]))
  {
    var r := Spelling(claims, at, step, includeUndefined);
    if r.Some? && !step.Wildcard? {
      DeclaredSegment(claims, at, r.value);
    }
  }

  /** A followed path spells the place, and up to its last key it is declared. */
  lemma {:induction false} FollowedIsDeclared(claims: seq<DisplayableClaim>, at: Path, path: Path, includeUndefined: bool)
    requires Followed(claims, at, path, includeUndefined).Some?
    ensures var q := Followed(claims, at, path, includeUndefined).value;
            && at <= q && AsKeys(q[|at|..]) == AsKeys(path)
            && (EndsInKey(path) ==> Declared(claims, q))
    decreases |path|
  {
    if path != [] {
      var segment := Spelling(claims, at, path[0], includeUndefined).value;
      SpellingIsDeclared(claims, at, path[0], includeUndefined);
      FollowedIsDeclared(claims, at + [segment], path[1..], includeUndefined);
      var q := Followed(claims, at, path, includeUndefined).value;
      assert q[|at|..] == [segment] + q[|at| + 1..];
    }
  }

  /** Following a longer path is following its front, then one step more. */
  lemma {:induction false} FollowedFurther(claims: seq<DisplayableClaim>, at: Path, path: Path, step: Segment, includeUndefined: bool)
    ensures Followed(claims, at, path + [step], includeUndefined)
         == match Followed(claims, at, path, includeUndefined)
            case None => None
            case Some(q) =>
              match Spelling(claims, q, step, includeUndefined)
              case None => None
              case Some(segment) => Some(q + [segment])
    decreases |path|
  {
    if path == [] {
      assert path + [step] == [step] && [step][1..] == [];
    } else {
      assert (path + [step])[1..] == path[1..] + [step];
      var next := Spelling(claims, at, path[0], includeUndefined);
      if next.Some? {
        FollowedFurther(claims, at + [next.value], path[1..], step, includeUndefined);
      }
    }
  }

  /** Paths of strings and `null`, as the issuer's configurations use them. */
  predicate WithoutIndices(claims: seq<DisplayableClaim>) {
    forall c | c in claims :: IsPlace(c.path)
  }

  lemma DeclaredPrefix(claims: seq<DisplayableClaim>, path: Path, rest: Path)
    requires Declared(claims, path + rest)
    ensures Declared(claims, path)
  {
    var c :| c in claims && path + rest <= c.path;
    assert path <= c.path;
  }

  lemma OnlySpelling(claims: seq<DisplayableClaim>, at: Path, key: string, includeUndefined: bool)
    requires WithoutIndices(claims) && Declared(claims, at + [Key(key)])
    ensures Spelling(claims, at, Key(key), includeUndefined) == Some(Key(key))
  {
    DeclaredSegment(claims, at, Key(key));
    SpellingIsDeclared(claims, at, Key(key), includeUndefined);
    var segment := Spelling(claims, at, Key(key), includeUndefined).value;
    var c :| c in claims && at + [segment] <= c.path;
    assert c.path[|at|] == segment;
  }

  /** Without numeric segments, declared places are followed as they are. */
  lemma {:induction false} DeclaredIsFollowed(claims: seq<DisplayableClaim>, at: Path, path: Path, includeUndefined: bool)
    requires WithoutIndices(claims) && IsPlace(path) && Declared(claims, at + path)
    ensures Followed(claims, at, path, includeUndefined) == Some(at + path)
    decreases |path|
  {
    if path == [] {
      assert at + path == at;
    } else {
      assert at + path == at + [path[0]] + path[1..];
      DeclaredPrefix(claims, at + [path[0]], path[1..]);
      if path[0].Key? {
        OnlySpelling(claims, at, path[0].name, includeUndefined);
      }
      DeclaredIsFollowed(claims, at + [path[0]], path[1..], includeUndefined);
    }
  }

  // ---------------------------------------------------------------- retention

  /** The position's path, cut after its last key, is declared. */
  predicate Shown(claims: seq<DisplayableClaim>, position: Position) {
    PathToLastKey(position) == [] || Declared(claims, PathToLastKey(position))
  }

  /** The code gets to the position's last key. */
  predicate Kept(claims: seq<DisplayableClaim>, position: Position) {
    Followed(claims, [], PathToLastKey(position), false).Some?
  }

  lemma {:induction false} RetentionBelow(claims: seq<DisplayableClaim>, data: Json, at: Path, position: Position)
    requires Has(data, position)
    ensures Survives(Localise(claims, data, at, false), position)
       <==> Followed(claims, at, PathToLastKey(position), false).Some?
    decreases |position|
  {
    if position != [] {
      var rest := PathToLastKey(position[1..]);
      if position[0].Item? {
        RetentionBelow(claims, data.items[position[0].index], at + [Wildcard], position[1..]);
        assert rest != [] ==> PathToLastKey(position)[1..] == rest;
      } else {
        var k := position[0].key;
        assert PathToLastKey(position)[1..] == rest;
        var spelling := LastSpelling(DeclaredBelow(claims, at), k);
        var out := Localise(claims, data, at, false);
        assert k in out.entries <==> spelling.Some?;
        if spelling.Some? {
          assert out.entries[k] == LocaliseField(claims, data, at, false, k);
          RetentionBelow(claims, data.fields[k], at + [spelling.value], position[1..]);
        }
      }
    }
  }

  /** What survives, for every tree and every claim list: with undeclared
      attributes off, the positions of the input to whose last key the code gets. */
  lemma SurvivorsAreKept(claims: seq<DisplayableClaim>, data: Json, position: Position)
    ensures Survives(Localise(claims, data, [], false), position) <==> Has(data, position) && Kept(claims, position)
  {
    if Has(data, position) {
      RetentionBelow(claims, data, [], position);
    } else {
      Conservation(claims, data, [], false);
      SurvivorsExist(Localise(claims, data, [], false), data, false, position);
    }
  }

  /** The path with numbers read as keys is declared if the code follows it, and
      the code gets there if it is a declared path of keys. */
  predicate HarmlessAt(claims: seq<DisplayableClaim>, path: Path) {
    var followed := Followed(claims, [], AsKeys(path), false);
    && (IsPlace(path) ==> followed.Some?)
    && (followed == Some(path) ==> Declared(claims, AsKeys(path)))
  }

  /** No numeric segment keeps an undeclared field or hides a declared one. */
  predicate IndicesHarmless(claims: seq<DisplayableClaim>) {
    forall c | c in claims :: HarmlessAlong(claims, c.path)
  }

  predicate HarmlessAlong(claims: seq<DisplayableClaim>, path: Path) {
    forall n | 0 < n <= |path| && !path[n - 1].Wildcard? :: HarmlessAt(claims, path[..n])
  }

  lemma HarmlessPrefix(claims: seq<DisplayableClaim>, path: Path)
    requires IndicesHarmless(claims) && EndsInKey(path) && Declared(claims, path)
    ensures HarmlessAt(claims, path)
  {
    var c :| c in claims && path <= c.path;
    assert HarmlessAlong(claims, c.path);
    assert path == c.path[..|path|] && c.path[|path| - 1] == path[|path| - 1];
  }

  /** The code gets to places that claims spell. */
  lemma FollowedSpells(claims: seq<DisplayableClaim>, path: Path, includeUndefined: bool) returns (q: Path)
    requires IsPlace(path) && EndsInKey(path) && Followed(claims, [], path, includeUndefined).Some?
    ensures Followed(claims, [], path, includeUndefined) == Some(q)
    ensures AsKeys(q) == path && EndsInKey(q) && Declared(claims, q)
  {
    FollowedIsDeclared(claims, [], path, includeUndefined);
    KeysOfPlace(path);
    q := Followed(claims, [], path, includeUndefined).value;
    assert q[0..] == q;
    var n := |q| - 1;
    assert AsKey(q[n]) == AsKeys(q)[n];
  }

  /** If they are harmless, the code gets to exactly the declared places. */
  lemma KeptPlaces(claims: seq<DisplayableClaim>, path: Path)
    requires IndicesHarmless(claims) && IsPlace(path) && EndsInKey(path)
    ensures Followed(claims, [], path, false).Some? <==> Declared(claims, path)
  {
    if Declared(claims, path) {
      HarmlessPrefix(claims, path);
      KeysOfPlace(path);
    }
    if Followed(claims, [], path, false).Some? {
      var q := FollowedSpells(claims, path, false);
      HarmlessPrefix(claims, q);
    }
  }

  lemma KeptIsShown(claims: seq<DisplayableClaim>, position: Position)
    requires IndicesHarmless(claims)
    ensures Kept(claims, position) <==> Shown(claims, position)
  {
    var path := PathToLastKey(position);
    if path != [] {
      PathToLastKeyIsAPrefix(position);
      KeptPlaces(claims, path);
    }
  }

  /** The smallest tree with a place, holding a value there. */
  function TreeOf(path: Path, value: Json): Json {
    if path == [] then value
    else
      var below := TreeOf(path[1..], value);
      if path[0].Wildcard? then Arr([below]) else Obj([SegmentName(path[0])], map[SegmentName(path[0]) := below])
  }

  function StepsOf(path: Path): (steps: Position)
    ensures |steps| == |path|
    ensures forall i :: 0 <= i < |path| ==> SegmentOf(steps[i]) == AsKey(path[i])
  {
    if path == [] then []
    else [if path[0].Wildcard? then Item(0) else Field(SegmentName(path[0]))] + StepsOf(path[1..])
  }

  lemma {:induction false} TreeHasPlace(path: Path, value: Json)
    ensures Has(TreeOf(path, value), StepsOf(path))
    decreases |path|
  {
    if path != [] {
      assert StepsOf(path)[1..] == StepsOf(path[1..]);
      TreeHasPlace(path[1..], value);
    }
  }

  lemma PathOfSteps(path: Path)
    requires EndsInKey(path)
    ensures PathToLastKey(StepsOf(path)) == AsKeys(path)
  {
    var steps := StepsOf(path);
    PathToLastKeyIsAPrefix(steps);
    var n := |path| - 1;
    assert SegmentOf(steps[n]) == AsKey(path[n]);
    assert steps[n].Field?;
  }

  /** Retention as intended: a position of the input survives exactly when its
      path, cut after its last key, is a prefix of a displayable claim's path. */
  ghost predicate RetainsDeclared(claims: seq<DisplayableClaim>, data: Json, position: Position) {
    Survives(Localise(claims, data, [], false), position) <==> Has(data, position) && Shown(claims, position)
  }

  /** The tree of a place tells whether the place is kept as intended. */
  lemma RetainedAtPlace(claims: seq<DisplayableClaim>, path: Path)
    requires EndsInKey(path) && RetainsDeclared(claims, TreeOf(path, Null), StepsOf(path))
    ensures Followed(claims, [], AsKeys(path), false).Some? <==> Declared(claims, AsKeys(path))
  {
    TreeHasPlace(path, Null);
    PathOfSteps(path);
    SurvivorsAreKept(claims, TreeOf(path, Null), StepsOf(path));
  }

  lemma HarmlessIfRetained(claims: seq<DisplayableClaim>, path: Path)
    requires EndsInKey(path) && RetainsDeclared(claims, TreeOf(path, Null), StepsOf(path))
    requires Declared(claims, path)
    ensures HarmlessAt(claims, path)
  {
    RetainedAtPlace(claims, path);
  }

  /** When retention is as intended, for every tree and every position: exactly if
      the numeric segments of the claims are harmless. */
  lemma RetentionExactly(claims: seq<DisplayableClaim>)
    ensures (forall data, position :: RetainsDeclared(claims, data, position)) <==> IndicesHarmless(claims)
  {
    if IndicesHarmless(claims) {
      forall data, position
        ensures RetainsDeclared(claims, data, position)
      {
        SurvivorsAreKept(claims, data, position);
        KeptIsShown(claims, position);
      }
    }
    if forall data, position :: RetainsDeclared(claims, data, position) {
      forall c | c in claims
        ensures HarmlessAlong(claims, c.path)
      {
        forall n | 0 < n <= |c.path| && !c.path[n - 1].Wildcard?
          ensures HarmlessAt(claims, c.path[..n])
        {
          assert Declared(claims, c.path[..n]) && EndsInKey(c.path[..n]);
          HarmlessIfRetained(claims, c.path[..n]);
        }
      }
    }
  }

  lemma NoIndicesNoHarm(claims: seq<DisplayableClaim>)
    requires WithoutIndices(claims)
    ensures IndicesHarmless(claims)
  {
    forall c | c in claims
      ensures HarmlessAlong(claims, c.path)
    {
      forall n | 0 < n <= |c.path| && !c.path[n - 1].Wildcard?
        ensures HarmlessAt(claims, c.path[..n])
      {
        KeysOfPlace(c.path[..n]);
        assert Declared(claims, c.path[..n]);
        PlaceIsFollowed(claims, c.path[..n], false);
      }
    }
  }

  lemma PlaceIsFollowed(claims: seq<DisplayableClaim>, path: Path, includeUndefined: bool)
    requires WithoutIndices(claims) && IsPlace(path) && Declared(claims, path)
    ensures Followed(claims, [], path, includeUndefined) == Some(path)
  {
    assert [] + path == path;
    DeclaredIsFollowed(claims, [], path, includeUndefined);
  }

  /** In particular it is for paths of strings and `null`. */
  lemma Retention(claims: seq<DisplayableClaim>, data: Json, position: Position)
    requires WithoutIndices(claims)
    ensures Survives(Localise(claims, data, [], false), position)
       <==> Has(data, position) && Shown(claims, position)
  {
    NoIndicesNoHarm(claims);
    RetentionExactly(claims);
    assert RetainsDeclared(claims, data, position);
  }

  lemma {:induction false} SurvivorsExist(out: Parsed, data: Json, whole: bool, position: Position)
    requires Erases(out, data, whole)
    ensures Survives(out, position) ==> Has(data, position)
    ensures whole ==> (Survives(out, position) <==> Has(data, position))
    decreases |position|
  {
    if position != [] {
      match out
      case Leaf(_) =>
      case Verbatim(_) =>
      case Items(items) =>
        if position[0].Item? && position[0].index < |items| {
          SurvivorsExist(items[position[0].index], data.items[position[0].index], whole, position[1..]);
        }
      case Record(entries) =>
        if position[0].Field? && position[0].key in entries {
          SurvivorsExist(entries[position[0].key].value, data.fields[position[0].key], whole, position[1..]);
        }
    }
  }

  lemma {:induction false} AllSurvivingIsWhole(out: Parsed, data: Json)
    requires Erases(out, data, false)
    requires forall position: Position :: Has(data, position) ==> Survives(out, position)
    ensures Erases(out, data, true)
    decreases out
  {
    match out
    case Leaf(_) =>
    case Verbatim(_) =>
    case Items(items) =>
      forall i | 0 <= i < |items|
        ensures Erases(items[i], data.items[i], true)
      {
        forall position: Position | Has(data.items[i], position)
          ensures Survives(items[i], position)
        {
          assert ([Item(i)] + position)[1..] == position;
          assert Has(data, [Item(i)] + position);
        }
        AllSurvivingIsWhole(items[i], data.items[i]);
      }
    case Record(entries) =>
      forall k | k in data.fields
        ensures k in entries && Erases(entries[k].value, data.fields[k], true)
      {
        assert Has(data, [Field(k)]);
        assert Survives(out, [Field(k)]);
        forall position: Position | Has(data.fields[k], position)
          ensures Survives(entries[k].value, position)
        {
          assert ([Field(k)] + position)[1..] == position;
          assert Has(data, [Field(k)] + position);
          assert Survives(out, [Field(k)] + position);
        }
        AllSurvivingIsWhole(entries[k].value, data.fields[k]);
      }
  }

  /** With undeclared attributes off, nothing is lost exactly when the code gets to
      every key of the input; with harmless numbers, when every one is declared. */
  lemma NothingLost(claims: seq<DisplayableClaim>, data: Json)
    ensures Erases(Localise(claims, data, [], false), data, true)
       <==> forall position: Position :: Has(data, position) ==> Kept(claims, position)
    ensures IndicesHarmless(claims) ==>
              (Erases(Localise(claims, data, [], false), data, true)
               <==> forall position: Position :: Has(data, position) ==> Shown(claims, position))
  {
    var out := Localise(claims, data, [], false);
    Conservation(claims, data, [], false);
    forall position: Position
      ensures Survives(out, position) <==> Has(data, position) && Kept(claims, position)
      ensures IndicesHarmless(claims) ==> (Kept(claims, position) <==> Shown(claims, position))
    {
      SurvivorsAreKept(claims, data, position);
      if IndicesHarmless(claims) {
        KeptIsShown(claims, position);
      }
    }
    if Erases(out, data, true) {
      forall position: Position
        ensures Survives(out, position) <==> Has(data, position)
      {
        SurvivorsExist(out, data, true, position);
      }
    } else if forall position: Position :: Has(data, position) ==> Survives(out, position) {
      AllSurvivingIsWhole(out, data);
    }
  }

  /** Once the strict check has passed, the top level holds exactly the
      displayable roots, if and only if every number that a path starts with, and
      that spells a field of the credential, spells such a root. */
  lemma TopLevelIsTheRoots(claims: seq<DisplayableClaim>, raw: Json)
    requires raw.Obj? && Roots(claims) <= raw.fields.Keys
    ensures Localise(claims, raw, [], false).Record?
    ensures Localise(claims, raw, [], false).entries.Keys == Roots(claims) <==> FirstNumbersAreRoots(claims, raw.fields.Keys)
  {
    var out := Localise(claims, raw, [], false);
    forall k
      ensures k in out.entries.Keys <==> k in raw.fields && SpelledAtTop(claims, k)
    {
      TopSpelling(claims, k);
    }
    RootsAndNumbers(claims, raw.fields.Keys, out.entries.Keys);
  }

  ghost predicate FirstNumbersAreRoots(claims: seq<DisplayableClaim>, keys: set<string>) {
    forall c :: c in claims && c.path != [] && c.path[0].Index? && SegmentName(c.path[0]) in keys ==>
      SegmentName(c.path[0]) in Roots(claims)
  }

  lemma RootsAndNumbers(claims: seq<DisplayableClaim>, keys: set<string>, top: set<string>)
    requires Roots(claims) <= keys
    requires forall k :: k in top <==> k in keys && SpelledAtTop(claims, k)
    ensures top == Roots(claims) <==> FirstNumbersAreRoots(claims, keys)
  {
    assert forall k :: k in Roots(claims) ==> SpelledAtTop(claims, k);
    if FirstNumbersAreRoots(claims, keys) {
      forall k | k in top
        ensures k in Roots(claims)
      {
        var c :| c in claims && c.path != [] && !c.path[0].Wildcard? && SegmentName(c.path[0]) == k;
      }
    }
  }

  ghost predicate SpelledAtTop(claims: seq<DisplayableClaim>, key: string) {
    exists c :: c in claims && c.path != [] && !c.path[0].Wildcard? && SegmentName(c.path[0]) == key
  }

  lemma TopSpelling(claims: seq<DisplayableClaim>, key: string)
    ensures LastSpelling(DeclaredBelow(claims, []), key).Some? <==> SpelledAtTop(claims, key)
  {
    forall c | c in claims && c.path != [] && !c.path[0].Wildcard?
      ensures c.path[0] in DeclaredBelow(claims, [])
    {
      assert NextSegment([], c) == Some(c.path[0]);
    }
  }

  // ----------------------------------------------------------- harmful numbers

  function IndexClaim(labels: seq<Label>): DisplayableClaim {
    DisplayableClaim([Index(0)], labels)
  }

  function KeysClaim(labels: seq<Label>): DisplayableClaim {
    DisplayableClaim([Key("0"), Key("a")], labels)
  }

  /** A claim for index 0 keeps the field "0", whose path no claim declares. */
  lemma IndexKeepsUndeclaredField(labels: seq<Label>)
    ensures Kept([IndexClaim(labels)], [Field("0")]) && !Shown([IndexClaim(labels)], [Field("0")])
  {
    PathOfFields("0", []);
    SpelledByIndex(labels);
    OneStep([IndexClaim(labels)], [], Key("0"), false);
  }

  /** Behind a claim for a field of "0" it hides that field. */
  lemma IndexHidesDeclaredField(labels: seq<Label>)
    ensures !Kept([KeysClaim(labels), IndexClaim(labels)], [Field("0"), Field("a")])
    ensures Shown([KeysClaim(labels), IndexClaim(labels)], [Field("0"), Field("a")])
  {
    var claims := [KeysClaim(labels), IndexClaim(labels)];
    PathOfFields("a", []);
    PathOfFields("0", [Field("a")]);
    assert [Field("0")] + [Field("a")] == [Field("0"), Field("a")] && [Key("0")] + [Key("a")] == [Key("0"), Key("a")];
    assert Decimal(0) == "0";
    LaterSpelling(claims[0], claims[1], Key("0"), Index(0));
    NothingBelowIndex(labels);
    OneStep(claims, [], Key("0"), false);
    FollowedFurther(claims, [], [Key("0")], Key("a"), false);
    assert claims[0] in claims && [Key("0"), Key("a")] <= claims[0].path;
  }

  lemma PathOfFields(key: string, below: Position)
    requires below == [] || PathToLastKey(below) != []
    ensures PathToLastKey([Field(key)] + below) == [Key(key)] + PathToLastKey(below)
    ensures PathToLastKey([Field(key)]) == [Key(key)]
  {
    assert ([Field(key)] + below)[1..] == below && [Field(key)][1..] == [];
  }

  lemma OneStep(claims: seq<DisplayableClaim>, at: Path, step: Segment, includeUndefined: bool)
    ensures Followed(claims, at, [step], includeUndefined)
         == match Spelling(claims, at, step, includeUndefined)
            case None => None
            case Some(segment) => Some(at + [segment])
  {
    FollowedFurther(claims, at, [], step, includeUndefined);
    assert [] + [step] == [step];
  }

  lemma SpelledByIndex(labels: seq<Label>)
    ensures DeclaredBelow([IndexClaim(labels)], []) == [Index(0)]
    ensures Spelling([IndexClaim(labels)], [], Key("0"), false) == Some(Index(0))
    ensures Spelling([IndexClaim(labels)], [], Key("0"), true) == None
  {
    assert NextSegment([], IndexClaim(labels)) == Some(Index(0));
    assert [IndexClaim(labels)][..0] == [];
    assert Decimal(0) == "0";
  }

  /** Of two segments that spell the same key, the one declared later wins. */
  lemma LaterSpelling(first: DisplayableClaim, second: DisplayableClaim, s: Segment, t: Segment)
    requires NextSegment([], first) == Some(s) && NextSegment([], second) == Some(t)
    requires s != t && SegmentName(s) == SegmentName(t)
    ensures Spelling([first, second], [], Key(SegmentName(s)), false) == Some(t)
  {
    assert [] + [first] == [first] && [first] + [second] == [first, second];
    OneMoreClaim([], first, []);
    OneMoreClaim([first], second, []);
    assert DeclaredBelow([first, second], []) == [s, t];
  }

  lemma NothingBelowIndex(labels: seq<Label>)
    ensures DeclaredBelow([KeysClaim(labels), IndexClaim(labels)], [Index(0)]) == []
  {
    var keys, index := KeysClaim(labels), IndexClaim(labels);
    assert [] + [keys] == [keys] && [keys] + [index] == [keys, index];
    assert keys.path[0] == Key("0") && |index.path| == 1;
    OneMoreClaim([], keys, [Index(0)]);
    OneMoreClaim([keys], index, [Index(0)]);
  }

  lemma OneMoreClaim(earlier: seq<DisplayableClaim>, claim: DisplayableClaim, at: Path)
    ensures var next := NextSegment(at, claim);
            DeclaredBelow(earlier + [claim], at)
            == DeclaredBelow(earlier, at)
               + if next.Some? && next.value !in DeclaredBelow(earlier, at) then [next.value] else []
  {
    assert (earlier + [claim])[..|earlier|] == earlier;
  }
}
