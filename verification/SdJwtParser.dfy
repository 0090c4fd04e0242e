/** Turning the claims of an SD-JWT credential into the localised tree shown to
    the user, driven by the claims path pointers of the issuer's configuration
    (Appendix C of OpenID for Verifiable Credential Issuance 1.0). */
module SdJwtParser {
  import opened Wrappers
  import opened Json
  import opened IssuerConfig

  /** The parsed tree: values as they are, arrays, and objects whose fields are
      wrapped with a name. `Verbatim` is an undeclared value, copied unparsed. */
  datatype Parsed =
    | Leaf(json: Json)
    | Verbatim(json: Json)
    | Items(items: seq<Parsed>)
    | Record(entries: map<string, Entry>)

  datatype Entry = Entry(name: Name, value: Parsed)

  // ------------------------------------------------------------- specification

  /** The names of the first claim with the given path. */
  function DisplayNames(claims: seq<DisplayableClaim>, path: Path): Option<map<string, string>> {
    if claims == [] then None
    else if IsPathEqual(claims[0].path, path) then Some(LabelMap(claims[0].display))
    else DisplayNames(claims[1..], path)
  }

  /** The segment with which a claim's path continues an object's path. */
  function NextSegment(path: Path, claim: DisplayableClaim): Option<Segment> {
    if IsPrefixOf(path, claim.path) && !claim.path[|path|].Wildcard? then Some(claim.path[|path|]) else None
  }

  /** The keys and indices declared right below `path`, by first occurrence. */
  function DeclaredBelow(claims: seq<DisplayableClaim>, path: Path): (r: seq<Segment>)
    ensures forall s :: s in r <==> exists c :: c in claims && NextSegment(path, c) == Some(s)
  {
    if claims == [] then []
    else
      var n := |claims| - 1;
      var earlier := DeclaredBelow(claims[..n], path);
      var next := NextSegment(path, claims[n]);
      assert forall c :: c in claims <==> c in claims[..n] || c == claims[n];
      if next.Some? && next.value !in earlier then earlier + [next.value] else earlier
  }

  /** The last of the segments that spells the given key. */
  function LastSpelling(segments: seq<Segment>, key: string): (r: Option<Segment>)
    ensures r.Some? ==> r.value in segments && SegmentName(r.value) == key
    ensures r.None? ==> forall s :: s in segments ==> SegmentName(s) != key
  {
    if segments == [] then None
    else
      var n := |segments| - 1;
      assert forall s :: s in segments <==> s in segments[..n] || s == segments[n];
      if SegmentName(segments[n]) == key then Some(segments[n]) else LastSpelling(segments[..n], key)
  }

  /** The name of a declared field: its own label, for an array that of its
      elements, else its key. */
  function NameOf(claims: seq<DisplayableClaim>, path: Path, key: string, value: Json): Name {
    var own := DisplayNames(claims, path);
    if own.Some? then Localised(own.value)
    else
      var ofItems := DisplayNames(claims, path + [Wildcard]);
      if value.Arr? && ofItems.Some? then Localised(ofItems.value) else Plain(key)
  }

  /** The localised form of a value found at `path`. An object keeps the fields
      that a declared segment spells and, if asked to, all others. */
  function Localise(claims: seq<DisplayableClaim>, data: Json, path: Path, includeUndefined: bool): Parsed
    decreases data, 1
  {
    match data
    case Arr(items) =>
      Items(seq(|items|, i requires 0 <= i < |items| =>
        Localise(claims, items[i], path + [Wildcard], includeUndefined)))
    case Obj(_, fields) =>
      Record(map k | k in fields && (LastSpelling(DeclaredBelow(claims, path), k).Some? || includeUndefined) ::
        LocaliseField(claims, data, path, includeUndefined, k))
    case _ => Leaf(data)
  }

  function LocaliseField(claims: seq<DisplayableClaim>, data: Json, path: Path, includeUndefined: bool, key: string): Entry
    requires data.Obj? && key in data.fields
    decreases data, 0
  {
    var declared := DeclaredBelow(claims, path);
    var spelling := LastSpelling(declared, key);
    if spelling.None? || (includeUndefined && Key(key) !in declared) then
      Entry(Plain(key), Verbatim(data.fields[key]))
    else
      Entry(NameOf(claims, path + [spelling.value], key, data.fields[key]),
            Localise(claims, data.fields[key], path + [spelling.value], includeUndefined))
  }

  // ------------------------------------------------------------- the algorithm

  method GetDisplayNames(claims: seq<DisplayableClaim>, path: Path) returns (r: Option<map<string, string>>)
    ensures r == DisplayNames(claims, path)
  {
    for i := 0 to |claims|
      invariant DisplayNames(claims, path) == DisplayNames(claims[i..], path)
    {
      if IsPathEqual(claims[i].path, path) {
        var labels := claims[i].display;
        var nameMap := map[];
        for j := 0 to |labels|
          invariant nameMap == LabelMap(labels[..j])
        {
          assert labels[..j + 1][..j] == labels[..j];
          nameMap := nameMap[labels[j].locale := labels[j].name];
        }
        assert labels[..|labels|] == labels;
        return Some(nameMap);
      }
    }
    return None;
  }

  /** The entry of a declared field. */
  function DeclaredEntry(claims: seq<DisplayableClaim>, fields: map<string, Json>, path: Path, includeUndefined: bool,
                         segment: Segment): Entry
  {
    var key := SegmentName(segment);
    if key in fields then
      Entry(NameOf(claims, path + [segment], key, fields[key]),
            Localise(claims, fields[key], path + [segment], includeUndefined))
    else
      Entry(Plain(key), Leaf(Null))  // an absent field has no entry
  }

  /** The result holds, for each key that some processed segment spells, the entry
      of the last one that does. */
  ghost predicate HoldsLast(fields: map<string, Json>, entryOf: Segment -> Entry, segments: seq<Segment>,
                            result: map<string, Entry>) {
    && (forall k :: k in result <==> k in fields && LastSpelling(segments, k).Some?)
    && forall k :: k in result ==> result[k] == entryOf(LastSpelling(segments, k).value)
  }

  lemma HoldsOneMore(fields: map<string, Json>, entryOf: Segment -> Entry, segments: seq<Segment>, segment: Segment,
                     result: map<string, Entry>)
    requires HoldsLast(fields, entryOf, segments, result)
    ensures HoldsLast(fields, entryOf, segments + [segment],
                      if SegmentName(segment) in fields then result[SegmentName(segment) := entryOf(segment)] else result)
  {
    forall k
      ensures LastSpelling(segments + [segment], k)
           == if SegmentName(segment) == k then Some(segment) else LastSpelling(segments, k)
    {
      assert (segments + [segment])[..|segments|] == segments;
    }
  }

  /** Identifies the unique keys and indices that the configuration declares at
      this level. */
  method CollectDeclared(claims: seq<DisplayableClaim>, path: Path) returns (declared: seq<Segment>)
    ensures declared == DeclaredBelow(claims, path)
    ensures forall i, j :: 0 <= i < j < |declared| ==> declared[i] != declared[j]
  {
    declared := [];
    for i := 0 to |claims|
      invariant forall j, j' :: 0 <= j < j' < |declared| ==> declared[j] != declared[j']
      invariant declared == DeclaredBelow(claims[..i], path)
    {
      assert claims[..i + 1][..i] == claims[..i];
      if IsPrefixOf(path, claims[i].path) {
        var next := claims[i].path[|path|];
        if !next.Wildcard? && next !in declared {
          declared := declared + [next];
        }
      }
    }
    assert claims[..|claims|] == claims;
  }

  /** Copies the fields that were not processed, under their own key. */
  method AddUndefined(data: Json, processed: set<Segment>, known: map<string, Entry>) returns (result: map<string, Entry>)
    requires data.Obj? && WellFormed(data)
    ensures forall k :: k in result <==> k in known || (k in data.fields && Key(k) !in processed)
    ensures forall k :: k in result ==>
              result[k] == if k in data.fields && Key(k) !in processed then Entry(Plain(k), Verbatim(data.fields[k])) else known[k]
  {
    result := known;
    for i := 0 to |data.keys|
      invariant forall k :: k in result <==> k in known || (k in data.keys[..i] && Key(k) !in processed)
      invariant forall k :: k in result ==>
        result[k] == if k in data.keys[..i] && Key(k) !in processed then Entry(Plain(k), Verbatim(data.fields[k])) else known[k]
    {
      var key := data.keys[i];
      assert data.keys[..i + 1] == data.keys[..i] + [key];
      if Key(key) !in processed {
        result := result[key := Entry(Plain(key), Verbatim(data.fields[key]))];
      }
    }
    assert data.keys[..|data.keys|] == data.keys;
  }

  /** Builds the entry of one declared field that is there. */
  method ProcessField(claims: seq<DisplayableClaim>, data: Json, path: Path, includeUndefined: bool, segment: Segment)
    returns (entry: Entry)
    requires data.Obj? && WellFormed(data) && SegmentName(segment) in data.fields
    ensures entry == DeclaredEntry(claims, data.fields, path, includeUndefined, segment)
    decreases data, 0
  {
    var key := SegmentName(segment);
    var names := GetDisplayNames(claims, path + [segment]);
    if names.None? && data.fields[key].Arr? {
      names := GetDisplayNames(claims, path + [segment] + [Wildcard]);
    }
    var value := ProcessLevel(claims, data.fields[key], path + [segment], includeUndefined);
    return Entry(if names.Some? then Localised(names.value) else Plain(key), value);
  }

  /** Processes the declared segments in order and records which ones were found. */
  method ProcessDeclared(claims: seq<DisplayableClaim>, data: Json, path: Path, includeUndefined: bool, declared: seq<Segment>)
    returns (result: map<string, Entry>, processed: set<Segment>)
    requires data.Obj? && WellFormed(data)
    ensures HoldsLast(data.fields, s => DeclaredEntry(claims, data.fields, path, includeUndefined, s), declared, result)
    ensures processed == set s | s in declared && SegmentName(s) in data.fields
    decreases data, 1
  {
    ghost var entryOf := s => DeclaredEntry(claims, data.fields, path, includeUndefined, s);
    result, processed := map[], {};
    for i := 0 to |declared|
      invariant HoldsLast(data.fields, entryOf, declared[..i], result)
      invariant processed == set s | s in declared[..i] && SegmentName(s) in data.fields
    {
      var segment := declared[i];
      assert declared[..i + 1] == declared[..i] + [segment];
      HoldsOneMore(data.fields, entryOf, declared[..i], segment, result);
      if SegmentName(segment) in data.fields {
        var entry := ProcessField(claims, data, path, includeUndefined, segment);
        result := result[SegmentName(segment) := entry];
        processed := processed + {segment};
      }
    }
    assert declared[..|declared|] == declared;
  }

  lemma LevelKeys(claims: seq<DisplayableClaim>, data: Json, path: Path, includeUndefined: bool)
    requires data.Obj?
    ensures var out := Localise(claims, data, path, includeUndefined);
            && out.Record?
            && forall k :: k in out.entries <==>
                 k in data.fields && (LastSpelling(DeclaredBelow(claims, path), k).Some? || includeUndefined)
  {
  }

  lemma LevelEntry(claims: seq<DisplayableClaim>, data: Json, path: Path, includeUndefined: bool, key: string)
    requires data.Obj? && key in data.fields
    requires Localise(claims, data, path, includeUndefined).Record?
    requires key in Localise(claims, data, path, includeUndefined).entries
    ensures var declared := DeclaredBelow(claims, path);
            Localise(claims, data, path, includeUndefined).entries[key]
            == if LastSpelling(declared, key).None? || (includeUndefined && Key(key) !in declared)
               then Entry(Plain(key), Verbatim(data.fields[key]))
               else DeclaredEntry(claims, data.fields, path, includeUndefined, LastSpelling(declared, key).value)
  {
    assert Localise(claims, data, path, includeUndefined).entries[key]
        == LocaliseField(claims, data, path, includeUndefined, key);
  }

  /** The level's result, declared and undeclared fields together. */
  lemma LevelIsLocalised(claims: seq<DisplayableClaim>, data: Json, path: Path, includeUndefined: bool,
                         result: map<string, Entry>)
    requires data.Obj?
    requires var declared := DeclaredBelow(claims, path);
             && (forall k :: k in result <==> k in data.fields && (LastSpelling(declared, k).Some? || includeUndefined))
             && forall k :: k in result ==>
                  result[k] == if LastSpelling(declared, k).None? || (includeUndefined && Key(k) !in declared)
                               then Entry(Plain(k), Verbatim(data.fields[k]))
                               else DeclaredEntry(claims, data.fields, path, includeUndefined, LastSpelling(declared, k).value)
    ensures Localise(claims, data, path, includeUndefined) == Record(result)
  {
    var out := Localise(claims, data, path, includeUndefined);
    LevelKeys(claims, data, path, includeUndefined);
    forall k | k in result
      ensures k in out.entries && out.entries[k] == result[k]
    {
      LevelEntry(claims, data, path, includeUndefined, k);
    }
    assert out.entries == result;
  }

  /** The recursive function that builds the localised structure. */
  method ProcessLevel(claims: seq<DisplayableClaim>, data: Json, path: Path, includeUndefined: bool)
    returns (out: Parsed)
    requires WellFormed(data)
    ensures out == Localise(claims, data, path, includeUndefined)
    decreases data, 2
  {
    if data.Arr? {
      var outs := [];
      for i := 0 to |data.items|
        invariant |outs| == i
        invariant forall j :: 0 <= j < i ==> outs[j] == Localise(claims, data.items[j], path + [Wildcard], includeUndefined)
      {
        var item := ProcessLevel(claims, data.items[i], path + [Wildcard], includeUndefined);
        outs := outs + [item];
      }
      return Items(outs);
    }
    if !data.Obj? {
      return Leaf(data);
    }
    var declared := CollectDeclared(claims, path);
    var result, processed := ProcessDeclared(claims, data, path, includeUndefined, declared);
    if includeUndefined {
      result := AddUndefined(data, processed, result);
    }
    LevelIsLocalised(claims, data, path, includeUndefined, result);
    return Record(result);
  }

  /** The first segments of the displayable paths, as far as they are strings. */
  ghost function Roots(claims: seq<DisplayableClaim>): set<string> {
    set c | c in claims && c.path != [] && c.path[0].Key? :: c.path[0].name
  }

  /** Parses a credential, after the check that every displayable root is there. */
  method ParseCredentialSdJwt(config: Option<seq<ClaimConfig>>, raw: Json, ignoreMissing: bool, includeUndefined: bool)
    returns (r: Result<Parsed, seq<string>>)
    requires raw.Obj? && WellFormed(raw)
    ensures var claims := Displayable(if config.Some? then config.value else []);
            && (r.Failure? <==> !ignoreMissing && !(Roots(claims) <= raw.fields.Keys))
            && (r.Failure? ==> forall k :: k in r.error <==> k in Roots(claims) && k !in raw.fields)
            && (r.Failure? ==> forall i, j :: 0 <= i < j < |r.error| ==> r.error[i] != r.error[j])
            && (r.Success? ==> r.value == Localise(claims, raw, [], includeUndefined))
  {
    var claims := Displayable(if config.Some? then config.value else []);
    if !ignoreMissing {
      var roots: seq<string> := [];
      for i := 0 to |claims|
        invariant forall k :: k in roots <==> k in Roots(claims[..i])
        invariant forall j, j' :: 0 <= j < j' < |roots| ==> roots[j] != roots[j']
      {
        assert claims[..i + 1] == claims[..i] + [claims[i]];
        if claims[i].path != [] && claims[i].path[0].Key? && claims[i].path[0].name !in roots {
          roots := roots + [claims[i].path[0].name];
        }
      }
      assert claims[..|claims|] == claims;
      var missing: seq<string> := [];
      for i := 0 to |roots|
        invariant forall k :: k in missing <==> k in roots[..i] && k !in raw.fields
        invariant forall j, j' :: 0 <= j < j' < |missing| ==> missing[j] != missing[j']
      {
        assert roots[..i + 1] == roots[..i] + [roots[i]];
        if roots[i] !in raw.fields {
          missing := missing + [roots[i]];
        }
      }
      assert roots[..|roots|] == roots;
      if |missing| > 0 {
        assert missing[0] in Roots(claims);
        return Failure(missing);
      }
    }
    var parsed := ProcessLevel(claims, raw, [], includeUndefined);
    return Success(parsed);
  }
}
