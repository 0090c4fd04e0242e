/** Which names the localised tree of a credential carries, and when two claim
    lists localise every credential alike. */
module SdJwtNaming {
  import opened Wrappers
  import opened Json
  import opened IssuerConfig
  import opened SdJwtParser
  import opened SdJwtLocalisation

  // -------------------------------------------------------------------- names

  predicate HasPath(claims: seq<DisplayableClaim>, path: Path) {
    exists c | c in claims :: c.path == path
  }

  /** `name` is the label of the first claim with the path. */
  ghost predicate IsLabelOf(claims: seq<DisplayableClaim>, path: Path, name: Name) {
    exists i :: 0 <= i < |claims| && claims[i].path == path && (forall j :: 0 <= j < i ==> claims[j].path != path)
                && name == Localised(LabelMap(claims[i].display))
  }

  /** `name` is the label of the first claim with the path; without one, for an
      array, that of the first claim for its elements; without either, the key. */
  ghost predicate IsNameFor(claims: seq<DisplayableClaim>, path: Path, key: string, value: Json, name: Name) {
    if HasPath(claims, path) then IsLabelOf(claims, path, name)
    else if value.Arr? && HasPath(claims, path + [Wildcard]) then IsLabelOf(claims, path + [Wildcard], name)
    else name == Plain(key)
  }

  lemma LabelFurtherOn(claims: seq<DisplayableClaim>, path: Path, name: Name)
    requires claims != [] && claims[0].path != path && IsLabelOf(claims[1..], path, name)
    ensures IsLabelOf(claims, path, name)
  {
    var rest := claims[1..];
    var i :| 0 <= i < |rest| && rest[i].path == path && (forall j :: 0 <= j < i ==> rest[j].path != path)
             && name == Localised(LabelMap(rest[i].display));
    assert claims[i + 1] == rest[i];
    assert forall j :: 0 < j < i + 1 ==> claims[j] == rest[j - 1];
  }

  lemma {:induction false} FirstWithPath(claims: seq<DisplayableClaim>, path: Path)
    ensures DisplayNames(claims, path).Some? <==> HasPath(claims, path)
    ensures DisplayNames(claims, path).Some? ==> IsLabelOf(claims, path, Localised(DisplayNames(claims, path).value))
  {
    if claims != [] {
      FirstWithPath(claims[1..], path);
      assert forall c :: c in claims <==> c == claims[0] || c in claims[1..];
      if claims[0].path != path && HasPath(claims, path) {
        LabelFurtherOn(claims, path, Localised(DisplayNames(claims, path).value));
      }
    }
  }

  lemma OneLabel(claims: seq<DisplayableClaim>, path: Path, name: Name, name': Name)
    requires IsLabelOf(claims, path, name) && IsLabelOf(claims, path, name')
    ensures name == name'
  {
  }

  /** The algorithm's name is the one and only name for a path. */
  lemma NameOfIsName(claims: seq<DisplayableClaim>, path: Path, key: string, value: Json, name: Name)
    ensures IsNameFor(claims, path, key, value, name) <==> name == NameOf(claims, path, key, value)
  {
    FirstWithPath(claims, path);
    FirstWithPath(claims, path + [Wildcard]);
    var r := NameOf(claims, path, key, value);
    if IsNameFor(claims, path, key, value, name) && name.Localised? && r.Localised? {
      OneLabel(claims, if HasPath(claims, path) then path else path + [Wildcard], name, r);
    }
  }

  /** Every name attached in the tree is the one the configuration gives to its
      place. */
  ghost predicate NamedByConfiguration(claims: seq<DisplayableClaim>, out: Parsed, data: Json, path: Path) {
    match out
    case Leaf(_) => true
    case Verbatim(_) => true
    case Items(items) =>
      && data.Arr? && |items| == |data.items|
      && forall i :: 0 <= i < |items| ==> NamedByConfiguration(claims, items[i], data.items[i], path + [Wildcard])
    case Record(entries) =>
      && data.Obj? && entries.Keys <= data.fields.Keys
      && forall k :: k in entries ==>
           && IsNameFor(claims, path + [Key(k)], k, data.fields[k], entries[k].name)
           && NamedByConfiguration(claims, entries[k].value, data.fields[k], path + [Key(k)])
  }

  // --------------------------------------------------------- entries of places

  /** The entry that a value gets below an object processed under `at`. */
  function EntryBelow(claims: seq<DisplayableClaim>, at: Path, key: string, value: Json, includeUndefined: bool): Option<Entry> {
    match Spelling(claims, at, Key(key), includeUndefined)
    case Some(segment) =>
      Some(Entry(NameOf(claims, at + [segment], key, value), Localise(claims, value, at + [segment], includeUndefined)))
    case None => if includeUndefined then Some(Entry(Plain(key), Verbatim(value))) else None
  }

  /** The entry that a value gets at a place, below a place processed under `at`. */
  function EntryOf(claims: seq<DisplayableClaim>, at: Path, path: Path, value: Json, includeUndefined: bool): Option<Entry>
    requires path != []
  {
    var n := |path| - 1;
    EntryFrom(claims, Followed(claims, at, path[..n], includeUndefined), SegmentName(path[n]), value, includeUndefined)
  }

  function EntryFrom(claims: seq<DisplayableClaim>, parent: Option<Path>, key: string, value: Json, includeUndefined: bool)
    : Option<Entry>
  {
    if parent.None? then None else EntryBelow(claims, parent.value, key, value, includeUndefined)
  }

  function NameAt(claims: seq<DisplayableClaim>, path: Path, value: Json, includeUndefined: bool): Option<Name>
    requires path != []
  {
    match EntryOf(claims, [], path, value, includeUndefined)
    case None => None
    case Some(entry) => Some(entry.name)
  }

  lemma FieldIsEntry(claims: seq<DisplayableClaim>, data: Json, at: Path, includeUndefined: bool, key: string)
    requires data.Obj? && key in data.fields
    ensures var out := Localise(claims, data, at, includeUndefined);
            && out.Record?
            && FieldOf(out, key) == EntryBelow(claims, at, key, data.fields[key], includeUndefined)
  {
    var out := Localise(claims, data, at, includeUndefined);
    if key in out.entries {
      assert out.entries[key] == LocaliseField(claims, data, at, includeUndefined, key);
    }
  }

  lemma OnlyFieldsAppear(claims: seq<DisplayableClaim>, data: Json, at: Path, includeUndefined: bool)
    requires data.Obj?
    ensures var out := Localise(claims, data, at, includeUndefined);
            out.Record? && forall k :: k in out.entries ==> k in data.fields
  {
  }

  /** The entry at a position of the parsed tree, none within a verbatim copy. */
  function EntryAt(out: Parsed, position: Position): Option<Entry>
    decreases |position|
  {
    if position == [] then None
    else
      match position[0]
      case Item(i) => if out.Items? && i < |out.items| then EntryAt(out.items[i], position[1..]) else None
      case Field(k) =>
        if !out.Record? || k !in out.entries then None
        else if |position| == 1 then Some(out.entries[k])
        else EntryAt(out.entries[k].value, position[1..])
  }

  /** What the input has at a position. */
  function ValueAt(data: Json, position: Position): Json
    requires Has(data, position)
    decreases |position|
  {
    if position == [] then data
    else
      match position[0]
      case Item(i) => ValueAt(data.items[i], position[1..])
      case Field(k) => ValueAt(data.fields[k], position[1..])
  }

  /** The position's path, array indices read as `null`. */
  function PlaceOf(position: Position): (path: Path)
    ensures |path| == |position| && forall i :: 0 <= i < |path| ==> path[i] == SegmentOf(position[i])
  {
    seq(|position|, i requires 0 <= i < |position| => SegmentOf(position[i]))
  }

  ghost predicate EndsInField(position: Position) {
    position != [] && position[|position| - 1].Field?
  }

  lemma EntryOfBelow(claims: seq<DisplayableClaim>, at: Path, path: Path, value: Json, includeUndefined: bool)
    requires |path| > 1
    ensures EntryOf(claims, at, path, value, includeUndefined)
         == match Spelling(claims, at, path[0], includeUndefined)
            case None => None
            case Some(segment) => EntryOf(claims, at + [segment], path[1..], value, includeUndefined)
  {
    var n := |path| - 1;
    assert path[..n][0] == path[0] && path[..n][1..] == path[1..][..n - 1];
    var segment := Spelling(claims, at, path[0], includeUndefined);
    if segment.Some? {
      assert Followed(claims, at, path[..n], includeUndefined)
          == Followed(claims, at + [segment.value], path[1..][..n - 1], includeUndefined);
    } else {
      assert Followed(claims, at, path[..n], includeUndefined) == None;
    }
  }

  /** A step down to a position below another one. */
  lemma EntryAtBelow(claims: seq<DisplayableClaim>, data: Json, at: Path, position: Position, includeUndefined: bool)
    requires |position| > 1 && Has(data, position)
    ensures EntryAt(Localise(claims, data, at, includeUndefined), position)
         == match Spelling(claims, at, SegmentOf(position[0]), includeUndefined)
            case None => None
            case Some(segment) =>
              EntryAt(Localise(claims, ValueAt(data, position[..1]), at + [segment], includeUndefined), position[1..])
  {
    assert position[..1] == [position[0]] && position[..1][1..] == [];
    match position[0]
    case Field(k) =>
      assert ValueAt(data, position[..1]) == data.fields[k];
      FieldIsEntry(claims, data, at, includeUndefined, k);
    case Item(i) =>
      assert ValueAt(data, position[..1]) == data.items[i];
  }

  lemma OneKey(key: string)
    ensures PlaceOf([Field(key)]) == [Key(key)] && [Key(key)][..0] == [] && [Field(key)][1..] == []
  {
  }

  lemma ValueBelow(data: Json, position: Position)
    requires position != [] && Has(data, position)
    ensures Has(data, position[..1]) && Has(ValueAt(data, position[..1]), position[1..])
    ensures ValueAt(data, position) == ValueAt(ValueAt(data, position[..1]), position[1..])
    ensures PlaceOf(position)[1..] == PlaceOf(position[1..]) && PlaceOf(position)[0] == SegmentOf(position[0])
  {
    assert position[..1] == [position[0]] && position[..1][1..] == [];
  }

  /** The parsed tree has, at every position of the input that ends in a key, the
      entry of its place. */
  lemma {:induction false} EntryAtPosition(claims: seq<DisplayableClaim>, data: Json, at: Path, position: Position,
                                           includeUndefined: bool)
    requires EndsInField(position) && Has(data, position)
    ensures EntryAt(Localise(claims, data, at, includeUndefined), position)
         == EntryOf(claims, at, PlaceOf(position), ValueAt(data, position), includeUndefined)
    decreases |position|
  {
    if |position| == 1 {
      var key := position[0].key;
      assert position == [Field(key)];
      OneKey(key);
      FieldIsEntry(claims, data, at, includeUndefined, key);
    } else {
      ValueBelow(data, position);
      EntryAtBelow(claims, data, at, position, includeUndefined);
      EntryOfBelow(claims, at, PlaceOf(position), ValueAt(data, position), includeUndefined);
      var segment := Spelling(claims, at, SegmentOf(position[0]), includeUndefined);
      if segment.Some? {
        EntryAtPosition(claims, ValueAt(data, position[..1]), at + [segment.value], position[1..], includeUndefined);
      }
    }
  }

  /** Every key of the input, behind whatever array indices. If the code gets to
      its place, it has the name of the path followed, and its value is not copied.
      If it gets to the object only, the value is a verbatim copy under the key if
      undeclared attributes are included, and left out otherwise. */
  lemma EveryKey(claims: seq<DisplayableClaim>, data: Json, position: Position, key: string, includeUndefined: bool)
    requires Has(data, position + [Field(key)])
    ensures var value := ValueAt(data, position + [Field(key)]);
            var place := PlaceOf(position);
            match EntryAt(Localise(claims, data, [], includeUndefined), position + [Field(key)])
            case Some(entry) =>
              && Followed(claims, [], place, includeUndefined).Some?
              && (match Followed(claims, [], place + [Key(key)], includeUndefined)
                  case Some(q) => IsNameFor(claims, q, key, value, entry.name) && !entry.value.Verbatim?
                  case None => includeUndefined && entry == Entry(Plain(key), Verbatim(value)))
            case None =>
              Followed(claims, [], place, includeUndefined).None? ||
              (!includeUndefined && Followed(claims, [], place + [Key(key)], includeUndefined).None?)
  {
    var whole := position + [Field(key)];
    var place := PlaceOf(position);
    assert PlaceOf(whole) == place + [Key(key)] && (place + [Key(key)])[..|place|] == place;
    EntryAtPosition(claims, data, [], whole, includeUndefined);
    FollowedFurther(claims, [], place, Key(key), includeUndefined);
    var q := Followed(claims, [], place + [Key(key)], includeUndefined);
    if q.Some? {
      var value := ValueAt(data, whole);
      NameOfIsName(claims, q.value, key, value, NameOf(claims, q.value, key, value));
    }
  }

  /** The position is at or below a verbatim copy. */
  ghost predicate Copied(out: Parsed, position: Position)
    decreases |position|
  {
    out.Verbatim? ||
    (position != [] &&
     match position[0]
     case Item(i) => out.Items? && i < |out.items| && Copied(out.items[i], position[1..])
     case Field(k) => out.Record? && k in out.entries && Copied(out.entries[k].value, position[1..]))
  }

  /** Verbatim copies stand exactly at and below the keys to which the code does
      not get, and only if undeclared attributes are included. */
  lemma {:induction false} CopiedBelow(claims: seq<DisplayableClaim>, data: Json, at: Path, position: Position,
                                       includeUndefined: bool)
    requires Has(data, position)
    ensures Copied(Localise(claims, data, at, includeUndefined), position)
       <==> includeUndefined && Followed(claims, at, PathToLastKey(position), includeUndefined).None?
    decreases |position|
  {
    if position != [] {
      var rest := PathToLastKey(position[1..]);
      if position[0].Item? {
        CopiedBelow(claims, data.items[position[0].index], at + [Wildcard], position[1..], includeUndefined);
        assert rest != [] ==> PathToLastKey(position)[1..] == rest;
      } else {
        var k := position[0].key;
        assert PathToLastKey(position)[1..] == rest;
        FieldIsEntry(claims, data, at, includeUndefined, k);
        var segment := Spelling(claims, at, Key(k), includeUndefined);
        if segment.Some? {
          CopiedBelow(claims, data.fields[k], at + [segment.value], position[1..], includeUndefined);
        }
      }
    }
  }

  lemma CopiedWhereNotFollowed(claims: seq<DisplayableClaim>, data: Json, position: Position, includeUndefined: bool)
    requires Has(data, position)
    ensures Copied(Localise(claims, data, [], includeUndefined), position)
       <==> includeUndefined && Followed(claims, [], PathToLastKey(position), includeUndefined).None?
  {
    CopiedBelow(claims, data, [], position, includeUndefined);
  }

  lemma {:induction false} ValueInTree(path: Path, value: Json)
    requires IsPlace(path)
    ensures Has(TreeOf(path, value), StepsOf(path)) && ValueAt(TreeOf(path, value), StepsOf(path)) == value
    ensures PlaceOf(StepsOf(path)) == path
    decreases |path|
  {
    if path != [] {
      assert StepsOf(path)[1..] == StepsOf(path[1..]);
      ValueInTree(path[1..], value);
    }
  }

  lemma TreeEntry(claims: seq<DisplayableClaim>, path: Path, value: Json, includeUndefined: bool)
    requires IsPlace(path) && EndsInKey(path)
    ensures EntryAt(Localise(claims, TreeOf(path, value), [], includeUndefined), StepsOf(path))
         == EntryOf(claims, [], path, value, includeUndefined)
  {
    ValueInTree(path, value);
    LastStep(path);
    EntryAtPosition(claims, TreeOf(path, value), [], StepsOf(path), includeUndefined);
  }

  lemma NamedItem(claims: seq<DisplayableClaim>, out: Parsed, data: Json, position: Position, place: Path)
    requires position != [] && position[0].Item? && Has(data, position)
    requires NamedByConfiguration(claims, out, data, place) && EntryAt(out, position).Some?
    ensures var i := position[0].index;
            && out.Items? && i < |out.items|
            && NamedByConfiguration(claims, out.items[i], data.items[i], place + [Wildcard])
            && EntryAt(out, position) == EntryAt(out.items[i], position[1..])
  {
  }

  lemma NamedField(claims: seq<DisplayableClaim>, out: Parsed, data: Json, position: Position, place: Path, key: string)
    requires position != [] && position[0] == Field(key) && Has(data, position)
    requires NamedByConfiguration(claims, out, data, place) && EntryAt(out, position).Some?
    ensures out.Record? && key in out.entries
    ensures out.entries[key].name == NameOf(claims, place + [Key(key)], key, data.fields[key])
    ensures NamedByConfiguration(claims, out.entries[key].value, data.fields[key], place + [Key(key)])
    ensures EntryAt(out, position)
         == if |position| == 1 then Some(out.entries[key]) else EntryAt(out.entries[key].value, position[1..])
  {
    NameOfIsName(claims, place + [Key(key)], key, data.fields[key], out.entries[key].name);
  }

  /** One step down to the subtree that a longer position leads to. */
  lemma NamedStep(claims: seq<DisplayableClaim>, out: Parsed, data: Json, position: Position, place: Path)
    returns (next: Parsed)
    requires |position| > 1 && Has(data, position)
    requires NamedByConfiguration(claims, out, data, place) && EntryAt(out, position).Some?
    ensures Has(data, position[..1])
    ensures NamedByConfiguration(claims, next, ValueAt(data, position[..1]), place + [SegmentOf(position[0])])
    ensures EntryAt(out, position) == EntryAt(next, position[1..])
  {
    ValueBelow(data, position);
    assert position[..1] == [position[0]] && position[..1][1..] == [];
    match position[0]
    case Item(i) =>
      NamedItem(claims, out, data, position, place);
      assert ValueAt(data, position[..1]) == data.items[i];
      next := out.items[i];
    case Field(key) =>
      NamedField(claims, out, data, position, place, key);
      assert ValueAt(data, position[..1]) == data.fields[key];
      next := out.entries[key].value;
  }

  lemma NamedOne(claims: seq<DisplayableClaim>, out: Parsed, data: Json, place: Path, key: string)
    requires Has(data, [Field(key)])
    requires NamedByConfiguration(claims, out, data, place) && EntryAt(out, [Field(key)]).Some?
    ensures EntryAt(out, [Field(key)]).value.name
         == NameOf(claims, place + PlaceOf([Field(key)]), key, ValueAt(data, [Field(key)]))
  {
    OneKey(key);
    NamedField(claims, out, data, [Field(key)], place, key);
  }

  /** The name met at a position is among those of the tree. */
  lemma {:induction false} NamedAt(claims: seq<DisplayableClaim>, out: Parsed, data: Json, position: Position, place: Path)
    returns (name: Name)
    requires EndsInField(position) && Has(data, position)
    requires NamedByConfiguration(claims, out, data, place) && EntryAt(out, position).Some?
    ensures EntryAt(out, position).value.name == name
    ensures name == NameOf(claims, place + PlaceOf(position), position[|position| - 1].key, ValueAt(data, position))
    decreases |position|
  {
    if |position| == 1 {
      var key := position[0].key;
      assert position == [Field(key)];
      NamedOne(claims, out, data, place, key);
      name := EntryAt(out, position).value.name;
    } else {
      ValueBelow(data, position);
      var next := NamedStep(claims, out, data, position, place);
      assert place + PlaceOf(position) == place + [SegmentOf(position[0])] + PlaceOf(position[1..]);
      name := NamedAt(claims, next, ValueAt(data, position[..1]), position[1..], place + [SegmentOf(position[0])]);
    }
  }

  // ------------------------------------------- when names are those configured

  /** Only whether a value is an array matters for its name. */
  function Kind(value: Json): Json {
    if value.Arr? then Arr([]) else Null
  }

  /** A value at the place gets no entry, or the name configured for the place. */
  predicate WellNamedAt(claims: seq<DisplayableClaim>, path: Path, value: Json, includeUndefined: bool)
    requires path != []
  {
    var name := NameAt(claims, path, value, includeUndefined);
    name.Some? ==> name.value == NameOf(claims, path, SegmentName(path[|path| - 1]), value)
  }

  predicate WellNamedAlong(claims: seq<DisplayableClaim>, path: Path, includeUndefined: bool) {
    forall n | 0 < n <= |path| && !path[n - 1].Wildcard? ::
      && WellNamedAt(claims, AsKeys(path[..n]), Null, includeUndefined)
      && WellNamedAt(claims, AsKeys(path[..n]), Arr([]), includeUndefined)
  }

  /** At the claims' places, with numbers read as keys, values and arrays get the
      names configured there. */
  predicate NamesHarmless(claims: seq<DisplayableClaim>, includeUndefined: bool) {
    forall c | c in claims :: WellNamedAlong(claims, c.path, includeUndefined)
  }

  /** Some claim's path, or its beginning, spells the place. */
  ghost predicate SpelledBy(claims: seq<DisplayableClaim>, path: Path) {
    exists c, n :: c in claims && 0 < n <= |c.path| && !c.path[n - 1].Wildcard? && AsKeys(c.path[..n]) == path
  }

  lemma DeclaredIsSpelled(claims: seq<DisplayableClaim>, path: Path)
    requires EndsInKey(path) && Declared(claims, path)
    ensures SpelledBy(claims, AsKeys(path))
  {
    var c :| c in claims && path <= c.path;
    assert path == c.path[..|path|] && c.path[|path| - 1] == path[|path| - 1];
  }

  lemma FollowedIsSpelled(claims: seq<DisplayableClaim>, path: Path, includeUndefined: bool)
    requires IsPlace(path) && EndsInKey(path) && Followed(claims, [], path, includeUndefined).Some?
    ensures SpelledBy(claims, path)
  {
    var q := FollowedSpells(claims, path, includeUndefined);
    DeclaredIsSpelled(claims, q);
  }

  lemma UnspelledName(claims: seq<DisplayableClaim>, path: Path, key: string, value: Json)
    requires IsPlace(path) && EndsInKey(path) && !SpelledBy(claims, path)
    ensures NameOf(claims, path, key, value) == Plain(key)
  {
    if Declared(claims, path) {
      KeysOfPlace(path);
      DeclaredIsSpelled(claims, path);
    }
    FirstWithPath(claims, path);
    FirstWithPath(claims, path + [Wildcard]);
    assert forall c :: c in claims && c.path == path + [Wildcard] ==> path <= c.path;
  }

  /** Where no claim leads, values are copied under their key. */
  lemma UnspelledEntry(claims: seq<DisplayableClaim>, path: Path, value: Json, includeUndefined: bool)
    requires IsPlace(path) && EndsInKey(path) && !SpelledBy(claims, path)
    ensures Followed(claims, [], path, includeUndefined).None?
    ensures EntryOf(claims, [], path, value, includeUndefined)
         == if includeUndefined && Followed(claims, [], path[..|path| - 1], includeUndefined).Some?
            then Some(Entry(Plain(SegmentName(path[|path| - 1])), Verbatim(value))) else None
  {
    if Followed(claims, [], path, includeUndefined).Some? {
      FollowedIsSpelled(claims, path, includeUndefined);
    }
    var n := |path| - 1;
    assert path == path[..n] + [path[n]];
    FollowedFurther(claims, [], path[..n], path[n], includeUndefined);
  }

  lemma NameOfKind(claims: seq<DisplayableClaim>, path: Path, value: Json, includeUndefined: bool)
    requires path != []
    ensures NameAt(claims, path, value, includeUndefined) == NameAt(claims, path, Kind(value), includeUndefined)
    ensures forall key :: NameOf(claims, path, key, value) == NameOf(claims, path, key, Kind(value))
  {
  }

  lemma NamedEverywhere(claims: seq<DisplayableClaim>, path: Path, value: Json, includeUndefined: bool)
    requires NamesHarmless(claims, includeUndefined) && IsPlace(path) && EndsInKey(path)
    ensures WellNamedAt(claims, path, value, includeUndefined)
  {
    if SpelledBy(claims, path) {
      var c, n :| c in claims && 0 < n <= |c.path| && !c.path[n - 1].Wildcard? && AsKeys(c.path[..n]) == path;
      assert WellNamedAlong(claims, c.path, includeUndefined);
      assert WellNamedAt(claims, AsKeys(c.path[..n]), Null, includeUndefined);
      NameOfKind(claims, path, value, includeUndefined);
    } else {
      UnspelledEntry(claims, path, value, includeUndefined);
      UnspelledName(claims, path, SegmentName(path[|path| - 1]), value);
    }
  }

  lemma EntryAtField(claims: seq<DisplayableClaim>, data: Json, place: Path, at: Path, includeUndefined: bool, key: string)
    requires Followed(claims, [], place, includeUndefined) == Some(at) && IsPlace(place)
    requires data.Obj? && key in data.fields
    ensures var out := Localise(claims, data, at, includeUndefined);
            && out.Record?
            && IsPlace(place + [Key(key)])
            && FieldOf(out, key) == EntryOf(claims, [], place + [Key(key)], data.fields[key], includeUndefined)
  {
    FieldIsEntry(claims, data, at, includeUndefined, key);
    assert (place + [Key(key)])[..|place|] == place;
  }

  lemma {:induction false} NamedBelow(claims: seq<DisplayableClaim>, data: Json, place: Path, at: Path, includeUndefined: bool)
    requires NamesHarmless(claims, includeUndefined)
    requires Followed(claims, [], place, includeUndefined) == Some(at) && IsPlace(place)
    ensures NamedByConfiguration(claims, Localise(claims, data, at, includeUndefined), data, place)
    decreases data
  {
    match data
    case Arr(items) =>
      FollowedFurther(claims, [], place, Wildcard, includeUndefined);
      forall i | 0 <= i < |items|
        ensures NamedByConfiguration(claims, Localise(claims, items[i], at + [Wildcard], includeUndefined), items[i], place + [Wildcard])
      {
        NamedBelow(claims, items[i], place + [Wildcard], at + [Wildcard], includeUndefined);
      }
    case Obj(_, fields) =>
      OnlyFieldsAppear(claims, data, at, includeUndefined);
      var out := Localise(claims, data, at, includeUndefined);
      forall k | k in out.entries
        ensures IsNameFor(claims, place + [Key(k)], k, fields[k], out.entries[k].name)
        ensures NamedByConfiguration(claims, out.entries[k].value, fields[k], place + [Key(k)])
      {
        EntryAtField(claims, data, place, at, includeUndefined, k);
        NamedEverywhere(claims, place + [Key(k)], fields[k], includeUndefined);
        NameOfIsName(claims, place + [Key(k)], k, fields[k], out.entries[k].name);
        var segment := Spelling(claims, at, Key(k), includeUndefined);
        if segment.Some? {
          FollowedFurther(claims, [], place, Key(k), includeUndefined);
          NamedBelow(claims, fields[k], place + [Key(k)], at + [segment.value], includeUndefined);
        }
        FieldIsEntry(claims, data, at, includeUndefined, k);
      }
    case _ =>
  }

  /** Every name attached to a credential is the one configured for its place. */
  ghost predicate NamesConfigured(claims: seq<DisplayableClaim>, data: Json, includeUndefined: bool) {
    NamedByConfiguration(claims, Localise(claims, data, [], includeUndefined), data, [])
  }

  lemma LastStep(path: Path)
    requires IsPlace(path) && EndsInKey(path)
    ensures EndsInField(StepsOf(path)) && StepsOf(path)[|path| - 1] == Field(SegmentName(path[|path| - 1]))
  {
    assert SegmentOf(StepsOf(path)[|path| - 1]) == AsKey(path[|path| - 1]);
  }

  lemma NamedPosition(claims: seq<DisplayableClaim>, data: Json, position: Position, includeUndefined: bool)
    requires EndsInField(position) && Has(data, position)
    requires NamedByConfiguration(claims, Localise(claims, data, [], includeUndefined), data, [])
    ensures var entry := EntryOf(claims, [], PlaceOf(position), ValueAt(data, position), includeUndefined);
            entry.Some? ==>
              entry.value.name == NameOf(claims, PlaceOf(position), position[|position| - 1].key, ValueAt(data, position))
  {
    EntryAtPosition(claims, data, [], position, includeUndefined);
    var out := Localise(claims, data, [], includeUndefined);
    if EntryAt(out, position).Some? {
      var _ := NamedAt(claims, out, data, position, []);
      assert [] + PlaceOf(position) == PlaceOf(position);
    }
  }

  lemma NamedAtPlace(claims: seq<DisplayableClaim>, path: Path, value: Json, includeUndefined: bool)
    requires IsPlace(path) && EndsInKey(path) && NamesConfigured(claims, TreeOf(path, value), includeUndefined)
    ensures WellNamedAt(claims, path, value, includeUndefined)
  {
    ValueInTree(path, value);
    LastStep(path);
    NamedPosition(claims, TreeOf(path, value), StepsOf(path), includeUndefined);
  }

  /** When every attached name, in every credential and at any depth, is that of
      the first claim with the equal path, else for arrays that of the path
      continued with `null`, else the key: exactly if that is so at the places
      that the claims spell. */
  lemma NamesExactly(claims: seq<DisplayableClaim>, includeUndefined: bool)
    ensures (forall data :: NamesConfigured(claims, data, includeUndefined)) <==> NamesHarmless(claims, includeUndefined)
  {
    if NamesHarmless(claims, includeUndefined) {
      forall data
        ensures NamesConfigured(claims, data, includeUndefined)
      {
        NamedBelow(claims, data, [], [], includeUndefined);
      }
    }
    if forall data :: NamesConfigured(claims, data, includeUndefined) {
      forall c | c in claims
        ensures WellNamedAlong(claims, c.path, includeUndefined)
      {
        forall n | 0 < n <= |c.path| && !c.path[n - 1].Wildcard?
          ensures WellNamedAt(claims, AsKeys(c.path[..n]), Null, includeUndefined)
          ensures WellNamedAt(claims, AsKeys(c.path[..n]), Arr([]), includeUndefined)
        {
          KeysArePlace(c.path[..n]);
          NamedAtPlace(claims, AsKeys(c.path[..n]), Null, includeUndefined);
          NamedAtPlace(claims, AsKeys(c.path[..n]), Arr([]), includeUndefined);
        }
      }
    }
  }

  lemma KeysArePlace(path: Path)
    ensures IsPlace(AsKeys(path)) && (EndsInKey(path) ==> EndsInKey(AsKeys(path)))
  {
  }

  /** In particular it is so for paths of strings and `null`. */
  lemma AttachedNames(claims: seq<DisplayableClaim>, data: Json, includeUndefined: bool)
    requires WithoutIndices(claims)
    ensures NamesConfigured(claims, data, includeUndefined)
  {
    forall c | c in claims
      ensures WellNamedAlong(claims, c.path, includeUndefined)
    {
      forall n | 0 < n <= |c.path| && !c.path[n - 1].Wildcard?
        ensures WellNamedAt(claims, AsKeys(c.path[..n]), Null, includeUndefined)
        ensures WellNamedAt(claims, AsKeys(c.path[..n]), Arr([]), includeUndefined)
      {
        DeclaredName(claims, c, n, Null, includeUndefined);
        DeclaredName(claims, c, n, Arr([]), includeUndefined);
      }
    }
    NamesExactly(claims, includeUndefined);
  }

  lemma DeclaredName(claims: seq<DisplayableClaim>, c: DisplayableClaim, n: nat, value: Json, includeUndefined: bool)
    requires WithoutIndices(claims) && c in claims && 0 < n <= |c.path| && !c.path[n - 1].Wildcard?
    ensures WellNamedAt(claims, AsKeys(c.path[..n]), value, includeUndefined)
  {
    var path := c.path[..n];
    KeysOfPlace(path);
    assert path[..n - 1] == c.path[..n - 1] && path == path[..n - 1] + [path[n - 1]];
    assert Declared(claims, path) && Declared(claims, path[..n - 1]);
    PlaceIsFollowed(claims, path, includeUndefined);
    PlaceIsFollowed(claims, path[..n - 1], includeUndefined);
    FollowedFurther(claims, [], path[..n - 1], path[n - 1], includeUndefined);
  }

  lemma NameBySpelling(claims: seq<DisplayableClaim>, key: string, includeUndefined: bool)
    ensures NameAt(claims, [Key(key)], Null, includeUndefined)
         == match Spelling(claims, [], Key(key), includeUndefined)
            case Some(segment) => Some(NameOf(claims, [segment], key, Null))
            case None => if includeUndefined then Some(Plain(key)) else None
  {
    assert [Key(key)][..0] == [];
    forall segment: Segment
      ensures [] + [segment] == [segment]
    {
    }
  }

  /** A claim for index 0 names the field "0" while undeclared attributes are left
      out, and not when they are included. */
  lemma IndexLosesName(labels: seq<Label>)
    ensures NameAt([IndexClaim(labels)], [Key("0")], Null, false) == Some(Localised(LabelMap(labels)))
    ensures NameAt([IndexClaim(labels)], [Key("0")], Null, true) == Some(Plain("0"))
  {
    SpelledByIndex(labels);
    NameBySpelling([IndexClaim(labels)], "0", false);
    NameBySpelling([IndexClaim(labels)], "0", true);
  }

  /** The first of these is not the name configured for the field. */
  lemma IndexNamesUndeclaredField(labels: seq<Label>)
    ensures !NamesHarmless([IndexClaim(labels)], false)
  {
    var claims := [IndexClaim(labels)];
    IndexLosesName(labels);
    FirstWithPath(claims, [Key("0")]);
    assert NameOf(claims, [Key("0")], "0", Null) == Plain("0");
    assert !WellNamedAt(claims, [Key("0")], Null, false);
    assert Decimal(0) == "0" && AsKeys(claims[0].path[..1]) == [Key("0")];
    assert !WellNamedAlong(claims, claims[0].path, false);
  }

  // -------------------------------------------------------------- claim order

  /** The claim lists process the place alike: both or neither get there, and a
      value, or an array, gets the same name or none. */
  predicate AlikeAt(claims: seq<DisplayableClaim>, claims': seq<DisplayableClaim>, path: Path, includeUndefined: bool)
    requires path != []
  {
    && (Followed(claims, [], path, includeUndefined).Some? <==> Followed(claims', [], path, includeUndefined).Some?)
    && NameAt(claims, path, Null, includeUndefined) == NameAt(claims', path, Null, includeUndefined)
    && NameAt(claims, path, Arr([]), includeUndefined) == NameAt(claims', path, Arr([]), includeUndefined)
  }

  predicate AlikeAlong(claims: seq<DisplayableClaim>, claims': seq<DisplayableClaim>, path: Path, includeUndefined: bool) {
    forall n | 0 < n <= |path| && !path[n - 1].Wildcard? :: AlikeAt(claims, claims', AsKeys(path[..n]), includeUndefined)
  }

  /** And so at all places that claims of either list spell. */
  predicate Alike(claims: seq<DisplayableClaim>, claims': seq<DisplayableClaim>, includeUndefined: bool) {
    forall c | c in claims + claims' :: AlikeAlong(claims, claims', c.path, includeUndefined)
  }

  lemma AlikeEverywhere(claims: seq<DisplayableClaim>, claims': seq<DisplayableClaim>, path: Path, value: Json,
                        includeUndefined: bool)
    requires Alike(claims, claims', includeUndefined) && IsPlace(path) && EndsInKey(path)
    requires Followed(claims, [], path[..|path| - 1], includeUndefined).Some?
    requires Followed(claims', [], path[..|path| - 1], includeUndefined).Some?
    ensures Followed(claims, [], path, includeUndefined).Some? <==> Followed(claims', [], path, includeUndefined).Some?
    ensures NameAt(claims, path, value, includeUndefined) == NameAt(claims', path, value, includeUndefined)
  {
    if SpelledBy(claims + claims', path) {
      var c, n :| c in claims + claims' && 0 < n <= |c.path| && !c.path[n - 1].Wildcard? && AsKeys(c.path[..n]) == path;
      assert AlikeAlong(claims, claims', c.path, includeUndefined);
      assert AlikeAt(claims, claims', path, includeUndefined);
      NameOfKind(claims, path, value, includeUndefined);
      NameOfKind(claims', path, value, includeUndefined);
    } else {
      assert forall c :: c in claims || c in claims' ==> c in claims + claims';
      UnspelledEntry(claims, path, value, includeUndefined);
      UnspelledEntry(claims', path, value, includeUndefined);
    }
  }

  lemma {:induction false} SameParse(claims: seq<DisplayableClaim>, claims': seq<DisplayableClaim>, data: Json,
                                     place: Path, at: Path, at': Path, includeUndefined: bool)
    requires Alike(claims, claims', includeUndefined) && IsPlace(place)
    requires Followed(claims, [], place, includeUndefined) == Some(at)
    requires Followed(claims', [], place, includeUndefined) == Some(at')
    ensures Localise(claims, data, at, includeUndefined) == Localise(claims', data, at', includeUndefined)
    decreases data
  {
    match data
    case Arr(items) =>
      FollowedFurther(claims, [], place, Wildcard, includeUndefined);
      FollowedFurther(claims', [], place, Wildcard, includeUndefined);
      forall i | 0 <= i < |items|
        ensures Localise(claims, items[i], at + [Wildcard], includeUndefined)
             == Localise(claims', items[i], at' + [Wildcard], includeUndefined)
      {
        SameParse(claims, claims', items[i], place + [Wildcard], at + [Wildcard], at' + [Wildcard], includeUndefined);
      }
    case Obj(_, fields) =>
      OnlyFieldsAppear(claims, data, at, includeUndefined);
      OnlyFieldsAppear(claims', data, at', includeUndefined);
      forall k | k in fields
        ensures EntryBelow(claims, at, k, fields[k], includeUndefined) == EntryBelow(claims', at', k, fields[k], includeUndefined)
      {
        var segment, segment' := Spelling(claims, at, Key(k), includeUndefined), Spelling(claims', at', Key(k), includeUndefined);
        EntryAtField(claims, data, place, at, includeUndefined, k);
        EntryAtField(claims', data, place, at', includeUndefined, k);
        assert (place + [Key(k)])[..|place|] == place;
        AlikeEverywhere(claims, claims', place + [Key(k)], fields[k], includeUndefined);
        FollowedFurther(claims, [], place, Key(k), includeUndefined);
        FollowedFurther(claims', [], place, Key(k), includeUndefined);
        if segment.Some? && segment'.Some? {
          SameParse(claims, claims', fields[k], place + [Key(k)], at + [segment.value], at' + [segment'.value], includeUndefined);
        }
      }
      SameRecord(claims, claims', data, at, at', includeUndefined);
    case _ =>
  }

  lemma SameRecord(claims: seq<DisplayableClaim>, claims': seq<DisplayableClaim>, data: Json, at: Path, at': Path,
                   includeUndefined: bool)
    requires data.Obj?
    requires forall k :: k in data.fields ==>
               EntryBelow(claims, at, k, data.fields[k], includeUndefined) == EntryBelow(claims', at', k, data.fields[k], includeUndefined)
    ensures Localise(claims, data, at, includeUndefined) == Localise(claims', data, at', includeUndefined)
  {
    OnlyFieldsAppear(claims, data, at, includeUndefined);
    OnlyFieldsAppear(claims', data, at', includeUndefined);
    var out, out' := Localise(claims, data, at, includeUndefined), Localise(claims', data, at', includeUndefined);
    forall k | k in data.fields
      ensures FieldOf(out, k) == FieldOf(out', k)
    {
      FieldIsEntry(claims, data, at, includeUndefined, k);
      FieldIsEntry(claims', data, at', includeUndefined, k);
    }
    EqualRecords(out, out', data.fields.Keys);
  }

  function FieldOf(out: Parsed, key: string): Option<Entry> {
    if out.Record? && key in out.entries then Some(out.entries[key]) else None
  }

  lemma EqualRecords(out: Parsed, out': Parsed, keys: set<string>)
    requires out.Record? && out'.Record? && out.entries.Keys <= keys && out'.entries.Keys <= keys
    requires forall k :: k in keys ==> FieldOf(out, k) == FieldOf(out', k)
    ensures out == out'
  {
    forall k | k in keys
      ensures k in out.entries <==> k in out'.entries
      ensures k in out.entries && k in out'.entries ==> out.entries[k] == out'.entries[k]
    {
      assert FieldOf(out, k) == FieldOf(out', k);
    }
    assert out.entries == out'.entries;
  }

  /** The lists localise every credential alike. */
  ghost predicate ParsedAlike(claims: seq<DisplayableClaim>, claims': seq<DisplayableClaim>, includeUndefined: bool) {
    forall data :: Localise(claims, data, [], includeUndefined) == Localise(claims', data, [], includeUndefined)
  }

  /** The tree of a place shows whether the lists process it alike. */
  lemma AlikeAtPlace(claims: seq<DisplayableClaim>, claims': seq<DisplayableClaim>, path: Path, includeUndefined: bool)
    requires IsPlace(path) && EndsInKey(path) && ParsedAlike(claims, claims', includeUndefined)
    ensures AlikeAt(claims, claims', path, includeUndefined)
  {
    SameEntry(claims, claims', path, Null, includeUndefined);
    SameEntry(claims, claims', path, Arr([]), includeUndefined);
    FollowedIfParsed(claims, path, includeUndefined);
    FollowedIfParsed(claims', path, includeUndefined);
  }

  lemma SameEntry(claims: seq<DisplayableClaim>, claims': seq<DisplayableClaim>, path: Path, value: Json, includeUndefined: bool)
    requires IsPlace(path) && EndsInKey(path) && ParsedAlike(claims, claims', includeUndefined)
    ensures EntryOf(claims, [], path, value, includeUndefined) == EntryOf(claims', [], path, value, includeUndefined)
  {
    TreeEntry(claims, path, value, includeUndefined);
    TreeEntry(claims', path, value, includeUndefined);
    var tree := TreeOf(path, value);
    assert Localise(claims, tree, [], includeUndefined) == Localise(claims', tree, [], includeUndefined);
  }

  /** The code gets to a place exactly when it does not copy what is there. */
  lemma FollowedIfParsed(claims: seq<DisplayableClaim>, path: Path, includeUndefined: bool)
    requires IsPlace(path) && EndsInKey(path)
    ensures var entry := EntryOf(claims, [], path, Null, includeUndefined);
            Followed(claims, [], path, includeUndefined).Some? <==> entry.Some? && !entry.value.value.Verbatim?
  {
    var n := |path| - 1;
    assert path == path[..n] + [path[n]];
    FollowedFurther(claims, [], path[..n], path[n], includeUndefined);
  }

  /** Two claim lists localise every credential alike exactly if they process the
      places alike that their claims spell; so this says of every permutation of a
      list whether it changes anything. */
  lemma ParsedAlikeExactly(claims: seq<DisplayableClaim>, claims': seq<DisplayableClaim>, includeUndefined: bool)
    ensures ParsedAlike(claims, claims', includeUndefined) <==> Alike(claims, claims', includeUndefined)
  {
    if Alike(claims, claims', includeUndefined) {
      forall data
        ensures Localise(claims, data, [], includeUndefined) == Localise(claims', data, [], includeUndefined)
      {
        SameParse(claims, claims', data, [], [], [], includeUndefined);
      }
    }
    if ParsedAlike(claims, claims', includeUndefined) {
      forall c | c in claims + claims'
        ensures AlikeAlong(claims, claims', c.path, includeUndefined)
      {
        forall n | 0 < n <= |c.path| && !c.path[n - 1].Wildcard?
          ensures AlikeAt(claims, claims', AsKeys(c.path[..n]), includeUndefined)
        {
          KeysArePlace(c.path[..n]);
          AlikeAtPlace(claims, claims', AsKeys(c.path[..n]), includeUndefined);
        }
      }
    }
  }

  predicate DistinctPaths(claims: seq<DisplayableClaim>) {
    forall i, j :: 0 <= i < j < |claims| ==> claims[i].path != claims[j].path
  }

  /** No two paths go the same way at first and then on with a number and with the
      key that it spells. */
  predicate Unambiguous(claims: seq<DisplayableClaim>) {
    forall c, d | c in claims && d in claims :: PartByName(c.path, d.path)
  }

  predicate PartByName(path: Path, path': Path) {
    forall n | 0 < n <= |path| && n <= |path'| :: AsKeys(path[..n]) == AsKeys(path'[..n]) ==> path[..n] == path'[..n]
  }

  /** The lists hold the same claims. */
  ghost predicate SameClaims(claims: seq<DisplayableClaim>, claims': seq<DisplayableClaim>) {
    forall c :: c in claims <==> c in claims'
  }

  lemma SameSpelling(claims: seq<DisplayableClaim>, claims': seq<DisplayableClaim>, at: Path, step: Segment, includeUndefined: bool)
    requires SameClaims(claims, claims') && Unambiguous(claims)
    ensures Spelling(claims, at, step, includeUndefined) == Spelling(claims', at, step, includeUndefined)
  {
    forall s
      ensures s in DeclaredBelow(claims, at) <==> s in DeclaredBelow(claims', at)
    {
      DeclaredSegment(claims, at, s);
      DeclaredSegment(claims', at, s);
    }
    forall s, t | s in DeclaredBelow(claims, at) && t in DeclaredBelow(claims, at) && SegmentName(s) == SegmentName(t)
      ensures s == t
    {
      OneSpelling(claims, at, s, t);
    }
  }

  lemma OneSpelling(claims: seq<DisplayableClaim>, at: Path, s: Segment, t: Segment)
    requires Unambiguous(claims) && SegmentName(s) == SegmentName(t)
    requires s in DeclaredBelow(claims, at) && t in DeclaredBelow(claims, at)
    ensures s == t
  {
    var c :| c in claims && NextSegment(at, c) == Some(s);
    var d :| d in claims && NextSegment(at, d) == Some(t);
    assert PartByName(c.path, d.path);
    GoOnAlike(at, c.path, d.path);
  }

  lemma GoOnAlike(at: Path, path: Path, path': Path)
    requires PartByName(path, path') && at < path && at < path'
    requires AsKey(path[|at|]) == AsKey(path'[|at|])
    ensures path[|at|] == path'[|at|]
  {
    var n := |at| + 1;
    assert AsKeys(path[..n]) == AsKeys(path'[..n]);
    assert path[..n][|at|] == path'[..n][|at|];
  }

  lemma {:induction false} SameFollowed(claims: seq<DisplayableClaim>, claims': seq<DisplayableClaim>, at: Path, path: Path,
                                        includeUndefined: bool)
    requires SameClaims(claims, claims') && Unambiguous(claims)
    ensures Followed(claims, at, path, includeUndefined) == Followed(claims', at, path, includeUndefined)
    decreases |path|
  {
    if path != [] {
      SameSpelling(claims, claims', at, path[0], includeUndefined);
      var segment := Spelling(claims, at, path[0], includeUndefined);
      if segment.Some? {
        SameFollowed(claims, claims', at + [segment.value], path[1..], includeUndefined);
      }
    }
  }

  lemma SameNames(claims: seq<DisplayableClaim>, claims': seq<DisplayableClaim>, path: Path)
    requires SameClaims(claims, claims')
    requires DistinctPaths(claims) && DistinctPaths(claims')
    ensures DisplayNames(claims, path) == DisplayNames(claims', path)
  {
    FirstWithPath(claims, path);
    FirstWithPath(claims', path);
    if HasPath(claims, path) {
      var i :| 0 <= i < |claims| && claims[i].path == path && DisplayNames(claims, path) == Some(LabelMap(claims[i].display));
      var j :| 0 <= j < |claims'| && claims'[j].path == path && DisplayNames(claims', path) == Some(LabelMap(claims'[j].display));
      assert claims[i] in claims' && claims'[j] in claims';
    }
  }

  lemma SameNameOf(claims: seq<DisplayableClaim>, claims': seq<DisplayableClaim>, path: Path, key: string, value: Json)
    requires SameClaims(claims, claims')
    requires DistinctPaths(claims) && DistinctPaths(claims')
    ensures NameOf(claims, path, key, value) == NameOf(claims', path, key, value)
  {
    SameNames(claims, claims', path);
    SameNames(claims, claims', path + [Wildcard]);
  }

  lemma SameName(claims: seq<DisplayableClaim>, claims': seq<DisplayableClaim>, path: Path, value: Json, includeUndefined: bool)
    requires SameClaims(claims, claims')
    requires DistinctPaths(claims) && DistinctPaths(claims') && Unambiguous(claims) && IsPlace(path) && EndsInKey(path)
    ensures NameAt(claims, path, value, includeUndefined) == NameAt(claims', path, value, includeUndefined)
  {
    var n := |path| - 1;
    SameFollowed(claims, claims', [], path[..n], includeUndefined);
    var parent := Followed(claims, [], path[..n], includeUndefined);
    if parent.Some? {
      var key := SegmentName(path[n]);
      SameSpelling(claims, claims', parent.value, Key(key), includeUndefined);
      var segment := Spelling(claims, parent.value, Key(key), includeUndefined);
      if segment.Some? {
        SameNameOf(claims, claims', parent.value + [segment.value], key, value);
      }
    }
  }

  /** Claim order is irrelevant: permuting claims with pairwise distinct paths that
      are not ambiguous leaves the parsed credential unchanged. */
  lemma ClaimOrderIrrelevant(claims: seq<DisplayableClaim>, claims': seq<DisplayableClaim>, data: Json,
                             includeUndefined: bool)
    requires multiset(claims) == multiset(claims')
    requires DistinctPaths(claims) && Unambiguous(claims)
    ensures Localise(claims, data, [], includeUndefined) == Localise(claims', data, [], includeUndefined)
  {
    forall c
      ensures c in claims <==> c in claims'
    {
      assert c in multiset(claims) <==> c in multiset(claims');
    }
    assert SameClaims(claims, claims');
    PermutedDistinct(claims, claims');
    forall c | c in claims + claims'
      ensures AlikeAlong(claims, claims', c.path, includeUndefined)
    {
      PermutedAlike(claims, claims', c.path, includeUndefined);
    }
    ParsedAlikeExactly(claims, claims', includeUndefined);
  }

  lemma PermutedAlike(claims: seq<DisplayableClaim>, claims': seq<DisplayableClaim>, path: Path, includeUndefined: bool)
    requires SameClaims(claims, claims')
    requires DistinctPaths(claims) && DistinctPaths(claims') && Unambiguous(claims)
    ensures AlikeAlong(claims, claims', path, includeUndefined)
  {
    forall n | 0 < n <= |path| && !path[n - 1].Wildcard?
      ensures AlikeAt(claims, claims', AsKeys(path[..n]), includeUndefined)
    {
      var place := AsKeys(path[..n]);
      KeysArePlace(path[..n]);
      SameFollowed(claims, claims', [], place, includeUndefined);
      SameName(claims, claims', place, Null, includeUndefined);
      SameName(claims, claims', place, Arr([]), includeUndefined);
    }
  }

  /** With an ambiguous claim the order decides between two names. */
  lemma IndexOrderMatters(index: DisplayableClaim, key: DisplayableClaim)
    requires index.path == [Index(0)] && key.path == [Key("0")] && LabelMap(index.display) != LabelMap(key.display)
    ensures !ParsedAlike([index, key], [key, index], false)
  {
    assert Decimal(0) == "0";
    LaterNames(index, key, "0");
    LaterNames(key, index, "0");
    if ParsedAlike([index, key], [key, index], false) {
      AlikeAtPlace([index, key], [key, index], [Key("0")], false);
    }
  }

  lemma LaterNames(first: DisplayableClaim, second: DisplayableClaim, key: string)
    requires |first.path| == |second.path| == 1 && first.path != second.path
    requires !first.path[0].Wildcard? && !second.path[0].Wildcard?
    requires SegmentName(first.path[0]) == key && SegmentName(second.path[0]) == key
    ensures NameAt([first, second], [Key(key)], Null, false) == Some(Localised(LabelMap(second.display)))
  {
    LaterSpelling(first, second, first.path[0], second.path[0]);
    NameBySpelling([first, second], key, false);
    assert [first, second][1..] == [second];
    assert DisplayNames([second], second.path) == Some(LabelMap(second.display));
    assert DisplayNames([first, second], second.path) == Some(LabelMap(second.display));
    assert second.path == [second.path[0]];
  }

  /** Paths of strings and `null` are never ambiguous. */
  lemma NoIndicesUnambiguous(claims: seq<DisplayableClaim>)
    requires WithoutIndices(claims)
    ensures Unambiguous(claims)
  {
    forall c, d | c in claims && d in claims
      ensures PartByName(c.path, d.path)
    {
      forall n | 0 < n <= |c.path| && n <= |d.path| && AsKeys(c.path[..n]) == AsKeys(d.path[..n])
        ensures c.path[..n] == d.path[..n]
      {
        KeysOfPlace(c.path[..n]);
        KeysOfPlace(d.path[..n]);
      }
    }
  }

  lemma PermutedDistinct(claims: seq<DisplayableClaim>, claims': seq<DisplayableClaim>)
    requires multiset(claims) == multiset(claims') && DistinctPaths(claims)
    ensures DistinctPaths(claims')
  {
    forall i, j | 0 <= i < j < |claims'|
      ensures claims'[i].path != claims'[j].path
    {
      assert claims'[i] in multiset(claims) && claims'[j] in multiset(claims);
      if claims'[i] == claims'[j] {
        CountedTwice(claims', i, j);
        CountedOnce(claims, claims'[i]);
      } else {
        assert claims'[i] in claims && claims'[j] in claims;
      }
    }
  }

  lemma {:induction false} CountedOnce(claims: seq<DisplayableClaim>, claim: DisplayableClaim)
    requires DistinctPaths(claims)
    ensures multiset(claims)[claim] <= 1
  {
    if claims != [] {
      CountedOnce(claims[1..], claim);
      assert claims == [claims[0]] + claims[1..];
      assert claims[0] !in claims[1..];
    }
  }

  lemma CountedTwice(claims: seq<DisplayableClaim>, i: nat, j: nat)
    requires i < j < |claims| && claims[i] == claims[j]
    ensures multiset(claims)[claims[i]] >= 2
  {
    assert claims == claims[..i] + [claims[i]] + claims[i + 1..j] + [claims[j]] + claims[j + 1..];
  }
}
