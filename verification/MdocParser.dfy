/** Parsing an mdoc credential into the flat, localised table shown to the user,
    and looking up its `verification` claim. */
module MdocParser {
  import opened Wrappers
  import opened Json
  import opened IssuerConfig
  import opened Strings

  datatype Element = Element(identifier: string, value: string)

  /** The namespaces of the signed document, in enumeration order. */
  type Namespaces = seq<(string, seq<Element>)>

  datatype FlatElement = FlatElement(namespace: string, identifier: string, value: string)

  /** An attribute of the configuration: the first two segments of its path. */
  datatype Definition = Definition(namespace: Option<Segment>, attribute: Option<Segment>, display: seq<Label>)

  datatype Attribute = Attribute(name: Name, value: string)

  datatype MdocError = MissingConfiguration | MissingNamespaces | MissingAttributes(definitions: seq<Definition>)

  // ------------------------------------------------------------- the algorithm

  function ClaimKey(namespace: string, key: string): string {
    namespace + ":" + key
  }

  function DefinitionOf(claim: DisplayableClaim): Definition {
    Definition(if |claim.path| > 0 then Some(claim.path[0]) else None,
               if |claim.path| > 1 then Some(claim.path[1]) else None,
               claim.display)
  }

  function Definitions(claims: seq<DisplayableClaim>): (r: seq<Definition>)
    ensures |r| == |claims| && forall i :: 0 <= i < |r| ==> r[i] == DefinitionOf(claims[i])
  {
    seq(|claims|, i requires 0 <= i < |claims| => DefinitionOf(claims[i]))
  }

  function FlatNamespace(namespace: string, elements: seq<Element>): seq<FlatElement> {
    seq(|elements|, i requires 0 <= i < |elements| =>
      FlatElement(namespace, elements[i].identifier, elements[i].value))
  }

  function Flatten(namespaces: Namespaces): seq<FlatElement> {
    if namespaces == [] then []
    else FlatNamespace(namespaces[0].0, namespaces[0].1) + Flatten(namespaces[1..])
  }

  predicate Defines(d: Definition, e: FlatElement) {
    d.namespace == Some(Key(e.namespace)) && d.attribute == Some(Key(e.identifier))
  }

  /** The first element that a definition is for. */
  function FindElement(flat: seq<FlatElement>, d: Definition): (r: Option<FlatElement>)
    ensures r.Some? ==> r.value in flat && Defines(d, r.value)
    ensures r.None? ==> forall e :: e in flat ==> !Defines(d, e)
  {
    if flat == [] then None
    else
      assert forall e :: e in flat <==> e == flat[0] || e in flat[1..];
      if Defines(d, flat[0]) then Some(flat[0]) else FindElement(flat[1..], d)
  }

  /** The definitions without an element. */
  function NotInDisclosures(definitions: seq<Definition>, flat: seq<FlatElement>): (r: seq<Definition>)
    ensures forall d :: d in r <==> d in definitions && FindElement(flat, d).None?
  {
    if definitions == [] then []
    else
      assert forall d :: d in definitions <==> d == definitions[0] || d in definitions[1..];
      var rest := NotInDisclosures(definitions[1..], flat);
      if FindElement(flat, definitions[0]).None? then [definitions[0]] + rest else rest
  }

  /** The table of the defined attributes that are present; a later definition of
      the same attribute replaces the name. */
  function DefinedValues(definitions: seq<Definition>, flat: seq<FlatElement>): map<string, Attribute> {
    if definitions == [] then map[]
    else
      var n := |definitions| - 1;
      var acc := DefinedValues(definitions[..n], flat);
      match FindElement(flat, definitions[n])
      case None => acc
      case Some(e) =>
        acc[ClaimKey(e.namespace, e.identifier) := Attribute(Localised(LabelMap(definitions[n].display)), e.value)]
  }

  /** The table of all other elements, under their identifier. */
  function UndefinedValues(defined: map<string, Attribute>, flat: seq<FlatElement>): map<string, Attribute> {
    if flat == [] then map[]
    else
      var e := flat[|flat| - 1];
      var acc := UndefinedValues(defined, flat[..|flat| - 1]);
      if ClaimKey(e.namespace, e.identifier) in defined then acc
      else acc[ClaimKey(e.namespace, e.identifier) := Attribute(Plain(e.identifier), e.value)]
  }

  function ParseCredentialMDoc(claims: Option<seq<ClaimConfig>>, namespaces: Option<Namespaces>,
                               ignoreMissing: bool, includeUndefined: bool)
    : Result<map<string, Attribute>, MdocError>
  {
    if claims.None? then Failure(MissingConfiguration)
    else if namespaces.None? then Failure(MissingNamespaces)
    else
      var definitions := Definitions(Displayable(claims.value));
      var flat := Flatten(namespaces.value);
      var absent := NotInDisclosures(definitions, flat);
      if absent != [] && !ignoreMissing then Failure(MissingAttributes(absent))
      else
        var defined := DefinedValues(definitions, flat);
        Success(if includeUndefined then defined + UndefinedValues(defined, flat) else defined)
  }

  // ------------------------------------------------------------- specification

  predicate ColonFree(s: string) {
    ':' !in s
  }

  function KeyOf(e: FlatElement): string {
    ClaimKey(e.namespace, e.identifier)
  }

  /** No two different elements share a key. */
  predicate KeysTellApart(flat: seq<FlatElement>) {
    forall e | e in flat :: HasOwnKey(flat, e)
  }

  /** No other element has the same key. */
  predicate HasOwnKey(flat: seq<FlatElement>, e: FlatElement) {
    forall f | f in flat :: KeyOf(f) == KeyOf(e) ==> f == e
  }

  predicate UniquePairs(flat: seq<FlatElement>) {
    forall i, j :: 0 <= i < j < |flat| ==> flat[i].namespace != flat[j].namespace || flat[i].identifier != flat[j].identifier
  }

  /** The claim is displayable and its path starts with the element's namespace
      and identifier. */
  predicate Declares(c: ClaimConfig, e: FlatElement) {
    c.display.Some? && |c.path| >= 2 && c.path[0] == Key(e.namespace) && c.path[1] == Key(e.identifier)
  }

  /** The last claim that declares the element, which gives it its name. */
  function LastDeclaring(claims: seq<ClaimConfig>, e: FlatElement): (r: Option<ClaimConfig>)
    ensures r.Some? ==> exists i :: 0 <= i < |claims| && claims[i] == r.value && Declares(claims[i], e)
                                    && forall j :: i < j < |claims| ==> !Declares(claims[j], e)
    ensures r.None? ==> forall c :: c in claims ==> !Declares(c, e)
  {
    if claims == [] then None
    else
      var n := |claims| - 1;
      assert forall c :: c in claims <==> c in claims[..n] || c == claims[n];
      if Declares(claims[n], e) then Some(claims[n]) else LastDeclaring(claims[..n], e)
  }

  /** What the table holds for an element: the names of the last claim declaring
      it, or, if undeclared attributes are included, its identifier. */
  function Shown(claims: seq<ClaimConfig>, e: FlatElement, includeUndefined: bool): Option<Attribute> {
    match LastDeclaring(claims, e)
    case Some(c) => Some(Attribute(Localised(LabelMap(if c.display.Some? then c.display.value else [])), e.value))
    case None => if includeUndefined then Some(Attribute(Plain(e.identifier), e.value)) else None
  }

  /** The definition of an element that comes last. */
  function LastDefinition(definitions: seq<Definition>, e: FlatElement): Option<Definition> {
    if definitions == [] then None
    else
      var n := |definitions| - 1;
      if Defines(definitions[n], e) then Some(definitions[n]) else LastDefinition(definitions[..n], e)
  }

  /** What definitions make of an element. */
  function Defined(definitions: seq<Definition>, e: FlatElement, includeUndefined: bool): Option<Attribute> {
    match LastDefinition(definitions, e)
    case Some(d) => Some(Attribute(Localised(LabelMap(d.display)), e.value))
    case None => if includeUndefined then Some(Attribute(Plain(e.identifier), e.value)) else None
  }

  function Lookup(table: map<string, Attribute>, key: string): Option<Attribute> {
    if key in table then Some(table[key]) else None
  }

  // ------------------------------------------------------------------- proofs

  /** The flat list holds the elements of every namespace, and nothing else. */
  lemma {:induction false} FlatListIsComplete(namespaces: Namespaces, e: FlatElement)
    ensures e in Flatten(namespaces)
       <==> exists i :: 0 <= i < |namespaces| && namespaces[i].0 == e.namespace
                        && Element(e.identifier, e.value) in namespaces[i].1
  {
    if namespaces != [] {
      FlatListIsComplete(namespaces[1..], e);
      var (namespace, elements) := namespaces[0];
      var first := FlatNamespace(namespace, elements);
      if namespace == e.namespace && Element(e.identifier, e.value) in elements {
        var k :| 0 <= k < |elements| && elements[k] == Element(e.identifier, e.value);
        assert first[k] == e;
      }
      assert forall i :: 0 < i < |namespaces| ==> namespaces[i] == namespaces[1..][i - 1];
      if i :| 0 <= i < |namespaces[1..]| && namespaces[1..][i].0 == e.namespace
              && Element(e.identifier, e.value) in namespaces[1..][i].1 {
        assert namespaces[i + 1].0 == e.namespace;
      }
    }
  }

  /** And in their order. */
  lemma {:induction false} FlatListKeepsOrder(front: Namespaces, back: Namespaces)
    ensures Flatten(front + back) == Flatten(front) + Flatten(back)
  {
    if front == [] {
      assert front + back == back;
    } else {
      assert (front + back)[1..] == front[1..] + back;
      FlatListKeepsOrder(front[1..], back);
    }
  }

  /** Missing definitions are reported in the order of the configuration. */
  lemma {:induction false} MissingKeepOrder(front: seq<Definition>, back: seq<Definition>, flat: seq<FlatElement>)
    ensures NotInDisclosures(front + back, flat) == NotInDisclosures(front, flat) + NotInDisclosures(back, flat)
  {
    if front == [] {
      assert front + back == back;
    } else {
      assert (front + back)[1..] == front[1..] + back;
      MissingKeepOrder(front[1..], back, flat);
    }
  }

  /** With a colon-free namespace the key determines namespace and identifier. */
  lemma KeysAreInjective(a: string, x: string, b: string, y: string)
    requires ColonFree(a) && ColonFree(b) && ClaimKey(a, x) == ClaimKey(b, y)
    ensures a == b && x == y
  {
    var key := ClaimKey(a, x);
    assert key == a + [':'] + x && key == b + [':'] + y;
    FirstSeparator(a, ':', x);
    FirstSeparator(b, ':', y);
    assert a == key[..|a|] && b == key[..|b|];
    assert x == key[|a| + 1..] && y == key[|b| + 1..];
  }

  /** So colon-free namespaces and unique pairs keep elements apart. */
  lemma ColonFreeKeysTellApart(flat: seq<FlatElement>)
    requires UniquePairs(flat) && forall e :: e in flat ==> ColonFree(e.namespace)
    ensures KeysTellApart(flat)
  {
    forall e, f | e in flat && f in flat && KeyOf(e) == KeyOf(f)
      ensures e == f
    {
      KeysAreInjective(e.namespace, e.identifier, f.namespace, f.identifier);
      var i :| 0 <= i < |flat| && flat[i] == e;
      var j :| 0 <= j < |flat| && flat[j] == f;
    }
  }

  lemma FoundIsTheElement(flat: seq<FlatElement>, d: Definition, e: FlatElement)
    requires HasOwnKey(flat, e) && e in flat && Defines(d, e)
    ensures FindElement(flat, d) == Some(e)
  {
    assert KeyOf(FindElement(flat, d).value) == KeyOf(e);
  }

  lemma {:induction false} DefinedTable(definitions: seq<Definition>, flat: seq<FlatElement>, e: FlatElement)
    requires HasOwnKey(flat, e) && e in flat
    ensures Lookup(DefinedValues(definitions, flat), KeyOf(e)) == Defined(definitions, e, false)
  {
    if definitions != [] {
      var n := |definitions| - 1;
      DefinedTable(definitions[..n], flat, e);
      var found := FindElement(flat, definitions[n]);
      if Defines(definitions[n], e) {
        FoundIsTheElement(flat, definitions[n], e);
      } else if found.Some? {
        assert KeyOf(found.value) != KeyOf(e);
      }
    }
  }

  lemma {:induction false} FirstDefinedElement(flat: seq<FlatElement>, d: Definition, i: nat)
    requires i < |flat| && Defines(d, flat[i]) && forall j :: 0 <= j < i ==> !Defines(d, flat[j])
    ensures FindElement(flat, d) == Some(flat[i])
    decreases i
  {
    if i > 0 {
      FirstDefinedElement(flat[1..], d, i - 1);
    }
  }

  /** Even when keys collide: a key has the names and the value of the last
      definition that finds an element with it, the first it is for. */
  lemma {:induction false} LastDefinedWins(definitions: seq<Definition>, flat: seq<FlatElement>, key: string, i: nat)
    requires i < |definitions| && FindElement(flat, definitions[i]).Some? && KeyOf(FindElement(flat, definitions[i]).value) == key
    requires forall j :: i < j < |definitions| && FindElement(flat, definitions[j]).Some? ==>
               KeyOf(FindElement(flat, definitions[j]).value) != key
    ensures Lookup(DefinedValues(definitions, flat), key)
         == Some(Attribute(Localised(LabelMap(definitions[i].display)), FindElement(flat, definitions[i]).value.value))
    decreases |definitions|
  {
    var n := |definitions| - 1;
    if i < n {
      LastDefinedWins(definitions[..n], flat, key, i);
    }
  }

  /** And among undeclared elements the last one with a key. */
  lemma {:induction false} LastUndefinedWins(defined: map<string, Attribute>, flat: seq<FlatElement>, i: nat)
    requires i < |flat| && KeyOf(flat[i]) !in defined
    requires forall j :: i < j < |flat| ==> KeyOf(flat[j]) != KeyOf(flat[i])
    ensures Lookup(UndefinedValues(defined, flat), KeyOf(flat[i])) == Some(Attribute(Plain(flat[i].identifier), flat[i].value))
    decreases |flat|
  {
    var n := |flat| - 1;
    if i < n {
      LastUndefinedWins(defined, flat[..n], i);
    }
  }

  lemma {:induction false} DefinedKeys(definitions: seq<Definition>, flat: seq<FlatElement>, key: string)
    ensures key in DefinedValues(definitions, flat) ==> exists e :: e in flat && KeyOf(e) == key
  {
    if definitions != [] {
      DefinedKeys(definitions[..|definitions| - 1], flat, key);
    }
  }

  lemma {:induction false} UndefinedTable(defined: map<string, Attribute>, flat: seq<FlatElement>, e: FlatElement)
    requires HasOwnKey(flat, e) && e in flat
    ensures Lookup(UndefinedValues(defined, flat), KeyOf(e))
         == if KeyOf(e) in defined then None else Some(Attribute(Plain(e.identifier), e.value))
    decreases |flat|
  {
    var n := |flat| - 1;
    assert flat == flat[..n] + [flat[n]];
    if e != flat[n] {
      assert flat[n] in flat && KeyOf(e) != KeyOf(flat[n]);
      UndefinedTable(defined, flat[..n], e);
    } else if KeyOf(e) in defined {
      UndefinedKeys(defined, flat[..n], KeyOf(e));
    }
  }

  lemma {:induction false} UndefinedKeys(defined: map<string, Attribute>, flat: seq<FlatElement>, key: string)
    ensures key in UndefinedValues(defined, flat) ==> key !in defined && exists e :: e in flat && KeyOf(e) == key
  {
    if flat != [] {
      var n := |flat| - 1;
      UndefinedKeys(defined, flat[..n], key);
      assert forall e :: e in flat[..n] ==> e in flat;
      assert flat[n] in flat;
    }
  }

  /** Every element has its place in the parsed table: one declared by a
      displayable attribute has that attribute's names and its own value, every
      other one is under its identifier exactly when undeclared attributes are
      included. */
  ghost predicate ShowsEach(claims: seq<ClaimConfig>, namespaces: Namespaces, ignoreMissing: bool, includeUndefined: bool) {
    var r := ParseCredentialMDoc(Some(claims), Some(namespaces), ignoreMissing, includeUndefined);
    r.Success? ==> forall e :: e in Flatten(namespaces) ==>
      Lookup(r.value, KeyOf(e)) == Shown(claims, e, includeUndefined)
  }

  /** There is an element for every displayable claim. */
  ghost predicate AllPresent(claims: seq<ClaimConfig>, flat: seq<FlatElement>) {
    forall c :: c in claims && c.display.Some? ==> IsPresent(c, flat)
  }

  ghost predicate IsPresent(c: ClaimConfig, flat: seq<FlatElement>) {
    exists e :: e in flat && Declares(c, e)
  }

  /** The table holds nothing but elements, under their keys. */
  ghost predicate ShowsOnlyElements(claims: seq<ClaimConfig>, namespaces: Namespaces, ignoreMissing: bool,
                                    includeUndefined: bool) {
    var r := ParseCredentialMDoc(Some(claims), Some(namespaces), ignoreMissing, includeUndefined);
    r.Success? ==> forall key :: key in r.value ==> exists e :: e in Flatten(namespaces) && KeyOf(e) == key
  }

  /** Parsing is complete and partitioned. It fails exactly when a displayable
      attribute is absent and not to be ignored, and the table holds nothing but
      elements. When no two different elements share a key, every element has its
      place. */
  lemma ParsingIsAPartition(claims: seq<ClaimConfig>, namespaces: Namespaces, ignoreMissing: bool, includeUndefined: bool)
    ensures ParseCredentialMDoc(Some(claims), Some(namespaces), ignoreMissing, includeUndefined).Success?
       <==> ignoreMissing || AllPresent(claims, Flatten(namespaces))
    ensures ShowsOnlyElements(claims, namespaces, ignoreMissing, includeUndefined)
    ensures KeysTellApart(Flatten(namespaces)) ==> ShowsEach(claims, namespaces, ignoreMissing, includeUndefined)
  {
    AbsentClaims(claims, Flatten(namespaces));
    OnlyElementsShown(claims, namespaces, ignoreMissing, includeUndefined);
    if KeysTellApart(Flatten(namespaces)) {
      forall e | e in Flatten(namespaces)
        ensures var r := ParseCredentialMDoc(Some(claims), Some(namespaces), ignoreMissing, includeUndefined);
                r.Success? ==> Lookup(r.value, KeyOf(e)) == Shown(claims, e, includeUndefined)
      {
        ElementShown(claims, namespaces, ignoreMissing, includeUndefined, e);
      }
    }
  }

  lemma ElementShown(claims: seq<ClaimConfig>, namespaces: Namespaces, ignoreMissing: bool, includeUndefined: bool,
                     e: FlatElement)
    requires e in Flatten(namespaces) && HasOwnKey(Flatten(namespaces), e)
    ensures var r := ParseCredentialMDoc(Some(claims), Some(namespaces), ignoreMissing, includeUndefined);
            r.Success? ==> Lookup(r.value, KeyOf(e)) == Shown(claims, e, includeUndefined)
  {
    LastDeclarationDefines(claims, e);
    var definitions := Definitions(Displayable(claims));
    var flat := Flatten(namespaces);
    DefinedTable(definitions, flat, e);
    UndefinedTable(DefinedValues(definitions, flat), flat, e);
  }

  lemma OnlyElementsShown(claims: seq<ClaimConfig>, namespaces: Namespaces, ignoreMissing: bool, includeUndefined: bool)
    ensures ShowsOnlyElements(claims, namespaces, ignoreMissing, includeUndefined)
  {
    var definitions := Definitions(Displayable(claims));
    var flat := Flatten(namespaces);
    var defined := DefinedValues(definitions, flat);
    forall key | key in defined || key in UndefinedValues(defined, flat)
      ensures exists e :: e in flat && KeyOf(e) == key
    {
      DefinedKeys(definitions, flat, key);
      UndefinedKeys(defined, flat, key);
    }
  }

  /** And only then: a document shows each of its elements, whatever the
      configuration, exactly when no two different ones share a key. */
  lemma ShownWhenToldApart(namespaces: Namespaces)
    ensures (forall claims, ignoreMissing, includeUndefined ::
               ShowsEach(claims, namespaces, ignoreMissing, includeUndefined))
       <==> KeysTellApart(Flatten(namespaces))
  {
    if KeysTellApart(Flatten(namespaces)) {
      forall claims, ignoreMissing, includeUndefined
        ensures ShowsEach(claims, namespaces, ignoreMissing, includeUndefined)
      {
        ParsingIsAPartition(claims, namespaces, ignoreMissing, includeUndefined);
      }
    }
    if ShowsEach([], namespaces, true, true) {
      forall e, f | e in Flatten(namespaces) && f in Flatten(namespaces) && KeyOf(e) == KeyOf(f)
        ensures e == f
      {
        SameKeyShownAlike(e, f);
      }
    }
  }

  /** Undeclared elements with the same key, shown alike, are the same. */
  lemma SameKeyShownAlike(e: FlatElement, f: FlatElement)
    requires KeyOf(e) == KeyOf(f) && Shown([], e, true) == Shown([], f, true)
    ensures e == f
  {
    var key, n := KeyOf(e), |KeyOf(e)| - |e.identifier| - 1;
    assert e.namespace == key[..n] && f.namespace == key[..n];
  }

  /** A displayable claim and its definition are for the same elements. */
  lemma SameElements(c: ClaimConfig, e: FlatElement)
    requires c.display.Some?
    ensures Defines(DefinitionOf(DisplayableClaim(c.path, c.display.value)), e) <==> Declares(c, e)
  {
  }

  lemma OneMoreClaim(front: seq<ClaimConfig>, c: ClaimConfig)
    ensures Definitions(Displayable(front + [c]))
         == Definitions(Displayable(front))
            + if c.display.Some? then [DefinitionOf(DisplayableClaim(c.path, c.display.value))] else []
  {
    DisplayableKeepsOrder(front, [c]);
    assert [c][1..] == [];
  }

  lemma LastAppended(definitions: seq<Definition>, d: Definition, e: FlatElement)
    ensures LastDefinition(definitions + [d], e) == if Defines(d, e) then Some(d) else LastDefinition(definitions, e)
    ensures LastDefinition(definitions + [], e) == LastDefinition(definitions, e)
  {
    assert (definitions + [d])[..|definitions|] == definitions && definitions + [] == definitions;
  }

  /** Taking the last of the definitions is taking the last declaring claim. */
  lemma {:induction false} LastDeclarationDefines(claims: seq<ClaimConfig>, e: FlatElement)
    ensures LastDefinition(Definitions(Displayable(claims)), e)
         == match LastDeclaring(claims, e)
            case None => None
            case Some(c) => if c.display.Some? then Some(DefinitionOf(DisplayableClaim(c.path, c.display.value))) else None
  {
    if claims != [] {
      var front, c := claims[..|claims| - 1], claims[|claims| - 1];
      assert claims == front + [c];
      LastDeclarationDefines(front, e);
      OneMoreClaim(front, c);
      var display := if c.display.Some? then c.display.value else [];
      LastAppended(Definitions(Displayable(front)), DefinitionOf(DisplayableClaim(c.path, display)), e);
      if c.display.Some? {
        SameElements(c, e);
      }
    }
  }

  /** The definitions reported missing are those of the displayable claims without
      an element: namespace, identifier and display as in the claim. */
  lemma AbsentClaims(claims: seq<ClaimConfig>, flat: seq<FlatElement>)
    ensures forall d :: d in NotInDisclosures(Definitions(Displayable(claims)), flat) <==>
              exists c :: c in claims && c.display.Some? && !IsPresent(c, flat)
                          && d == DefinitionOf(DisplayableClaim(c.path, c.display.value))
    ensures NotInDisclosures(Definitions(Displayable(claims)), flat) == [] <==> AllPresent(claims, flat)
  {
    var displayable := Displayable(claims);
    var definitions := Definitions(displayable);
    var absent := NotInDisclosures(definitions, flat);
    forall c | c in claims && c.display.Some?
      ensures DefinitionOf(DisplayableClaim(c.path, c.display.value)) in definitions
      ensures DefinitionOf(DisplayableClaim(c.path, c.display.value)) in absent <==> !IsPresent(c, flat)
    {
      DefinitionPresent(claims, c, flat);
    }
    forall d | d in definitions
      ensures exists c :: c in claims && c.display.Some? && d == DefinitionOf(DisplayableClaim(c.path, c.display.value))
    {
      var i :| 0 <= i < |definitions| && definitions[i] == d;
      var c := ClaimConfig(displayable[i].path, Some(displayable[i].display));
      assert displayable[i] in displayable;
      assert c in claims && d == DefinitionOf(DisplayableClaim(c.path, c.display.value));
    }
    if absent != [] {
      assert absent[0] in absent;
    }
  }

  lemma DefinitionPresent(claims: seq<ClaimConfig>, c: ClaimConfig, flat: seq<FlatElement>)
    requires c in claims && c.display.Some?
    ensures var d := DefinitionOf(DisplayableClaim(c.path, c.display.value));
            && d in Definitions(Displayable(claims))
            && (FindElement(flat, d).None? <==> !IsPresent(c, flat))
  {
    var displayable := Displayable(claims);
    assert DisplayableClaim(c.path, c.display.value) in displayable;
    var i :| 0 <= i < |displayable| && displayable[i] == DisplayableClaim(c.path, c.display.value);
    var d := Definitions(displayable)[i];
    forall e
      ensures Defines(d, e) <==> Declares(c, e)
    {
      SameElements(c, e);
    }
    assert IsPresent(c, flat) <==> exists e :: e in flat && Defines(d, e);
  }

  /** The first and second segment of a claim's path are what it is defined for. */
  lemma DefinedSegments(path: Path, display: seq<Label>)
    requires |path| >= 2
    ensures DefinitionOf(DisplayableClaim(path, display)) == Definition(Some(path[0]), Some(path[1]), display)
  {
  }

  /** Parsing throws without a configuration, without namespaces, or with the list
      of missing attributes. */
  lemma ParsingErrors(claims: Option<seq<ClaimConfig>>, namespaces: Option<Namespaces>, ignoreMissing: bool, includeUndefined: bool)
    ensures var r := ParseCredentialMDoc(claims, namespaces, ignoreMissing, includeUndefined);
            && (r == Failure(MissingConfiguration) <==> claims.None?)
            && (r == Failure(MissingNamespaces) <==> claims.Some? && namespaces.None?)
            && (claims.Some? && namespaces.Some? && r.Failure? ==>
                  r.error == MissingAttributes(NotInDisclosures(Definitions(Displayable(claims.value)), Flatten(namespaces.value))))
  {
  }

  /** Colons in namespaces can make distinct elements collide, and then one of
      them is not shown. */
  lemma ColonsCollide(v: string, w: string)
    requires v != w
    ensures !KeysTellApart(Flatten([("a:b", [Element("c", v)]), ("a", [Element("b:c", w)])]))
  {
    var namespaces := [("a:b", [Element("c", v)]), ("a", [Element("b:c", w)])];
    var e, f := FlatElement("a:b", "c", v), FlatElement("a", "b:c", w);
    FlatListIsComplete(namespaces, e);
    FlatListIsComplete(namespaces, f);
    assert namespaces[0].1[0] == Element("c", v) && namespaces[1].1[0] == Element("b:c", w);
    assert KeyOf(e) == KeyOf(f) == "a:b:c";
  }

  // ------------------------------------------------------------- verification

  const VERIFICATION := "verification"

  /** The value of the first listed key that ends in `verification`, unless it is
      empty. The keys are those of the parsed credential, in any order. */
  function VerificationFromParsed(parsed: map<string, Attribute>, keys: seq<string>): Option<string>
    requires forall k :: k in keys ==> k in parsed
  {
    if keys == [] then None
    else if EndsWith(keys[0], VERIFICATION) then
      if parsed[keys[0]].value == "" then None else Some(parsed[keys[0]].value)
    else VerificationFromParsed(parsed, keys[1..])
  }

  /** The value of the first element named `verification`, unless it is empty. */
  function Verification(flat: seq<FlatElement>): Option<string> {
    if flat == [] then None
    else if flat[0].identifier == VERIFICATION then
      if flat[0].value == "" then None else Some(flat[0].value)
    else Verification(flat[1..])
  }

  lemma KeyEndsWithIdentifier(e: FlatElement)
    ensures EndsWith(KeyOf(e), VERIFICATION) <==> EndsWith(e.identifier, VERIFICATION)
  {
    var key := KeyOf(e);
    var n := |VERIFICATION|;
    if |e.identifier| >= n {
      assert key[|key| - n..] == e.identifier[|e.identifier| - n..];
    } else if |key| >= n {
      assert key[|key| - n..][n - |e.identifier| - 1] == ':';
      assert forall i :: 0 <= i < n ==> VERIFICATION[i] != ':';
    }
  }

  /** The first of the keys with the suffix decides. */
  lemma {:induction false} FirstKeyFound(parsed: map<string, Attribute>, keys: seq<string>, i: nat)
    requires forall k :: k in keys ==> k in parsed
    requires i < |keys| && EndsWith(keys[i], VERIFICATION)
    requires forall j :: 0 <= j < i ==> !EndsWith(keys[j], VERIFICATION)
    ensures VerificationFromParsed(parsed, keys)
         == if parsed[keys[i]].value == "" then None else Some(parsed[keys[i]].value)
    decreases i
  {
    if i > 0 {
      FirstKeyFound(parsed, keys[1..], i - 1);
    }
  }

  lemma {:induction false} OnlyKeyFound(parsed: map<string, Attribute>, keys: seq<string>, key: string)
    requires forall k :: k in keys ==> k in parsed
    requires key in keys && EndsWith(key, VERIFICATION)
    requires forall k :: k in keys && EndsWith(k, VERIFICATION) ==> k == key
    ensures VerificationFromParsed(parsed, keys) == if parsed[key].value == "" then None else Some(parsed[key].value)
  {
    if !EndsWith(keys[0], VERIFICATION) {
      OnlyKeyFound(parsed, keys[1..], key);
    }
  }

  /** The first of the elements with the name decides. */
  lemma {:induction false} FirstElementFound(flat: seq<FlatElement>, i: nat)
    requires i < |flat| && flat[i].identifier == VERIFICATION
    requires forall j :: 0 <= j < i ==> flat[j].identifier != VERIFICATION
    ensures Verification(flat) == if flat[i].value == "" then None else Some(flat[i].value)
    decreases i
  {
    if i > 0 {
      FirstElementFound(flat[1..], i - 1);
    }
  }

  lemma {:induction false} OnlyElementFound(flat: seq<FlatElement>, e: FlatElement)
    requires e in flat
    requires forall f :: f in flat && EndsWith(f.identifier, VERIFICATION) ==> f == e
    ensures e.identifier == VERIFICATION ==> Verification(flat) == if e.value == "" then None else Some(e.value)
    ensures e.identifier != VERIFICATION ==> Verification(flat) == None
  {
    assert EndsWith(VERIFICATION, VERIFICATION);
    assert forall f :: f in flat && f.identifier == VERIFICATION ==> f == e;
    FirstNamedVerification(flat, e);
  }

  lemma {:induction false} FirstNamedVerification(flat: seq<FlatElement>, e: FlatElement)
    requires forall f :: f in flat && f.identifier == VERIFICATION ==> f == e
    ensures e in flat && e.identifier == VERIFICATION ==>
              Verification(flat) == if e.value == "" then None else Some(e.value)
    ensures e.identifier != VERIFICATION ==> Verification(flat) == None
  {
    if flat != [] && flat[0].identifier != VERIFICATION {
      FirstNamedVerification(flat[1..], e);
    }
  }

  lemma {:induction false} NoKeyFound(parsed: map<string, Attribute>, keys: seq<string>)
    requires forall k :: k in keys ==> k in parsed && !EndsWith(k, VERIFICATION)
    ensures VerificationFromParsed(parsed, keys) == None
  {
    if keys != [] {
      NoKeyFound(parsed, keys[1..]);
    }
  }

  lemma ShownWhenDeclared(claims: seq<ClaimConfig>, e: FlatElement, includeUndefined: bool)
    ensures Shown(claims, e, includeUndefined).Some? <==> includeUndefined || exists c :: c in claims && Declares(c, e)
    ensures Shown(claims, e, includeUndefined).Some? ==> Shown(claims, e, includeUndefined).value.value == e.value
  {
  }

  /** The lookup on a table whose keys are those of elements finds the only element
      with the suffix. */
  lemma ParsedLookup(parsed: map<string, Attribute>, flat: seq<FlatElement>, e: FlatElement, keys: seq<string>)
    requires e in flat && EndsWith(e.identifier, VERIFICATION)
    requires forall f :: f in flat && EndsWith(f.identifier, VERIFICATION) ==> f == e
    requires forall key :: key in parsed ==> exists f :: f in flat && KeyOf(f) == key
    requires forall k :: k in keys <==> k in parsed
    ensures VerificationFromParsed(parsed, keys)
         == match Lookup(parsed, KeyOf(e))
            case None => None
            case Some(attribute) => if attribute.value == "" then None else Some(attribute.value)
  {
    KeyEndsWithIdentifier(e);
    forall k | k in keys && EndsWith(k, VERIFICATION)
      ensures k == KeyOf(e)
    {
      var f :| f in flat && KeyOf(f) == k;
      KeyEndsWithIdentifier(f);
    }
    if KeyOf(e) in keys {
      OnlyKeyFound(parsed, keys, KeyOf(e));
    } else {
      NoKeyFound(parsed, keys);
    }
  }

  /** When only one element's identifier ends in `verification`, the lookup on the
      parsed credential, whatever the order of its keys, and the lookup on the
      signed document agree exactly when its value is empty, or that identifier is
      `verification` itself and shown, or neither. */
  lemma LookupsAgree(claims: seq<ClaimConfig>, namespaces: Namespaces, ignoreMissing: bool, includeUndefined: bool,
                     e: FlatElement, keys: seq<string>)
    requires e in Flatten(namespaces)
    requires EndsWith(e.identifier, VERIFICATION)
    requires forall f :: f in Flatten(namespaces) && EndsWith(f.identifier, VERIFICATION) ==> f == e
    requires ParseCredentialMDoc(Some(claims), Some(namespaces), ignoreMissing, includeUndefined).Success?
    requires forall k :: k in keys <==>
               k in ParseCredentialMDoc(Some(claims), Some(namespaces), ignoreMissing, includeUndefined).value
    ensures VerificationFromParsed(ParseCredentialMDoc(Some(claims), Some(namespaces), ignoreMissing, includeUndefined).value, keys)
         == Verification(Flatten(namespaces))
       <==> e.value == "" ||
            (e.identifier == VERIFICATION <==> includeUndefined || exists c :: c in claims && Declares(c, e))
  {
    var parsed := ParseCredentialMDoc(Some(claims), Some(namespaces), ignoreMissing, includeUndefined).value;
    KeyEndsWithIdentifier(e);
    forall f | f in Flatten(namespaces) && KeyOf(f) == KeyOf(e)
      ensures f == e
    {
      KeyEndsWithIdentifier(f);
    }
    ElementShown(claims, namespaces, ignoreMissing, includeUndefined, e);
    OnlyElementsShown(claims, namespaces, ignoreMissing, includeUndefined);
    ParsedLookup(parsed, Flatten(namespaces), e, keys);
    OnlyElementFound(Flatten(namespaces), e);
    ShownWhenDeclared(claims, e, includeUndefined);
  }

  /** The parsed credential hides a `verification` element without a display while
      undeclared attributes are left out; the signed document still answers. */
  lemma HiddenVerification(v: string, ignoreMissing: bool)
    requires v != ""
    ensures var claims := [ClaimConfig([Key("ns"), Key(VERIFICATION)], None)];
            var namespaces := [("ns", [Element(VERIFICATION, v)])];
            && ParseCredentialMDoc(Some(claims), Some(namespaces), ignoreMissing, false) == Success(map[])
            && VerificationFromParsed(map[], []) == None
            && Verification(Flatten(namespaces)) == Some(v)
  {
    OneElement(VERIFICATION, v);
    assert Displayable([ClaimConfig([Key("ns"), Key(VERIFICATION)], None)]) == [];
  }

  /** And the lookup by suffix takes another element for it. */
  lemma SuffixTaken(v: string, ignoreMissing: bool)
    requires v != ""
    ensures var namespaces := [("ns", [Element("my_verification", v)])];
            var r := ParseCredentialMDoc(Some([]), Some(namespaces), ignoreMissing, true);
            && r.Success? && r.value.Keys == {"ns:my_verification"}
            && VerificationFromParsed(r.value, ["ns:my_verification"]) == Some(v)
            && Verification(Flatten(namespaces)) == None
  {
    OneElement("my_verification", v);
    var e := FlatElement("ns", "my_verification", v);
    var key := "ns:my_verification";
    assert KeyOf(e) == key && [e][..0] == [];
    assert UndefinedValues(map[], [e]) == map[key := Attribute(Plain(e.identifier), v)];
    assert Definitions(Displayable([])) == [] && NotInDisclosures([], [e]) == [];
    assert "ns:my_verification"[|"ns:my_verification"| - |VERIFICATION|..] == VERIFICATION;
  }

  lemma OneElement(identifier: string, v: string)
    ensures Flatten([("ns", [Element(identifier, v)])]) == [FlatElement("ns", identifier, v)]
  {
    var namespaces := [("ns", [Element(identifier, v)])];
    assert namespaces[1..] == [];
    assert FlatNamespace("ns", namespaces[0].1) == [FlatElement("ns", identifier, v)];
  }
}
