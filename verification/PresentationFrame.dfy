/** Compiling claim paths to disclosure frames (section 7 of OpenID for
    Verifiable Presentations 1.0). */
module PresentationFrame {
  import opened Wrappers
  import opened Json
  import opened Decimals

  /** A disclosure frame: everything from here down, or a choice of children. */
  datatype Frame = All | Node(children: map<string, Frame>)

  /** `Object.values` of `null`, which throws. */
  datatype NotAnObject = NotAnObject

  /** The first of a value's `Object.values`, if there is one. */
  function FirstValue(claim: Json): Result<Option<Json>, NotAnObject> {
    match claim
    case Null => Failure(NotAnObject)
    case Bool(_) => Success(None)
    case Num(_) => Success(None)
    case Str(s) => Success(if s == "" then None else Some(Str(s[..1])))
    case Arr(items) => Success(if items == [] then None else Some(items[0]))
    case Obj(keys, fields) => Success(if keys != [] && keys[0] in fields then Some(fields[keys[0]]) else None)
  }

  /** The frames of an array's elements, under their indices. */
  function IndexFrames(frames: seq<Frame>): map<string, Frame> {
    KeyedFrames(IndexNames(|frames|), frames)
  }

  function IndexNames(n: nat): (names: seq<string>)
    ensures |names| == n && forall i :: 0 <= i < n ==> names[i] == Decimal(i)
  {
    seq(n, i requires 0 <= i < n => Decimal(i))
  }

  function KeyedFrames(names: seq<string>, frames: seq<Frame>): map<string, Frame>
    requires |names| == |frames|
  {
    if frames == [] then map[]
    else
      var n := |frames| - 1;
      KeyedFrames(names[..n], frames[..n])[names[n] := frames[n]]
  }

  lemma {:induction false} KeyedFramesAt(names: seq<string>, frames: seq<Frame>)
    requires |names| == |frames|
    requires forall i, j :: 0 <= i < j < |names| ==> names[i] != names[j]
    ensures forall k :: k in KeyedFrames(names, frames) <==> k in names
    ensures forall i :: 0 <= i < |names| ==>
              names[i] in KeyedFrames(names, frames) && KeyedFrames(names, frames)[names[i]] == frames[i]
  {
    if frames != [] {
      var n := |frames| - 1;
      KeyedFramesAt(names[..n], frames[..n]);
      assert names == names[..n] + [names[n]];
    }
  }

  lemma DistinctIndexNames(n: nat)
    ensures forall i, j :: 0 <= i < j < n ==> IndexNames(n)[i] != IndexNames(n)[j]
  {
    forall i, j | 0 <= i < j < n
      ensures IndexNames(n)[i] != IndexNames(n)[j]
    {
      if Decimal(i) == Decimal(j) {
        DistinctNumerals(i, j);
      }
    }
  }

  /** Compiles a claim path. A key leads to a one-child frame without descending
      into the claim; a `null` takes the claim's first value, fans out over it if
      it is an array, and otherwise closes the frame. */
  function PathToFrame(path: Path, claim: Json): Result<Frame, NotAnObject>
    decreases |path|
  {
    if path == [] then
      Success(All)
    else if path[0].Wildcard? then
      var first :- FirstValue(claim);
      if first.Some? && first.value.Arr? then
        var frames :- MapAll(first.value.items, (item: Json) => PathToFrame(path[1..], item));
        Success(Node(IndexFrames(frames)))
      else
        Success(All)
    else
      var rest :- PathToFrame(path[1..], claim);
      Success(Node(map[SegmentName(path[0]) := rest]))
  }

  // ------------------------------------------------------------- specification

  /** The frame discloses everything at and below the position. */
  ghost predicate Covers(frame: Frame, position: seq<string>)
    decreases |position|
  {
    frame.All? || (position != [] && position[0] in frame.children && Covers(frame.children[position[0]], position[1..]))
  }

  /** The position is one of the frame's topmost disclosed positions. */
  ghost predicate Discloses(frame: Frame, position: seq<string>)
    decreases |position|
  {
    if position == [] then frame.All?
    else frame.Node? && position[0] in frame.children && Discloses(frame.children[position[0]], position[1..])
  }

  /** The claims path pointer selects the position: a key selects in an object, a
      number an element of an array, `null` every element. */
  ghost predicate Selects(path: Path, claim: Json, position: seq<string>)
    decreases |path|
  {
    if path == [] then position == []
    else
      position != [] &&
      match path[0]
      case Key(k) =>
        claim.Obj? && k in claim.fields && position[0] == k && Selects(path[1..], claim.fields[k], position[1..])
      case Index(n) =>
        claim.Arr? && 0 <= n < |claim.items| && position[0] == Decimal(n) && Selects(path[1..], claim.items[n], position[1..])
      case Wildcard =>
        claim.Arr? && exists i :: 0 <= i < |claim.items| && position[0] == Decimal(i)
                                  && Selects(path[1..], claim.items[i], position[1..])
  }

  /** The path starts with a key and a `null`. */
  predicate Fans(path: Path) {
    |path| >= 2 && path[0].Key? && path[1].Wildcard?
  }

  /** Paths of the form (key null)^n followed by keys and numbers. */
  ghost predicate Compilable(path: Path)
    decreases |path|
  {
    if Fans(path) then Compilable(path[2..]) else forall i :: 0 <= i < |path| ==> !path[i].Wildcard?
  }

  /** A path of keys and numbers leads somewhere in the claim. */
  ghost predicate Resolves(path: Path, claim: Json)
    decreases |path|
  {
    path == [] ||
    match path[0]
    case Key(k) => claim.Obj? && k in claim.fields && Resolves(path[1..], claim.fields[k])
    case Index(n) => claim.Arr? && 0 <= n < |claim.items| && Resolves(path[1..], claim.items[n])
    case Wildcard => false
  }

  /** A claim as the query result outputs it: at each (key null) level the object
      has the key as its first one and an array below it, and in every element
      the rest of the path resolves. */
  ghost predicate Outputs(path: Path, claim: Json)
    decreases |path|
  {
    if Fans(path) then
      && claim.Obj? && claim.keys != [] && claim.keys[0] == path[0].name
      && path[0].name in claim.fields && claim.fields[path[0].name].Arr?
      && var items := claim.fields[path[0].name].items;
         forall i :: 0 <= i < |items| ==> Outputs(path[2..], items[i])
    else
      Resolves(path, claim)
  }

  // ------------------------------------------------------------------- proofs

  lemma {:induction false} StraightPath(path: Path, claim: Json, other: Json, position: seq<string>)
    requires forall i :: 0 <= i < |path| ==> !path[i].Wildcard?
    requires Resolves(path, claim)
    ensures PathToFrame(path, other).Success?
    ensures Discloses(PathToFrame(path, other).value, position) <==> Selects(path, claim, position)
    decreases |path|
  {
    if path != [] {
      var below := if path[0].Key? then claim.fields[path[0].name] else claim.items[path[0].n];
      StraightPath(path[1..], below, other, if position == [] then [] else position[1..]);
    }
  }

  /** The claim's first value is the array: the first element of an array, or the
      field of an object's first key. */
  ghost predicate StartsWithArray(claim: Json, items: seq<Json>) {
    match claim
    case Arr(elements) => elements != [] && elements[0] == Arr(items)
    case Obj(keys, fields) => keys != [] && keys[0] in fields && fields[keys[0]] == Arr(items)
    case _ => false
  }

  /** What a leading `null` does: it throws on `null`, fans out if the first value
      is an array, and closes the frame otherwise. */
  lemma LeadingNull(rest: Path, claim: Json)
    ensures PathToFrame([Wildcard] + rest, claim).Failure?
       <==> claim.Null? || exists items, i :: StartsWithArray(claim, items) && 0 <= i < |items|
                                              && PathToFrame(rest, items[i]).Failure?
    ensures PathToFrame([Wildcard] + rest, claim).Success? ==>
              (PathToFrame([Wildcard] + rest, claim).value.All? <==> forall items :: !StartsWithArray(claim, items))
  {
    assert ([Wildcard] + rest)[1..] == rest;
    var f := (item: Json) => PathToFrame(rest, item);
    if items :| StartsWithArray(claim, items) {
      assert FirstValue(claim) == Success(Some(Arr(items)));
      assert forall i :: 0 <= i < |items| ==> f(items[i]) == PathToFrame(rest, items[i]);
      var frames := MapAll(items, f);
    } else if FirstValue(claim).Success? && FirstValue(claim).value.Some? {
      assert !FirstValue(claim).value.value.Arr? by {
        if FirstValue(claim).value.value.Arr? {
          assert StartsWithArray(claim, FirstValue(claim).value.value.items);
        }
      }
    }
  }

  /** Keys and numbers never throw by themselves. */
  lemma {:induction false} KeysPassOn(keys: Path, rest: Path, claim: Json)
    requires forall i :: 0 <= i < |keys| ==> !keys[i].Wildcard?
    ensures PathToFrame(keys + rest, claim).Failure? <==> PathToFrame(rest, claim).Failure?
    decreases |keys|
  {
    if keys == [] {
      assert keys + rest == rest;
    } else {
      assert (keys + rest)[1..] == keys[1..] + rest;
      KeysPassOn(keys[1..], rest, claim);
    }
  }

  /** `null` before an array fans out over its elements. */
  lemma NullFansOut(path: Path, claim: Json, items: seq<Json>)
    requires path != [] && path[0].Wildcard? && FirstValue(claim) == Success(Some(Arr(items)))
    requires forall i :: 0 <= i < |items| ==> PathToFrame(path[1..], items[i]).Success?
    ensures PathToFrame(path, claim).Success?
    ensures FansOver(PathToFrame(path, claim).value, path[1..], items)
  {
    var f := (item: Json) => PathToFrame(path[1..], item);
    assert forall i :: 0 <= i < |items| ==> f(items[i]) == PathToFrame(path[1..], items[i]);
    var frames := MapAll(items, f).value;
    assert PathToFrame(path, claim) == Success(Node(IndexFrames(frames)));
    DistinctIndexNames(|items|);
    KeyedFramesAt(IndexNames(|items|), frames);
  }

  /** The frame has one child per element, compiled from the rest of the path. */
  ghost predicate FansOver(frame: Frame, rest: Path, items: seq<Json>) {
    && frame.Node?
    && (forall k :: k in frame.children <==> k in IndexNames(|items|))
    && forall i :: 0 <= i < |items| ==>
         && PathToFrame(rest, items[i]).Success?
         && frame.children[IndexNames(|items|)[i]] == PathToFrame(rest, items[i]).value
  }

  /** The elements' frames, under the array's key. */
  lemma FannedFrame(path: Path, claim: Json)
    requires Fans(path) && Outputs(path, claim)
    requires forall i :: 0 <= i < |claim.fields[path[0].name].items| ==>
               PathToFrame(path[2..], claim.fields[path[0].name].items[i]).Success?
    ensures PathToFrame(path, claim).Success?
    ensures var frame := PathToFrame(path, claim).value;
            && frame.Node? && frame.children.Keys == {path[0].name}
            && FansOver(frame.children[path[0].name], path[2..], claim.fields[path[0].name].items)
  {
    assert path[1..][1..] == path[2..];
    NullFansOut(path[1..], claim, claim.fields[path[0].name].items);
  }

  lemma SelectsFanned(path: Path, claim: Json, position: seq<string>)
    requires Fans(path) && Outputs(path, claim)
    ensures var items := claim.fields[path[0].name].items;
            Selects(path, claim, position)
            <==> && |position| >= 2 && position[0] == path[0].name
                 && exists i :: 0 <= i < |items| && position[1] == Decimal(i) && Selects(path[2..], items[i], position[2..])
  {
    assert path[1..][1..] == path[2..];
    if |position| >= 2 {
      assert position[1..][1..] == position[2..];
    }
  }

  lemma DisclosesTwoDown(frame: Frame, position: seq<string>)
    ensures |position| >= 2 ==>
              (Discloses(frame, position) <==>
               && frame.Node? && position[0] in frame.children && frame.children[position[0]].Node?
               && position[1] in frame.children[position[0]].children
               && Discloses(frame.children[position[0]].children[position[1]], position[2..]))
  {
    if |position| >= 2 {
      assert position[1..][1..] == position[2..];
    }
  }

  /** Path compilation. For a path of the form (key null)^n followed by keys and
      numbers, and a claim as the query outputs it, compilation succeeds and the
      frame discloses exactly the positions that the pointer selects, every array
      element included. */
  lemma {:induction false} CompilationDisclosesSelection(path: Path, claim: Json, position: seq<string>)
    requires Compilable(path) && Outputs(path, claim)
    ensures PathToFrame(path, claim).Success?
    ensures Discloses(PathToFrame(path, claim).value, position) <==> Selects(path, claim, position)
    decreases |path|
  {
    if !Fans(path) {
      StraightPath(path, claim, claim, position);
    } else {
      var items := claim.fields[path[0].name].items;
      var below := if |position| >= 2 then position[2..] else [];
      forall i | 0 <= i < |items|
        ensures PathToFrame(path[2..], items[i]).Success?
        ensures Discloses(PathToFrame(path[2..], items[i]).value, below) <==> Selects(path[2..], items[i], below)
      {
        CompilationDisclosesSelection(path[2..], items[i], below);
      }
      FannedFrame(path, claim);
      SelectsFanned(path, claim, position);
      var frame := PathToFrame(path, claim).value;
      DisclosesTwoDown(frame, position);
      if |position| < 2 {
        assert !Discloses(frame, position);
      }
    }
  }

  /** Covered positions are the disclosed ones and all below them. */
  lemma {:induction false} CoversBelowDisclosed(frame: Frame, position: seq<string>)
    ensures Covers(frame, position) <==> exists n :: 0 <= n <= |position| && Discloses(frame, position[..n])
    decreases |position|
  {
    if frame.All? {
      assert Discloses(frame, position[..0]);
    } else if position != [] && position[0] in frame.children {
      var child, rest := frame.children[position[0]], position[1..];
      CoversBelowDisclosed(child, rest);
      forall n | 0 <= n <= |rest|
        ensures Discloses(frame, position[..n + 1]) <==> Discloses(child, rest[..n])
      {
        assert position[..n + 1][1..] == rest[..n];
      }
      if Covers(child, rest) {
        var n :| 0 <= n <= |rest| && Discloses(child, rest[..n]);
        assert Discloses(frame, position[..n + 1]);
      }
      if exists n :: 0 <= n <= |position| && Discloses(frame, position[..n]) {
        var n :| 0 <= n <= |position| && Discloses(frame, position[..n]);
        assert n > 0;
        assert Discloses(child, rest[..n - 1]);
      }
    }
  }

  /** A `null` whose first claim value is not an array closes the frame there: the
      frame discloses exactly the position the keys before it spell, whatever
      follows the `null`. */
  lemma {:induction false} NullOutsideArrayCloses(keys: Path, rest: Path, claim: Json, position: seq<string>)
    requires forall i :: 0 <= i < |keys| ==> !keys[i].Wildcard?
    requires FirstValue(claim).Success? && (FirstValue(claim).value.Some? ==> !FirstValue(claim).value.value.Arr?)
    ensures PathToFrame(keys + [Wildcard] + rest, claim).Success?
    ensures Discloses(PathToFrame(keys + [Wildcard] + rest, claim).value, position) <==> Spells(keys, position)
    decreases |keys|
  {
    if keys != [] {
      assert (keys + [Wildcard] + rest)[1..] == keys[1..] + [Wildcard] + rest;
      NullOutsideArrayCloses(keys[1..], rest, claim, if position == [] then [] else position[1..]);
    }
  }

  /** The position has the names of the keys. */
  ghost predicate Spells(keys: Path, position: seq<string>)
    decreases |keys|
  {
    if keys == [] then position == []
    else position != [] && position[0] == SegmentName(keys[0]) && Spells(keys[1..], position[1..])
  }

  function Names(keys: Path): (names: seq<string>)
    ensures |names| == |keys| && Spells(keys, names)
  {
    if keys == [] then [] else [SegmentName(keys[0])] + Names(keys[1..])
  }

  /** The keys and numbers lead from the claim to the value. */
  ghost predicate LeadsTo(keys: Path, claim: Json, value: Json)
    decreases |keys|
  {
    if keys == [] then claim == value
    else
      match keys[0]
      case Key(k) => claim.Obj? && k in claim.fields && LeadsTo(keys[1..], claim.fields[k], value)
      case Index(n) => claim.Arr? && 0 <= n < |claim.items| && LeadsTo(keys[1..], claim.items[n], value)
      case Wildcard => false
  }

  /** The path selects the position or one above it. */
  ghost predicate SelectsAbove(path: Path, claim: Json, position: seq<string>) {
    exists n :: 0 <= n <= |position| && Selects(path, claim, position[..n])
  }

  /** Some element has the position, and the path selects it there. */
  ghost predicate SelectsInItems(rest: Path, items: seq<Json>, position: seq<string>) {
    position != [] && exists i :: 0 <= i < |items| && position[0] == Decimal(i) && Selects(rest, items[i], position[1..])
  }

  lemma {:induction false} SelectsInArray(keys: Path, rest: Path, claim: Json, items: seq<Json>, position: seq<string>)
    requires LeadsTo(keys, claim, Arr(items))
    ensures Selects(keys + [Wildcard] + rest, claim, position)
       <==> |position| >= |keys| && Spells(keys, position[..|keys|]) && SelectsInItems(rest, items, position[|keys|..])
    decreases |keys|
  {
    var path := keys + [Wildcard] + rest;
    if keys == [] {
      assert path[0] == Wildcard && path[1..] == rest && position[..0] == [] && position[0..] == position;
    } else {
      assert path[0] == keys[0] && path[1..] == keys[1..] + [Wildcard] + rest;
      if position != [] {
        var below := if keys[0].Key? then claim.fields[keys[0].name] else claim.items[keys[0].n];
        SelectsInArray(keys[1..], rest, below, items, position[1..]);
        if |position| >= |keys| {
          assert position[1..][|keys| - 1..] == position[|keys|..];
          assert position[..|keys|][1..] == position[1..][..|keys| - 1];
        }
      }
    }
  }

  /** What a `null` behind keys or numbers discloses, when the claim's first value
      is no array: every element as a whole. That is more than the pointer selects
      exactly when the path goes on and there are elements. */
  lemma NullBehindKeysOverDiscloses(keys: Path, rest: Path, claim: Json, items: seq<Json>)
    requires LeadsTo(keys, claim, Arr(items)) && forall i :: 0 <= i < |keys| ==> !keys[i].Wildcard?
    requires FirstValue(claim).Success? && (FirstValue(claim).value.Some? ==> !FirstValue(claim).value.value.Arr?)
    ensures PathToFrame(keys + [Wildcard] + rest, claim).Success?
    ensures forall i, below :: 0 <= i < |items| ==>
              Covers(PathToFrame(keys + [Wildcard] + rest, claim).value, InElement(keys, i, below))
    ensures (forall i, below :: 0 <= i < |items| ==>
               SelectsAbove(keys + [Wildcard] + rest, claim, InElement(keys, i, below)))
       <==> rest == [] || items == []
  {
    var path := keys + [Wildcard] + rest;
    forall i, below | 0 <= i < |items|
      ensures PathToFrame(path, claim).Success? && Covers(PathToFrame(path, claim).value, InElement(keys, i, below))
      ensures rest == [] ==> SelectsAbove(path, claim, InElement(keys, i, below))
    {
      var position := InElement(keys, i, below);
      assert position[..|keys|] == Names(keys) && position[..|keys| + 1] == InElement(keys, i, []);
      NullOutsideArrayCloses(keys, rest, claim, position[..|keys|]);
      CoversBelowDisclosed(PathToFrame(path, claim).value, position);
      ElementSelected(keys, rest, claim, items, i);
    }
    NullOutsideArrayCloses(keys, rest, claim, []);
    if rest != [] && items != [] {
      ElementSelected(keys, rest, claim, items, 0);
    }
  }

  /** A position in the `i`-th element of the array behind the keys. */
  function InElement(keys: Path, i: nat, below: seq<string>): seq<string> {
    Names(keys) + [Decimal(i)] + below
  }

  /** The element itself is selected only by a path that ends there. */
  lemma ElementSelected(keys: Path, rest: Path, claim: Json, items: seq<Json>, i: nat)
    requires LeadsTo(keys, claim, Arr(items)) && i < |items|
    ensures rest == [] ==> Selects(keys + [Wildcard] + rest, claim, InElement(keys, i, []))
    ensures rest != [] ==> !SelectsAbove(keys + [Wildcard] + rest, claim, InElement(keys, i, []))
  {
    var position := InElement(keys, i, []);
    forall n | 0 <= n <= |position|
      ensures Selects(keys + [Wildcard] + rest, claim, position[..n]) <==> rest == [] && n == |position|
    {
      SelectsInArray(keys, rest, claim, items, position[..n]);
      if n == |position| {
        assert position[..n] == position && position[..|keys|] == Names(keys);
        assert position[|keys|..] == [Decimal(i)] && [Decimal(i)][1..] == [];
      }
    }
    assert position[..|position|] == position;
  }
}
