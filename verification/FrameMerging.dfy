/** Merging the frames of several claims into one. */
module FrameMerging {
  import opened Wrappers
  import opened Json
  import opened PresentationFrame

  /** `Object.entries` of a frame: a closed frame is `true` and has none. */
  function Children(frame: Frame): map<string, Frame> {
    if frame.Node? then frame.children else map[]
  }

  /** One assignment of the merge. A closed frame replaces what was there; a node
      takes over the older node's children, the older ones winning. */
  function MergeChild(older: Option<Frame>, value: Frame): Frame {
    if value.All? then All
    else Node(value.children + (if older.Some? then Children(older.value) else map[]))
  }

  /** The accumulator after one claim's frame. */
  function Merge(acc: map<string, Frame>, frame: Frame): map<string, Frame> {
    map k | k in acc.Keys + Children(frame).Keys ::
      if k in Children(frame) then
        MergeChild(if k in acc then Some(acc[k]) else None, Children(frame)[k])
      else
        acc[k]
  }

  /** The accumulator after all claims' frames, in their order. */
  function MergeFrames(frames: seq<Frame>): map<string, Frame> {
    if frames == [] then map[]
    else Merge(MergeFrames(frames[..|frames| - 1]), frames[|frames| - 1])
  }

  /** The inner loop, over the entries of one frame in any order. */
  method MergeInto(before: map<string, Frame>, frame: Frame) returns (acc: map<string, Frame>)
    ensures acc == Merge(before, frame)
  {
    acc := before;
    var entries := Children(frame);
    var todo := entries.Keys;
    while todo != {}
      invariant todo <= entries.Keys
      invariant acc.Keys == before.Keys + (entries.Keys - todo)
      invariant forall k :: k in acc ==>
        acc[k] == if k in entries && k !in todo
                  then MergeChild(if k in before then Some(before[k]) else None, entries[k]) else before[k]
    {
      var key :| key in todo;
      var value := entries[key];
      if value.Node? {
        var older := if key in acc then Children(acc[key]) else map[];
        acc := acc[key := Node(value.children + older)];
      } else {
        acc := acc[key := value];
      }
      todo := todo - {key};
    }
  }

  // ------------------------------------------------------- keeping what is there

  /** A closed child of the accumulator meets a node of the new frame: a
      one-segment path came before a longer one on the same root. */
  ghost predicate Reopens(acc: map<string, Frame>, frame: Frame) {
    exists k :: k in acc && k in Children(frame) && acc[k].All? && Children(frame)[k].Node?
  }

  lemma KeptPosition(acc: map<string, Frame>, frame: Frame, position: seq<string>)
    requires !Reopens(acc, frame) && Covers(Node(acc), position)
    ensures Covers(Node(Merge(acc, frame)), position)
  {
    var k := position[0];
    var merged := Merge(acc, frame);
    if k in Children(frame) && merged[k].Node? {
      assert acc[k].Node?;
      assert merged[k].children[position[1]] == acc[k].children[position[1]];
    }
  }

  /** Merging keeps every position already covered exactly when no closed child
      is reopened by a longer path. */
  lemma MergeKeeps(acc: map<string, Frame>, frame: Frame)
    ensures (forall position :: Covers(Node(acc), position) ==> Covers(Node(Merge(acc, frame)), position))
       <==> !Reopens(acc, frame)
  {
    if !Reopens(acc, frame) {
      forall position | Covers(Node(acc), position)
        ensures Covers(Node(Merge(acc, frame)), position)
      {
        KeptPosition(acc, frame, position);
      }
    } else {
      var k :| k in acc && k in Children(frame) && acc[k].All? && Children(frame)[k].Node?;
      assert Covers(Node(acc), [k]);
      assert !Covers(Node(Merge(acc, frame)), [k]);
    }
  }

  /** No one-segment path comes before a longer one on the same root. */
  ghost predicate ShortPathsLast(frames: seq<Frame>) {
    forall i, j, k ::
      0 <= i < j < |frames| && k in Children(frames[i]) && k in Children(frames[j]) && Children(frames[i])[k].All? ==>
        Children(frames[j])[k].All?
  }

  lemma {:induction false} ClosedBySome(frames: seq<Frame>, k: string)
    requires k in MergeFrames(frames) && MergeFrames(frames)[k].All?
    ensures exists i :: 0 <= i < |frames| && k in Children(frames[i]) && Children(frames[i])[k].All?
  {
    var n := |frames| - 1;
    if k !in Children(frames[n]) {
      ClosedBySome(frames[..n], k);
      var i :| 0 <= i < n && k in Children(frames[..n][i]) && Children(frames[..n][i])[k].All?;
      assert frames[i] == frames[..n][i];
    }
  }

  lemma {:induction false} KeptToTheEnd(frames: seq<Frame>, i: nat, position: seq<string>)
    requires ShortPathsLast(frames) && i <= |frames|
    requires Covers(Node(MergeFrames(frames[..i])), position)
    ensures Covers(Node(MergeFrames(frames)), position)
    decreases |frames|
  {
    if i == |frames| {
      assert frames[..i] == frames;
    } else {
      var n := |frames| - 1;
      var earlier := frames[..n];
      assert earlier[..i] == frames[..i];
      KeptToTheEnd(earlier, i, position);
      NothingReopened(frames);
      KeptPosition(MergeFrames(earlier), frames[n], position);
    }
  }

  lemma NothingReopened(frames: seq<Frame>)
    requires ShortPathsLast(frames) && frames != []
    ensures !Reopens(MergeFrames(frames[..|frames| - 1]), frames[|frames| - 1])
  {
    var n := |frames| - 1;
    var acc := MergeFrames(frames[..n]);
    forall k | k in acc && k in Children(frames[n]) && acc[k].All?
      ensures Children(frames[n])[k].All?
    {
      ClosedBySome(frames[..n], k);
      var j :| 0 <= j < n && k in Children(frames[..n][j]) && Children(frames[..n][j])[k].All?;
      assert frames[j] == frames[..n][j];
    }
  }

  /** A frame decides whether its roots are closed after it. */
  lemma ClosedAfter(frames: seq<Frame>, i: nat, k: string)
    requires i < |frames| && k in Children(frames[i])
    ensures Covers(Node(MergeFrames(frames[..i + 1])), [k]) <==> Children(frames[i])[k].All?
  {
    assert frames[..i + 1][..i] == frames[..i];
    var merged := MergeFrames(frames[..i + 1]);
    assert k in merged && (merged[k].All? <==> Children(frames[i])[k].All?);
    assert [k][1..] == [];
  }

  /** Whatever is covered after some of the claims stays covered after more. */
  ghost predicate KeepsThroughout(frames: seq<Frame>) {
    forall i, j, position ::
      0 <= i <= j <= |frames| && Covers(Node(MergeFrames(frames[..i])), position) ==>
        Covers(Node(MergeFrames(frames[..j])), position)
  }

  /** Over the whole fold nothing covered is ever lost exactly when no one-segment
      path comes before a longer one on the same root. */
  lemma FoldKeeps(frames: seq<Frame>)
    ensures KeepsThroughout(frames) <==> ShortPathsLast(frames)
  {
    if ShortPathsLast(frames) {
      forall i, j, position | 0 <= i <= j <= |frames| && Covers(Node(MergeFrames(frames[..i])), position)
        ensures Covers(Node(MergeFrames(frames[..j])), position)
      {
        assert frames[..j][..i] == frames[..i];
        KeptToTheEnd(frames[..j], i, position);
      }
    }
    if KeepsThroughout(frames) {
      forall i, j, k | 0 <= i < j < |frames| && k in Children(frames[i]) && k in Children(frames[j])
                       && Children(frames[i])[k].All?
        ensures Children(frames[j])[k].All?
      {
        ClosedAfter(frames, i, k);
        ClosedAfter(frames, j, k);
      }
    }
  }

  /** A root closed and then opened by a longer path loses the rest of it. */
  lemma ReopenedRootLost()
    ensures var closed, longer := Node(map["a" := All]), Node(map["a" := Node(map["b" := All])]);
            && MergeFrames([closed, longer]) == map["a" := Node(map["b" := All])]
            && Covers(closed, ["a", "c"])
            && !Covers(Node(MergeFrames([closed, longer])), ["a", "c"])
  {
    var closed, longer := Node(map["a" := All]), Node(map["a" := Node(map["b" := All])]);
    assert [closed, longer][..1] == [closed] && [closed][..0] == [];
    assert MergeFrames([closed]) == map["a" := All];
    assert longer.children["a"].children + map[] == longer.children["a"].children;
    CoversTwoDown(closed, ["a", "c"]);
    CoversTwoDown(longer, ["a", "c"]);
  }

  // ------------------------------------------------------------- root by root

  predicate HasRoot(f: Frame, k: string) {
    k in Children(f)
  }

  predicate HasSecond(f: Frame, k: string, x: string) {
    k in Children(f) && Children(f)[k].Node? && x in Children(f)[k].children
  }

  /** What the last frame with the root has there. */
  function LastAt(frames: seq<Frame>, k: string): (r: Option<Frame>)
    ensures r.Some? ==> exists f :: f in frames && HasRoot(f, k) && r.value == Children(f)[k]
    ensures r.None? ==> forall f :: f in frames ==> !HasRoot(f, k)
  {
    if frames == [] then None
    else
      var n := |frames| - 1;
      assert forall f :: f in frames <==> f in frames[..n] || f == frames[n];
      if HasRoot(frames[n], k) then Some(Children(frames[n])[k]) else LastAt(frames[..n], k)
  }

  /** What the first frame with the second-level key has there. */
  function FirstAt(frames: seq<Frame>, k: string, x: string): (r: Option<Frame>)
    ensures r.Some? ==> exists f :: f in frames && HasSecond(f, k, x) && r.value == Children(f)[k].children[x]
    ensures r.None? ==> forall f :: f in frames ==> !HasSecond(f, k, x)
  {
    if frames == [] then None
    else
      var n := |frames| - 1;
      var earlier := FirstAt(frames[..n], k, x);
      assert forall f :: f in frames <==> f in frames[..n] || f == frames[n];
      if earlier.Some? then earlier
      else if HasSecond(frames[n], k, x) then Some(Children(frames[n])[k].children[x]) else None
  }

  predicate NoneCloses(frames: seq<Frame>, k: string) {
    forall f | f in frames :: HasRoot(f, k) ==> Children(f)[k].Node?
  }

  /** The last frame with a root decides whether the merge closes it. */
  lemma {:induction false} LastDecides(frames: seq<Frame>, k: string)
    ensures k in MergeFrames(frames) <==> LastAt(frames, k).Some?
    ensures k in MergeFrames(frames) ==> (MergeFrames(frames)[k].All? <==> LastAt(frames, k).value.All?)
  {
    if frames != [] {
      LastDecides(frames[..|frames| - 1], k);
    }
  }

  /** Below a root that no frame closes, the first child stays. */
  lemma {:induction false} FirstStays(frames: seq<Frame>, k: string, x: string)
    requires NoneCloses(frames, k)
    ensures HasSecond(Node(MergeFrames(frames)), k, x) <==> FirstAt(frames, k, x).Some?
    ensures HasSecond(Node(MergeFrames(frames)), k, x) ==>
              MergeFrames(frames)[k].children[x] == FirstAt(frames, k, x).value
  {
    if frames != [] {
      var n := |frames| - 1;
      assert forall f :: f in frames[..n] ==> f in frames;
      FirstStays(frames[..n], k, x);
      LastDecides(frames[..n], k);
      var acc, last := MergeFrames(frames[..n]), frames[n];
      if k in acc && k in Children(last) {
        assert acc[k].Node?;
        assert MergeFrames(frames)[k].children == Children(last)[k].children + acc[k].children;
      }
    }
  }

  /** Coverage of a node, two levels down. */
  ghost predicate CoversDeep(f: Frame, position: seq<string>) {
    && position != [] && HasRoot(f, position[0])
    && (Children(f)[position[0]].All? ||
        (|position| > 1 && HasSecond(f, position[0], position[1])
         && Covers(Children(f)[position[0]].children[position[1]], position[2..])))
  }

  lemma CoversTwoDown(f: Frame, position: seq<string>)
    requires f.Node?
    ensures Covers(f, position) <==> CoversDeep(f, position)
  {
    if |position| > 1 {
      assert position[1..][1..] == position[2..];
    }
  }

  // --------------------------------------------------------------- inclusion

  function ChildOrNothing(f: Frame, k: string): Frame {
    if k in Children(f) then Children(f)[k] else Node(map[])
  }

  /** `older` covers what `newer` covers, as a comparison of the two trees. */
  predicate Includes(older: Frame, newer: Frame)
    decreases newer
  {
    older.All? || (newer.Node? && forall k | k in newer.children :: Includes(ChildOrNothing(older, k), newer.children[k]))
  }

  ghost predicate CoversAllOf(older: Frame, newer: Frame) {
    forall position :: Covers(newer, position) ==> Covers(older, position)
  }

  lemma {:induction false} IncludesIsCoverage(older: Frame, newer: Frame)
    ensures Includes(older, newer) <==> CoversAllOf(older, newer)
    decreases newer
  {
    if older.Node? && newer.All? {
      assert Covers(newer, []) && !Covers(older, []);
    } else if older.Node? {
      forall k | k in newer.children
        ensures Includes(ChildOrNothing(older, k), newer.children[k])
           <==> CoversAllOf(ChildOrNothing(older, k), newer.children[k])
      {
        IncludesIsCoverage(ChildOrNothing(older, k), newer.children[k]);
      }
      CoverageOfChildren(older, newer);
    }
  }

  lemma CoverageOfChildren(older: Frame, newer: Frame)
    requires older.Node? && newer.Node?
    ensures CoversAllOf(older, newer)
       <==> forall k :: k in newer.children ==> CoversAllOf(ChildOrNothing(older, k), newer.children[k])
  {
    if CoversAllOf(older, newer) {
      forall k, below | k in newer.children && Covers(newer.children[k], below)
        ensures Covers(ChildOrNothing(older, k), below)
      {
        assert ([k] + below)[1..] == below;
        assert Covers(newer, [k] + below);
        assert Covers(older, [k] + below);
      }
    }
    if forall k :: k in newer.children ==> CoversAllOf(ChildOrNothing(older, k), newer.children[k]) {
      forall position | Covers(newer, position)
        ensures Covers(older, position)
      {
        assert Covers(ChildOrNothing(older, position[0]), position[1..]);
      }
    }
  }

  // ------------------------------------------------------- the merge of a list

  /** On each second-level key of the frame's root, the first child in the list
      includes the frame's. */
  predicate FirstIncludes(frames: seq<Frame>, f: Frame, k: string)
    requires HasRoot(f, k)
  {
    forall x | x in Children(Children(f)[k]) ::
      FirstAt(frames, k, x).Some? && Includes(FirstAt(frames, k, x).value, Children(Children(f)[k])[x])
  }

  /** Nothing of the root is lost: the last frame with it closes it, or no frame
      does and the first children include all others. */
  predicate RootKept(frames: seq<Frame>, k: string) {
    LastAt(frames, k) == Some(All) ||
    (NoneCloses(frames, k) && forall f | f in frames && HasRoot(f, k) :: FirstIncludes(frames, f, k))
  }

  /** No frame stands for the whole credential, and every root is kept. */
  predicate LosesNothing(frames: seq<Frame>) {
    && (forall f | f in frames :: f.Node?)
    && forall f | f in frames :: forall k | k in Children(f) :: RootKept(frames, k)
  }

  ghost predicate CoversEach(frames: seq<Frame>) {
    forall f, position :: f in frames && Covers(f, position) ==> Covers(Node(MergeFrames(frames)), position)
  }

  lemma KeptByMerge(frames: seq<Frame>, f: Frame, position: seq<string>)
    requires LosesNothing(frames) && f in frames && Covers(f, position)
    ensures Covers(Node(MergeFrames(frames)), position)
  {
    CoversTwoDown(f, position);
    CoversTwoDown(Node(MergeFrames(frames)), position);
    var k := position[0];
    LastDecides(frames, k);
    assert RootKept(frames, k);
    if LastAt(frames, k) != Some(All) {
      KeptBelow(frames, f, position);
    }
  }

  lemma KeptBelow(frames: seq<Frame>, f: Frame, position: seq<string>)
    requires f in frames && CoversDeep(f, position)
    requires NoneCloses(frames, position[0]) && FirstIncludes(frames, f, position[0])
    ensures CoversDeep(Node(MergeFrames(frames)), position)
  {
    var k := position[0];
    assert Children(f)[k].Node?;
    var x := position[1];
    FirstStays(frames, k, x);
    IncludesIsCoverage(FirstAt(frames, k, x).value, Children(f)[k].children[x]);
  }

  lemma KeptRoot(frames: seq<Frame>, k: string)
    requires CoversEach(frames) && LastAt(frames, k).Some?
    ensures RootKept(frames, k)
  {
    if LastAt(frames, k) != Some(All) {
      forall f | f in frames && HasRoot(f, k)
        ensures Children(f)[k].Node?
      {
        NotClosed(frames, f, k);
      }
      forall f | f in frames && HasRoot(f, k)
        ensures FirstIncludes(frames, f, k)
      {
        forall x | x in Children(Children(f)[k])
          ensures FirstAt(frames, k, x).Some? && Includes(FirstAt(frames, k, x).value, Children(Children(f)[k])[x])
        {
          FirstIncluding(frames, f, k, x);
        }
      }
    }
  }

  lemma NotClosed(frames: seq<Frame>, f: Frame, k: string)
    requires CoversEach(frames) && LastAt(frames, k).Some? && LastAt(frames, k) != Some(All)
    requires f in frames && HasRoot(f, k)
    ensures Children(f)[k].Node?
  {
    var merged := Node(MergeFrames(frames));
    LastDecides(frames, k);
    CoversTwoDown(f, [k]);
    CoversTwoDown(merged, [k]);
    assert Covers(f, [k]) ==> Covers(merged, [k]);
  }

  lemma FirstIncluding(frames: seq<Frame>, f: Frame, k: string, x: string)
    requires CoversEach(frames) && NoneCloses(frames, k) && f in frames && HasSecond(f, k, x)
    ensures FirstAt(frames, k, x).Some? && Includes(FirstAt(frames, k, x).value, Children(f)[k].children[x])
  {
    var merged := Node(MergeFrames(frames));
    FirstStays(frames, k, x);
    var first, child := FirstAt(frames, k, x).value, Children(f)[k].children[x];
    forall below | Covers(child, below)
      ensures Covers(first, below)
    {
      CoversAtSecond(f, k, x, below);
      CoversAtSecond(merged, k, x, below);
      assert Covers(f, [k, x] + below);
    }
    IncludesIsCoverage(first, child);
  }

  /** The merged frame covers everything that some frame covers exactly when, on
      each root, the last frame closes it, or none does and the first child on
      each second-level key includes the others. */
  lemma MergeLosesNothing(frames: seq<Frame>)
    ensures CoversEach(frames) <==> LosesNothing(frames)
  {
    if LosesNothing(frames) {
      forall f, position | f in frames && Covers(f, position)
        ensures Covers(Node(MergeFrames(frames)), position)
      {
        KeptByMerge(frames, f, position);
      }
    }
    if CoversEach(frames) {
      forall f | f in frames
        ensures f.Node?
      {
        assert Covers(f, []) ==> Covers(Node(MergeFrames(frames)), []);
      }
      forall f, k | f in frames && k in Children(f)
        ensures RootKept(frames, k)
      {
        KeptRoot(frames, k);
      }
    }
  }

  lemma MergedFromOne(acc: map<string, Frame>, frame: Frame, position: seq<string>)
    requires Covers(Node(Merge(acc, frame)), position)
    ensures Covers(Node(acc), position) || (frame.Node? && Covers(frame, position))
  {
    var merged := Merge(acc, frame);
    CoversTwoDown(Node(merged), position);
    CoversTwoDown(Node(acc), position);
    var k := position[0];
    if k in Children(frame) {
      CoversTwoDown(frame, position);
      if merged[k].Node? && HasSecond(Node(acc), k, position[1]) {
        assert merged[k].children[position[1]] == acc[k].children[position[1]];
      }
    }
  }

  /** Nothing more is disclosed than asked for: whatever the merged frame covers,
      the frame of some claim covers. */
  lemma {:induction false} NothingMore(frames: seq<Frame>, position: seq<string>)
    requires Covers(Node(MergeFrames(frames)), position)
    ensures exists f :: f in frames && f.Node? && Covers(f, position)
  {
    var n := |frames| - 1;
    assert frames != [];
    MergedFromOne(MergeFrames(frames[..n]), frames[n], position);
    if Covers(Node(MergeFrames(frames[..n])), position) {
      NothingMore(frames[..n], position);
      var f :| f in frames[..n] && f.Node? && Covers(f, position);
      assert f in frames;
    }
  }

  /** So the merged frame covers exactly the union of what the frames cover if and
      only if it loses nothing. */
  lemma MergeCoversUnion(frames: seq<Frame>)
    ensures (forall position :: Covers(Node(MergeFrames(frames)), position) <==> CoveredBySome(frames, position))
       <==> LosesNothing(frames)
  {
    MergeLosesNothing(frames);
    forall position
      ensures Covers(Node(MergeFrames(frames)), position) ==> CoveredBySome(frames, position)
    {
      if Covers(Node(MergeFrames(frames)), position) {
        NothingMore(frames, position);
      }
    }
    forall f, position | f in frames && Covers(f, position)
      ensures CoveredBySome(frames, position)
    {
    }
  }

  ghost predicate CoveredBySome(frames: seq<Frame>, position: seq<string>) {
    exists f :: f in frames && Covers(f, position)
  }

  // ------------------------------------------------------------ agreeing frames

  /** Two frames agree on a shared root: both close it, or both open it and agree
      on the second-level keys they share. */
  ghost predicate Agree(f: Frame, g: Frame) {
    && (forall k :: HasRoot(f, k) && HasRoot(g, k) ==> (Children(f)[k].All? <==> Children(g)[k].All?))
    && forall k, x :: HasSecond(f, k, x) && HasSecond(g, k, x) ==>
         Children(f)[k].children[x] == Children(g)[k].children[x]
  }

  ghost predicate AllAgree(frames: seq<Frame>) {
    forall f, g :: f in frames && g in frames ==> Agree(f, g)
  }

  lemma AgreedRoot(frames: seq<Frame>, f: Frame, k: string)
    requires AllAgree(frames) && f in frames && HasRoot(f, k)
    ensures LastAt(frames, k).Some? && (LastAt(frames, k).value.All? <==> Children(f)[k].All?)
    ensures Children(f)[k].Node? ==> NoneCloses(frames, k)
  {
    var g :| g in frames && HasRoot(g, k) && LastAt(frames, k).value == Children(g)[k];
    assert Agree(f, g);
    assert forall h :: h in frames && HasRoot(h, k) ==> Agree(f, h);
  }

  lemma AgreedSecond(frames: seq<Frame>, f: Frame, k: string, x: string)
    requires AllAgree(frames) && f in frames && HasSecond(f, k, x)
    ensures FirstAt(frames, k, x) == Some(Children(f)[k].children[x])
  {
    var g :| g in frames && HasSecond(g, k, x) && FirstAt(frames, k, x).value == Children(g)[k].children[x];
    assert Agree(f, g);
  }

  /** Frames that on a shared root are disjoint on the second level, or agree
      there, lose nothing when merged. */
  lemma AgreeingLoseNothing(frames: seq<Frame>)
    requires AllAgree(frames) && forall f :: f in frames ==> f.Node?
    ensures LosesNothing(frames)
  {
    forall f, k | f in frames && HasRoot(f, k)
      ensures RootKept(frames, k)
    {
      AgreedRoot(frames, f, k);
      if Children(f)[k].Node? {
        forall g | g in frames && HasRoot(g, k)
          ensures FirstIncludes(frames, g, k)
        {
          AgreedIncludes(frames, g, k);
        }
      }
    }
  }

  lemma AgreedIncludes(frames: seq<Frame>, f: Frame, k: string)
    requires AllAgree(frames) && f in frames && HasRoot(f, k)
    ensures FirstIncludes(frames, f, k)
  {
    forall x | x in Children(Children(f)[k])
      ensures FirstAt(frames, k, x).Some? && Includes(FirstAt(frames, k, x).value, Children(Children(f)[k])[x])
    {
      AgreedSecond(frames, f, k, x);
      IncludesIsCoverage(Children(Children(f)[k])[x], Children(Children(f)[k])[x]);
    }
  }

  /** The first frame's two levels are in the second. */
  ghost predicate TwoLevelsIn(a: map<string, Frame>, b: map<string, Frame>) {
    && (forall k :: k in a ==> k in b && (a[k].All? <==> b[k].All?))
    && forall k, x :: HasSecond(Node(a), k, x) ==> HasSecond(Node(b), k, x) && a[k].children[x] == b[k].children[x]
  }

  lemma PartOfMerge(frames: seq<Frame>, frames': seq<Frame>)
    requires AllAgree(frames) && forall f :: f in frames <==> f in frames'
    ensures TwoLevelsIn(MergeFrames(frames), MergeFrames(frames'))
  {
    var merged, merged' := MergeFrames(frames), MergeFrames(frames');
    forall k | k in merged
      ensures k in merged' && (merged[k].All? <==> merged'[k].All?)
    {
      var _ := RootInBoth(frames, frames', k);
    }
    forall k, x | HasSecond(Node(merged), k, x)
      ensures HasSecond(Node(merged'), k, x) && merged[k].children[x] == merged'[k].children[x]
    {
      var _ := RootInBoth(frames, frames', k);
      FirstStays(frames, k, x);
      FirstStays(frames', k, x);
      var g :| g in frames && HasSecond(g, k, x);
      AgreedSecond(frames, g, k, x);
      AgreedSecond(frames', g, k, x);
    }
  }

  lemma RootInBoth(frames: seq<Frame>, frames': seq<Frame>, k: string) returns (f: Frame)
    requires AllAgree(frames) && (forall f :: f in frames <==> f in frames') && k in MergeFrames(frames)
    ensures f in frames && HasRoot(f, k) && k in MergeFrames(frames')
    ensures MergeFrames(frames)[k].All? <==> Children(f)[k].All?
    ensures MergeFrames(frames')[k].All? <==> Children(f)[k].All?
    ensures MergeFrames(frames)[k].Node? ==> NoneCloses(frames, k) && NoneCloses(frames', k)
  {
    LastDecides(frames, k);
    LastDecides(frames', k);
    f :| f in frames && HasRoot(f, k);
    AgreedRoot(frames, f, k);
    AgreedRoot(frames', f, k);
  }

  /** Frames that hold the same two levels are equal. */
  lemma SameTwoLevels(a: map<string, Frame>, b: map<string, Frame>)
    requires TwoLevelsIn(a, b) && TwoLevelsIn(b, a)
    ensures a == b
  {
    forall k | k in a
      ensures a[k] == b[k]
    {
      if a[k].Node? {
        forall x
          ensures x in a[k].children <==> x in b[k].children
          ensures x in a[k].children && x in b[k].children ==> a[k].children[x] == b[k].children[x]
        {
          assert HasSecond(Node(a), k, x) <==> HasSecond(Node(b), k, x);
        }
        assert a[k].children == b[k].children;
      }
    }
  }

  /** And then the claims' order does not matter. */
  lemma MergeOrderIrrelevant(frames: seq<Frame>, frames': seq<Frame>)
    requires AllAgree(frames)
    requires forall f :: f in frames <==> f in frames'
    ensures MergeFrames(frames) == MergeFrames(frames')
  {
    PartOfMerge(frames, frames');
    PartOfMerge(frames', frames);
    SameTwoLevels(MergeFrames(frames), MergeFrames(frames'));
  }

  // ------------------------------------------------------- what a merge brings

  /** On every second-level key that both have, the older child includes the
      newer one. */
  ghost predicate OlderIncludes(acc: map<string, Frame>, frame: Frame) {
    forall k, x :: HasSecond(Node(acc), k, x) && HasSecond(frame, k, x) ==>
      Includes(acc[k].children[x], Children(frame)[k].children[x])
  }

  /** Merging one more frame brings in everything that it covers exactly when, on
      every second-level key that both have, the older child includes the newer. */
  lemma MergeBringsAll(acc: map<string, Frame>, frame: Frame)
    requires frame.Node?
    ensures CoversAllOf(Node(Merge(acc, frame)), frame) <==> OlderIncludes(acc, frame)
  {
    if CoversAllOf(Node(Merge(acc, frame)), frame) {
      forall k, x | HasSecond(Node(acc), k, x) && HasSecond(frame, k, x)
        ensures Includes(acc[k].children[x], Children(frame)[k].children[x])
      {
        BroughtBelow(acc, frame, k, x);
        IncludesIsCoverage(acc[k].children[x], frame.children[k].children[x]);
      }
    }
    if OlderIncludes(acc, frame) {
      forall position | Covers(frame, position)
        ensures Covers(Node(Merge(acc, frame)), position)
      {
        BroughtPosition(acc, frame, position);
      }
    }
  }

  lemma BroughtBelow(acc: map<string, Frame>, frame: Frame, k: string, x: string)
    requires frame.Node? && CoversAllOf(Node(Merge(acc, frame)), frame)
    requires HasSecond(Node(acc), k, x) && HasSecond(frame, k, x)
    ensures CoversAllOf(acc[k].children[x], frame.children[k].children[x])
  {
    forall below | Covers(frame.children[k].children[x], below)
      ensures Covers(acc[k].children[x], below)
    {
      BroughtAtSecond(acc, frame, k, x, below);
    }
  }

  lemma BroughtPosition(acc: map<string, Frame>, frame: Frame, position: seq<string>)
    requires frame.Node? && OlderIncludes(acc, frame) && Covers(frame, position)
    ensures Covers(Node(Merge(acc, frame)), position)
  {
    CoversTwoDown(frame, position);
    CoversTwoDown(Node(Merge(acc, frame)), position);
    MergedCovers(acc, frame, position);
  }

  lemma BroughtAtSecond(acc: map<string, Frame>, frame: Frame, k: string, x: string, below: seq<string>)
    requires frame.Node? && HasSecond(Node(acc), k, x) && HasSecond(frame, k, x)
    ensures Covers(frame, [k, x] + below) <==> Covers(frame.children[k].children[x], below)
    ensures Covers(Node(Merge(acc, frame)), [k, x] + below) <==> Covers(acc[k].children[x], below)
  {
    CoversAtSecond(frame, k, x, below);
    CoversAtSecond(Node(Merge(acc, frame)), k, x, below);
  }

  lemma MergedCovers(acc: map<string, Frame>, frame: Frame, position: seq<string>)
    requires OlderIncludes(acc, frame) && frame.Node? && CoversDeep(frame, position)
    ensures CoversDeep(Node(Merge(acc, frame)), position)
  {
    var merged := Merge(acc, frame);
    var k := position[0];
    if frame.children[k].Node? {
      var x := position[1];
      if HasSecond(Node(acc), k, x) {
        assert merged[k].children[x] == acc[k].children[x];
        IncludesIsCoverage(acc[k].children[x], frame.children[k].children[x]);
      } else {
        assert merged[k].children[x] == frame.children[k].children[x];
      }
    }
  }

  lemma CoversAtSecond(frame: Frame, k: string, x: string, below: seq<string>)
    requires HasSecond(frame, k, x)
    ensures Covers(frame, [k, x] + below) <==> Covers(Children(frame)[k].children[x], below)
  {
    assert ([k, x] + below)[1..] == [x] + below;
    assert ([x] + below)[1..] == below;
  }

  /** The second level must be disjoint or agree: of two siblings below it only
      the older one stays. */
  lemma DeeperSiblingLost()
    ensures var first := map["a" := Node(map["b" := Node(map["c" := All])])];
            var second := Node(map["a" := Node(map["b" := Node(map["d" := All])])]);
            && Merge(first, second) == first
            && Covers(second, ["a", "b", "d"])
            && !Covers(Node(Merge(first, second)), ["a", "b", "d"])
  {
    var first := map["a" := Node(map["b" := Node(map["c" := All])])];
    var second := Node(map["a" := Node(map["b" := Node(map["d" := All])])]);
    assert second.children["a"].children + first["a"].children == first["a"].children;
    assert Merge(first, second) == first;
    CoversTwoDown(second, ["a", "b", "d"]);
    CoversTwoDown(Node(first), ["a", "b", "d"]);
    assert ["a", "b", "d"][2..] == ["d"];
  }
}
