/** Walks along the first authority hints: every entity has at most one superior
    that the recursion goes on to. */
module HintGraph {
  import opened Wrappers

  /** The superior of an entity, if the walk goes on from there. */
  type Superior = string -> Option<string>

  /** Whether the walk from `url` goes up at most `n` times. */
  predicate HaltsWithin(up: Superior, url: string, n: nat)
    decreases n
  {
    up(url).Some? ==> n > 0 && HaltsWithin(up, up(url).value, n - 1)
  }

  /** The walk from `url` comes to an end. */
  ghost predicate Halts(up: Superior, url: string) {
    exists n: nat :: HaltsWithin(up, url, n)
  }

  /** The entities visited from `url` on, in order. */
  function Ancestry(up: Superior, url: string, n: nat): (path: seq<string>)
    requires HaltsWithin(up, url, n)
    ensures IsWalk(up, path) && path[0] == url && |path| <= n + 1
    ensures up(path[|path| - 1]).None?
    decreases n
  {
    if up(url).Some? then [url] + Ancestry(up, up(url).value, n - 1) else [url]
  }

  /** Each element but the last has the next one as its superior. */
  ghost predicate IsWalk(up: Superior, path: seq<string>) {
    && path != []
    && forall i :: 0 <= i < |path| - 1 ==> up(path[i]) == Some(path[i + 1])
  }

  /** The `k`-th entity above `url`, while the walk gets that far. */
  function Ancestor(up: Superior, url: string, k: nat): Option<string>
    decreases k
  {
    if k == 0 then Some(url)
    else
      var below := Ancestor(up, url, k - 1);
      if below.Some? then up(below.value) else None
  }

  /** No entity is visited twice. */
  ghost predicate Acyclic(up: Superior, url: string) {
    forall i: nat, j: nat ::
      i < j && Ancestor(up, url, i).Some? && Ancestor(up, url, j).Some? ==> Ancestor(up, url, i) != Ancestor(up, url, j)
  }

  /** The walk does not depend on the bound used to compute it. */
  lemma {:induction false} AncestryUnique(up: Superior, url: string, m: nat, n: nat)
    requires HaltsWithin(up, url, m) && HaltsWithin(up, url, n)
    ensures Ancestry(up, url, m) == Ancestry(up, url, n)
    decreases m
  {
    if up(url).Some? {
      AncestryUnique(up, up(url).value, m - 1, n - 1);
    }
  }

  /** Going up `k` steps makes the rest of the walk `k` steps shorter. */
  lemma {:induction false} AncestorDepth(up: Superior, url: string, n: nat, k: nat)
    requires HaltsWithin(up, url, n) && Ancestor(up, url, k).Some?
    ensures k <= n && HaltsWithin(up, Ancestor(up, url, k).value, n - k)
    ensures |Ancestry(up, Ancestor(up, url, k).value, n - k)| == |Ancestry(up, url, n)| - k
    decreases k
  {
    if k > 0 {
      AncestorDepth(up, url, n, k - 1);
    }
  }

  /** A walk that is still going after `n` more steps visited as many entities
      that have a superior. */
  lemma {:induction false} StillClimbing(up: Superior, url: string, k: nat, n: nat)
    requires Ancestor(up, url, k).Some? && !HaltsWithin(up, Ancestor(up, url, k).value, n)
    ensures forall i: nat :: k <= i <= k + n ==> Ancestor(up, url, i).Some? && up(Ancestor(up, url, i).value).Some?
    decreases n
  {
    if n > 0 {
      assert Ancestor(up, url, k + 1).Some?;
      StillClimbing(up, url, k + 1, n - 1);
    }
  }

  /** Pairwise distinct values drawn from a set are no more than its elements. */
  lemma {:induction false} Pigeonhole(items: seq<string>, range: set<string>)
    requires forall i, j :: 0 <= i < j < |items| ==> items[i] != items[j]
    requires forall i :: 0 <= i < |items| ==> items[i] in range
    ensures |items| <= |range|
  {
    if items != [] {
      Pigeonhole(items[1..], range - {items[0]});
    }
  }

  lemma AncestorsDiffer(up: Superior, url: string, n: nat, i: nat, j: nat, u: string, v: string)
    requires HaltsWithin(up, url, n) && i < j
    requires Ancestor(up, url, i) == Some(u) && Ancestor(up, url, j) == Some(v)
    ensures u != v
  {
    AncestorDepth(up, url, n, i);
    AncestorDepth(up, url, n, j);
    if u == v {
      AncestryUnique(up, u, n - i, n - j);
    }
  }

  /** A walk that ends never visits an entity twice. */
  lemma HaltingIsAcyclic(up: Superior, url: string, n: nat)
    requires HaltsWithin(up, url, n)
    ensures Acyclic(up, url)
  {
    forall i: nat, j: nat | i < j && Ancestor(up, url, i).Some? && Ancestor(up, url, j).Some?
      ensures Ancestor(up, url, i) != Ancestor(up, url, j)
    {
      AncestorsDiffer(up, url, n, i, j, Ancestor(up, url, i).value, Ancestor(up, url, j).value);
    }
  }

  /** A walk that never visits an entity twice ends when the entities run out. */
  lemma AcyclicHalts(up: Superior, url: string, entities: set<string>)
    requires forall u: string :: up(u).Some? ==> u in entities
    requires Acyclic(up, url)
    ensures HaltsWithin(up, url, |entities|)
  {
    var size := |entities|;
    if !HaltsWithin(up, url, size) {
      assert Ancestor(up, url, 0) == Some(url);
      StillClimbing(up, url, 0, size);
      var visited := seq(size + 1, i requires 0 <= i < size + 1 => Ancestor(up, url, i).value);
      forall i, j | 0 <= i < j < |visited|
        ensures visited[i] != visited[j]
      {
        assert Ancestor(up, url, i) != Ancestor(up, url, j);
      }
      Pigeonhole(visited, entities);
    }
  }

  lemma {:induction false} MoreSteps(up: Superior, url: string, m: nat, n: nat)
    requires m <= n && HaltsWithin(up, url, m)
    ensures HaltsWithin(up, url, n)
    decreases m
  {
    if up(url).Some? {
      MoreSteps(up, up(url).value, m - 1, n - 1);
    }
  }

  /** A rank that decreases along the hints bounds the walk. */
  lemma {:induction false} RankBoundsWalk(up: Superior, url: string, rank: string -> nat)
    requires forall u: string :: up(u).Some? ==> rank(up(u).value) < rank(u)
    ensures HaltsWithin(up, url, rank(url))
    decreases rank(url)
  {
    if up(url).Some? {
      RankBoundsWalk(up, up(url).value, rank);
      MoreSteps(up, up(url).value, rank(up(url).value), rank(url) - 1);
    }
  }

  /** A walk that at each entity goes on as another one does, or stops, is a first
      part of it. */
  lemma {:induction false} PartOfWalk(up: Superior, up': Superior, url: string, n: nat)
    requires HaltsWithin(up, url, n)
    requires forall u :: u in Ancestry(up, url, n) ==> up'(u).None? || up'(u) == up(u)
    ensures HaltsWithin(up', url, n) && Ancestry(up', url, n) <= Ancestry(up, url, n)
    decreases n
  {
    assert url in Ancestry(up, url, n);
    if up'(url).Some? {
      PartOfWalk(up, up', up(url).value, n - 1);
    }
  }
}
