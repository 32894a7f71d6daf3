/**
 * Finite graphs given by a parent function, and the notions the graph
 * algorithms are specified with: paths, reachability, cycles and
 * topological orders.
 *
 * A graph maps each object to the sequence of its parents, standing in for
 * the caller's `parent_func`.  Its keys are the objects `parent_func` may be
 * asked about; `Closed` says every parent is one of them.
 */
module Graphs {

  type Graph<T> = map<T, seq<T>>

  /** Every parent of a node of `g` is itself a node of `g`. */
  ghost predicate Closed<T(!new)>(g: Graph<T>) {
    forall x, p :: x in g && p in g[x] ==> p in g
  }

  /** `path` walks from `path[0]` to its last element, each step going from a node to one of its parents. */
  ghost predicate IsPath<T(!new)>(g: Graph<T>, path: seq<T>) {
    && |path| >= 1
    && (forall i :: 0 <= i < |path| ==> path[i] in g)
    && (forall i :: 0 < i < |path| ==> path[i] in g[path[i - 1]])
  }

  /** `y` is `x` or an ancestor of `x`. */
  ghost predicate Reaches<T(!new)>(g: Graph<T>, x: T, y: T) {
    exists path :: IsPath(g, path) && path[0] == x && path[|path| - 1] == y
  }

  /** `x` is its own proper ancestor. */
  ghost predicate OnCycle<T(!new)>(g: Graph<T>, x: T) {
    exists path :: IsPath(g, path) && |path| >= 2 && path[0] == x && path[|path| - 1] == x
  }

  /** `x` is one of the roots or an ancestor of one of them. */
  ghost predicate ReachableFrom<T(!new)>(g: Graph<T>, roots: seq<T>, x: T) {
    exists r :: r in roots && Reaches(g, r, x)
  }

  /** Some node reachable from the roots lies on a cycle. */
  ghost predicate CycleReachable<T(!new)>(g: Graph<T>, roots: seq<T>) {
    exists x :: ReachableFrom(g, roots, x) && OnCycle(g, x)
  }

  ghost predicate Distinct<T(!new)>(s: seq<T>) {
    forall i, j :: 0 <= i < j < |s| ==> s[i] != s[j]
  }

  /**
   * `s` lists nodes of `g` at most once each, and every parent of a listed
   * node is listed before it.
   */
  ghost predicate TopoOrder<T(!new)>(g: Graph<T>, s: seq<T>) {
    && Distinct(s)
    && (forall i :: 0 <= i < |s| ==> s[i] in g)
    && (forall i, p :: 0 <= i < |s| && p in g[s[i]] ==> p in s[..i])
  }

  /** The position of `x` in `s` (its first one). */
  function IndexOf<T(==)>(s: seq<T>, x: T): (i: nat)
    requires x in s
    ensures i < |s| && s[i] == x && x !in s[..i]
  {
    if s[0] == x then 0 else 1 + IndexOf(s[1..], x)
  }

  lemma PrefixStep<T>(s: seq<T>, i: nat)
    requires i < |s|
    ensures s[..i + 1] == s[..i] + [s[i]]
  {
  }

  lemma ReachesRefl<T(!new)>(g: Graph<T>, x: T)
    requires x in g
    ensures Reaches(g, x, x)
  {
    assert IsPath(g, [x]);
  }

  /** Reachability extends by one parent step at the front. */
  lemma ReachesStep<T(!new)>(g: Graph<T>, x: T, p: T, y: T)
    requires x in g && p in g[x] && Reaches(g, p, y)
    ensures Reaches(g, x, y)
  {
    var path :| IsPath(g, path) && path[0] == p && path[|path| - 1] == y;
    var path' := [x] + path;
    assert forall i :: 0 < i < |path'| ==> path'[i] == path[i - 1];
    assert IsPath(g, path');
  }

  /**
   * Along a path that starts inside a topological order, every later node
   * is listed, and strictly earlier than the node the path starts from.
   */
  lemma {:induction false} PathDescends<T(!new)>(g: Graph<T>, s: seq<T>, path: seq<T>)
    requires TopoOrder(g, s) && IsPath(g, path) && path[0] in s
    ensures forall k :: 0 <= k < |path| ==> path[k] in s
    ensures forall k :: 0 < k < |path| ==> IndexOf(s, path[k]) < IndexOf(s, path[0])
  {
    if |path| > 1 {
      var init := path[..|path| - 1];
      assert IsPath(g, init);
      PathDescends(g, s, init);
      var n := |path| - 1;
      assert path[n - 1] == init[n - 1];
      var i := IndexOf(s, path[n - 1]);
      assert path[n] in g[s[i]];
      assert path[n] in s[..i];
      forall k | 0 < k < n
        ensures path[k] in s && IndexOf(s, path[k]) < IndexOf(s, path[0])
      {
        assert path[k] == init[k];
      }
    }
  }

  /** A path that starts inside a topological order and takes a step never returns to its start. */
  lemma NoReturn<T(!new)>(g: Graph<T>, s: seq<T>, path: seq<T>)
    requires TopoOrder(g, s) && IsPath(g, path) && path[0] in s && |path| >= 2
    ensures path[|path| - 1] != path[0]
  {
    PathDescends(g, s, path);
  }

  /** No node listed in a topological order lies on a cycle. */
  lemma TopoOrderAcyclic<T(!new)>(g: Graph<T>, s: seq<T>, x: T)
    requires TopoOrder(g, s) && x in s
    ensures !OnCycle(g, x)
  {
    forall path | IsPath(g, path) && |path| >= 2 && path[0] == x
      ensures path[|path| - 1] != x
    {
      NoReturn(g, s, path);
    }
  }

  /** A topological order holding a node holds all of that node's ancestors. */
  lemma TopoOrderClosed<T(!new)>(g: Graph<T>, s: seq<T>, x: T, y: T)
    requires TopoOrder(g, s) && x in s && Reaches(g, x, y)
    ensures y in s
  {
    var path :| IsPath(g, path) && path[0] == x && path[|path| - 1] == y;
    PathDescends(g, s, path);
  }

  /** A path from a node without parents goes nowhere. */
  lemma PathFromLeaf<T(!new)>(g: Graph<T>, path: seq<T>)
    requires IsPath(g, path) && g[path[0]] == []
    ensures |path| == 1
  {
    if |path| >= 2 {
      PathSecond(g, path);
      assert false;
    }
  }

  lemma PathSecond<T(!new)>(g: Graph<T>, path: seq<T>)
    requires IsPath(g, path) && |path| >= 2
    ensures path[1] in g[path[0]]
  {
  }

  /** From roots that have no parents nothing but the roots themselves is reachable. */
  lemma LeafRootsReachThemselves<T(!new)>(g: Graph<T>, roots: seq<T>)
    requires forall r :: r in roots ==> r in g && g[r] == []
    ensures forall x :: ReachableFrom(g, roots, x) <==> x in roots
  {
    forall x | ReachableFrom(g, roots, x)
      ensures x in roots
    {
      var r :| r in roots && Reaches(g, r, x);
      var path :| IsPath(g, path) && path[0] == r && path[|path| - 1] == x;
      PathFromLeaf(g, path);
    }
    forall x | x in roots
      ensures ReachableFrom(g, roots, x)
    {
      ReachesRefl(g, x);
    }
  }
}
