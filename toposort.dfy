/**
 * The depth-first topological sort with cycle detection (`toposort`) and
 * the parent-to-children index built on it (`get_child_map`).
 *
 * The source's nested `visit` closure shares two variables with its caller:
 * the set of objects on the current path (`marked_objs`) and the output list
 * (`sorted_objs`).  Here `Visit` takes the first as a parameter (the source
 * always removes what it added, so the set is the same after every call that
 * returns) and threads the second in and out.  A raised `RuntimeError` is an
 * `Err` carrying the object that was met again.
 */
module Toposort {
  import opened Wrappers
  import opened Graphs

  /**
   * One call of `visit(obj, ...)`.  `stack` is the current depth-first path,
   * whose nodes are exactly `marked`; `obj` is a parent of its last node.
   */
  method Visit<T(==, !new)>(g: Graph<T>, obj: T, marked: set<T>, sorted: seq<T>, ghost stack: seq<T>)
    returns (r: Result<seq<T>, T>)
    requires Closed(g) && obj in g
    requires TopoOrder(g, sorted)
    requires forall x :: x in marked <==> x in stack
    requires forall x :: x in marked ==> x !in sorted
    requires IsPath(g, stack + [obj])
    decreases g.Keys - marked
    ensures r.Ok? ==> TopoOrder(g, r.value) && sorted <= r.value && obj in r.value
    ensures r.Ok? ==> forall x :: x in r.value && x !in sorted ==> Reaches(g, obj, x)
    ensures r.Ok? ==> forall x :: x in marked ==> x !in r.value
    ensures r.Err? ==> OnCycle(g, r.error) && Reaches(g, (stack + [obj])[0], r.error)
  {
    if obj in marked {
      CycleOnStack(g, stack, obj);
      return Err(obj);
    }
    if obj in sorted {
      return Ok(sorted);
    }
    var parents := g[obj];
    var s := sorted;
    var i := 0;
    while i < |parents|
      invariant 0 <= i <= |parents|
      invariant TopoOrder(g, s) && sorted <= s
      invariant forall x :: x in s && x !in sorted ==> Reaches(g, obj, x)
      invariant forall x :: x in marked + {obj} ==> x !in s
      invariant forall j :: 0 <= j < i ==> parents[j] in s
    {
      var p := parents[i];
      PathExtend(g, stack + [obj], p);
      var sub := Visit(g, p, marked + {obj}, s, stack + [obj]);
      if sub.Err? {
        assert (stack + [obj] + [p])[0] == (stack + [obj])[0];
        return Err(sub.error);
      }
      forall x | x in sub.value && x !in sorted
        ensures Reaches(g, obj, x)
      {
        if x !in s {
          ReachesStep(g, obj, p, x);
        }
      }
      s := sub.value;
      i := i + 1;
    }
    ReachesRefl(g, obj);
    TopoOrderAppend(g, s, obj);
    r := Ok(s + [obj]);
  }

  /**
   * `toposort(objs, parent_func)`: the roots are taken from the end, each is
   * visited, and the objects come out in depth-first post-order.  The result
   * is a topological order of exactly the objects reachable from the roots,
   * and it is an error exactly when a cycle is reachable from a root.
   */
  method Sort<T(==, !new)>(g: Graph<T>, roots: seq<T>) returns (r: Result<seq<T>, T>)
    requires Closed(g) && forall x :: x in roots ==> x in g
    ensures r.Ok? ==> TopoOrder(g, r.value)
    ensures r.Ok? ==> forall x :: x in r.value <==> ReachableFrom(g, roots, x)
    ensures r.Err? ==> ReachableFrom(g, roots, r.error) && OnCycle(g, r.error)
    ensures r.Ok? <==> !CycleReachable(g, roots)
  {
    var unvisited := roots;
    var sorted: seq<T> := [];
    while unvisited != []
      invariant |unvisited| <= |roots| && unvisited == roots[..|unvisited|]
      invariant TopoOrder(g, sorted)
      invariant forall x :: x in sorted ==> ReachableFrom(g, roots, x)
      invariant forall x :: x in roots[|unvisited|..] ==> x in sorted
    {
      var obj := unvisited[|unvisited| - 1];
      unvisited := unvisited[..|unvisited| - 1];
      assert obj == roots[|unvisited|] && obj in roots;
      assert IsPath(g, [] + [obj]);
      var res := Visit(g, obj, {}, sorted, []);
      if res.Err? {
        assert ReachableFrom(g, roots, res.error);
        return Err(res.error);
      }
      forall x | x in roots[|unvisited|..]
        ensures x in res.value
      {
        if x != obj {
          assert x in roots[|unvisited| + 1..];
        }
      }
      forall x | x in res.value
        ensures ReachableFrom(g, roots, x)
      {
        if x !in sorted {
          assert Reaches(g, obj, x);
        }
      }
      sorted := res.value;
    }
    forall x | ReachableFrom(g, roots, x)
      ensures x in sorted
    {
      var root :| root in roots && Reaches(g, root, x);
      TopoOrderClosed(g, sorted, root, x);
    }
    forall x | ReachableFrom(g, roots, x)
      ensures !OnCycle(g, x)
    {
      TopoOrderAcyclic(g, sorted, x);
    }
    r := Ok(sorted);
  }

  /**
   * `get_child_map(objs, parent_func)`: for every object the toposort lists
   * and every parent of it, the object is added to the parent's child set.
   */
  method ChildMap<T(==, !new)>(g: Graph<T>, roots: seq<T>) returns (r: Result<map<T, set<T>>, T>)
    requires Closed(g) && forall x :: x in roots ==> x in g
    ensures r.Ok? <==> !CycleReachable(g, roots)
    ensures r.Ok? ==> forall p, c :: (p in r.value && c in r.value[p]) <==> (ReachableFrom(g, roots, c) && p in g[c])
    ensures r.Ok? ==> forall p :: p in r.value ==> r.value[p] != {}
  {
    var sortedR := Sort(g, roots);
    if sortedR.Err? {
      return Err(sortedR.error);
    }
    var sorted := sortedR.value;
    var children: map<T, set<T>> := map[];
    ghost var done: set<T> := {};
    for i := 0 to |sorted|
      invariant forall c :: c in done <==> c in sorted[..i]
      invariant ChildIndex(g, done, children)
    {
      var obj := sorted[i];
      children := AddChildren(g, done, obj, children);
      FinishChildren(g, done, obj, children);
      done := done + {obj};
      assert sorted[..i + 1] == sorted[..i] + [obj];
    }
    assert sorted[..|sorted|] == sorted;
    r := Ok(children);
  }

  /** One pass of the loop of `get_child_map`: `obj` entered as a child of each of its parents. */
  method AddChildren<T(==, !new)>(g: Graph<T>, ghost done: set<T>, obj: T, children: map<T, set<T>>)
    returns (children': map<T, set<T>>)
    requires obj in g && ChildIndex(g, done, children)
    ensures PartialChildIndex(g, done, obj, g[obj], children')
  {
    var parents := g[obj];
    children' := children;
    for j := 0 to |parents|
      invariant PartialChildIndex(g, done, obj, parents[..j], children')
    {
      var p := parents[j];
      var siblings := if p in children' then children'[p] else {};
      AddChild(g, done, obj, parents[..j], children', p);
      children' := children'[p := siblings + {obj}];
      assert parents[..j + 1] == parents[..j] + [p];
    }
    assert parents[..|parents|] == parents;
  }

  /** `children` maps each parent of a node in `nodes` to the non-empty set of those nodes it is a parent of. */
  ghost predicate ChildIndex<T(!new)>(g: Graph<T>, nodes: set<T>, children: map<T, set<T>>) {
    && (forall c :: c in nodes ==> c in g)
    && (forall p, c :: p in children && c in children[p] ==> c in nodes && p in g[c])
    && (forall p, c :: c in nodes && p in g[c] ==> p in children && c in children[p])
    && (forall p :: p in children ==> children[p] != {})
  }

  /** `ChildIndex` for `nodes`, with `obj` already entered under the parents in `added`. */
  ghost predicate PartialChildIndex<T(!new)>(g: Graph<T>, nodes: set<T>, obj: T, added: seq<T>, children: map<T, set<T>>) {
    && (forall c :: c in nodes ==> c in g)
    && (forall p, c :: p in children && c in children[p] ==> (c in nodes && p in g[c]) || (c == obj && p in added))
    && (forall p, c :: c in nodes && p in g[c] ==> p in children && c in children[p])
    && (forall p :: p in added ==> p in children && obj in children[p])
    && (forall p :: p in children ==> children[p] != {})
  }

  lemma AddChild<T(!new)>(g: Graph<T>, nodes: set<T>, obj: T, added: seq<T>, children: map<T, set<T>>, p: T)
    requires PartialChildIndex(g, nodes, obj, added, children)
    ensures PartialChildIndex(g, nodes, obj, added + [p],
      children[p := (if p in children then children[p] else {}) + {obj}])
  {
  }

  lemma FinishChildren<T(!new)>(g: Graph<T>, nodes: set<T>, obj: T, children: map<T, set<T>>)
    requires obj in g && PartialChildIndex(g, nodes, obj, g[obj], children)
    ensures ChildIndex(g, nodes + {obj}, children)
  {
  }

  /** The node met again lies on the current path, so it is on a cycle reachable from the path's start. */
  lemma CycleOnStack<T(!new)>(g: Graph<T>, stack: seq<T>, obj: T)
    requires IsPath(g, stack + [obj]) && obj in stack
    ensures OnCycle(g, obj) && Reaches(g, (stack + [obj])[0], obj)
  {
    var path := stack + [obj];
    var k :| 0 <= k < |stack| && stack[k] == obj;
    var cycle := path[k..];
    forall i | 0 < i < |cycle|
      ensures cycle[i] in g[cycle[i - 1]]
    {
      assert cycle[i] == path[k + i] && cycle[i - 1] == path[k + i - 1];
    }
    assert IsPath(g, cycle);
    var lead := path[..k + 1];
    assert IsPath(g, lead);
  }

  lemma PathExtend<T(!new)>(g: Graph<T>, path: seq<T>, p: T)
    requires Closed(g) && IsPath(g, path) && p in g[path[|path| - 1]]
    ensures IsPath(g, path + [p])
  {
  }

  lemma TopoOrderAppend<T(!new)>(g: Graph<T>, s: seq<T>, obj: T)
    requires TopoOrder(g, s) && obj in g && obj !in s
    requires forall p :: p in g[obj] ==> p in s
    ensures TopoOrder(g, s + [obj])
  {
    var s' := s + [obj];
    assert s'[..|s|] == s;
    forall i, p | 0 <= i < |s'| && p in g[s'[i]]
      ensures p in s'[..i]
    {
      if i < |s| {
        assert s'[..i] == s[..i];
      }
    }
  }
}
