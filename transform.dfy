/**
 * `transform`: a bottom-up fold over the toposort of the roots, with
 * incremental seeding, and its projections `transform_vertices` and
 * `transform_edges`.
 *
 * Objects that are keys of the seed map are leaves for the traversal and
 * keep their seed value; every other object gets one edge value per parent,
 * `edge_func(parent, obj, value of parent)`, and then the vertex value
 * `vertex_func(obj, those edge values in parent order)`.  The callbacks are
 * pure functions here.
 */
module Transform {
  import opened Wrappers
  import opened Graphs
  import Toposort

  /** The parent function the fold traverses with: seeded objects have no parents. */
  function Seeded<T, V>(g: Graph<T>, seed: map<T, V>): (sg: Graph<T>)
    ensures sg.Keys == g.Keys
    ensures forall x :: x in sg && x in seed ==> sg[x] == []
    ensures forall x :: x in sg && x !in seed ==> sg[x] == g[x]
  {
    map x | x in g :: if x in seed then [] else g[x]
  }

  /** The default `edge_func`: the edge value is the parent's value. */
  function PassValue<T, V>(parent: T, obj: T, parentValue: V): V {
    parentValue
  }

  /** With the default `edge_func`, an object's edge values are its parents' values, in parent order. */
  lemma DefaultEdgeValues<T, V>(parents: seq<T>, obj: T, vm: map<T, V>)
    requires forall p :: p in parents ==> p in vm
    ensures EdgeValues(parents, obj, vm, PassValue) == ParentValues(parents, vm)
  {
  }

  /** The default `vertex_func`, which yields `None` for every object. */
  function NoValue<T, E>(obj: T, edgeValues: seq<E>): () {
    ()
  }

  /** The edge values of `obj`, one per parent in `parents`, in order. */
  function EdgeValues<T, V, E>(parents: seq<T>, obj: T, vm: map<T, V>, ef: (T, T, V) -> E): (es: seq<E>)
    requires forall p :: p in parents ==> p in vm
    ensures |es| == |parents|
    ensures forall j :: 0 <= j < |parents| ==> es[j] == ef(parents[j], obj, vm[parents[j]])
  {
    if parents == [] then []
    else EdgeValues(parents[..|parents| - 1], obj, vm, ef) + [ef(parents[|parents| - 1], obj, vm[parents[|parents| - 1]])]
  }

  /** The values of `parents` in `vm`, in order. */
  function ParentValues<T, V>(parents: seq<T>, vm: map<T, V>): (vs: seq<V>)
    requires forall p :: p in parents ==> p in vm
    ensures |vs| == |parents| && forall j :: 0 <= j < |parents| ==> vs[j] == vm[parents[j]]
  {
    if parents == [] then [] else [vm[parents[0]]] + ParentValues(parents[1..], vm)
  }

  /**
   * The fold's equations: a seeded object keeps its seed value; any other
   * object has all its parents in the map and the value `vf` gives it from
   * its edge values.
   */
  ghost predicate FoldEquations<T(!new), V, E>(g: Graph<T>, seed: map<T, V>, vf: (T, seq<E>) -> V,
                                               ef: (T, T, V) -> E, vm: map<T, V>) {
    forall x :: x in vm ==>
      && (x in seed ==> vm[x] == seed[x])
      && (x !in seed ==> && x in g && (forall p :: p in g[x] ==> p in vm)
                         && vm[x] == vf(x, EdgeValues(g[x], x, vm, ef)))
  }

  /**
   * The edge map holds one entry per parent of each non-seeded object of
   * `vm`, and nothing else; each entry is `ef` of the parent, the object and
   * the parent's value.
   */
  ghost predicate EdgeEquations<T(!new), V, E>(g: Graph<T>, seed: map<T, V>, ef: (T, T, V) -> E,
                                               vm: map<T, V>, em: map<(T, T), E>) {
    && (forall p, x :: (p, x) in em ==> x in vm && x !in seed && x in g && p in g[x])
    && (forall p, x :: x in vm && x !in seed && x in g && p in g[x] ==> (p, x) in em)
    && (forall p, x :: (p, x) in em ==> p in vm && em[(p, x)] == ef(p, x, vm[p]))
  }

  /** `EdgeEquations`, while the edges of `obj` are being entered: those of the parents in `added` are in. */
  ghost predicate PartialEdges<T(!new), V, E>(g: Graph<T>, seed: map<T, V>, ef: (T, T, V) -> E,
                                              vm: map<T, V>, obj: T, added: seq<T>, em: map<(T, T), E>) {
    && (forall p, x :: (p, x) in em ==> (x in vm && x !in seed && x in g && p in g[x]) || (x == obj && p in added))
    && (forall p, x :: x in vm && x !in seed && x in g && p in g[x] ==> (p, x) in em)
    && (forall p :: p in added ==> (p, obj) in em)
    && (forall p, x :: (p, x) in em ==> p in vm && em[(p, x)] == ef(p, x, vm[p]))
  }

  /**
   * `transform(objs, parent_func, vertex_func, edge_func, vertex_map)`.
   * The ghost `order` is the toposort the fold ran over.
   */
  method Transform<T(==, !new), V, E>(g: Graph<T>, roots: seq<T>, vf: (T, seq<E>) -> V, ef: (T, T, V) -> E,
                                      seed: map<T, V>)
    returns (r: Result<(map<T, V>, map<(T, T), E>), T>, ghost order: seq<T>)
    requires Closed(g) && forall x :: x in roots ==> x in g
    ensures r.Ok? <==> !CycleReachable(Seeded(g, seed), roots)
    ensures r.Err? ==> ReachableFrom(Seeded(g, seed), roots, r.error) && OnCycle(Seeded(g, seed), r.error)
    ensures r.Ok? ==> forall x :: x in r.value.0 <==> ReachableFrom(Seeded(g, seed), roots, x)
    ensures r.Ok? ==> FoldEquations(g, seed, vf, ef, r.value.0)
    ensures r.Ok? ==> EdgeEquations(g, seed, ef, r.value.0, r.value.1)
    ensures r.Ok? ==> TopoOrder(Seeded(g, seed), order) && forall x :: x in r.value.0 <==> x in order
  {
    var sg := Seeded(g, seed);
    SeededClosed(g, seed);
    var sortedR := Toposort.Sort(sg, roots);
    if sortedR.Err? {
      return Err(sortedR.error), [];
    }
    var sorted := sortedR.value;
    var maps := FoldSorted(g, seed, vf, ef, sorted);
    r, order := Ok(maps), sorted;
  }

  /**
   * The fold loop of `transform` over `sorted`, a toposort under the seeded
   * parent function: the vertex map gets exactly the objects of `sorted`,
   * and both maps satisfy the fold equations.
   */
  method FoldSorted<T(==, !new), V, E>(g: Graph<T>, seed: map<T, V>, vf: (T, seq<E>) -> V, ef: (T, T, V) -> E,
                                       sorted: seq<T>)
    returns (maps: (map<T, V>, map<(T, T), E>))
    requires TopoOrder(Seeded(g, seed), sorted)
    ensures forall x :: x in maps.0 <==> x in sorted
    ensures FoldEquations(g, seed, vf, ef, maps.0)
    ensures EdgeEquations(g, seed, ef, maps.0, maps.1)
  {
    var sg := Seeded(g, seed);
    var vm: map<T, V> := map[];
    var em: map<(T, T), E> := map[];
    for i := 0 to |sorted|
      invariant forall x :: x in vm <==> x in sorted[..i]
      invariant FoldEquations(g, seed, vf, ef, vm)
      invariant EdgeEquations(g, seed, ef, vm, em)
    {
      var obj := sorted[i];
      assert obj !in sorted[..i];
      assert forall p :: p in sg[sorted[i]] ==> p in sorted[..i];
      var value;
      value, em := VisitObject(g, seed, vf, ef, vm, em, obj);
      FoldExtend(g, seed, vf, ef, vm, obj, value);
      vm := vm[obj := value];
      PrefixStep(sorted, i);
    }
    assert sorted[..|sorted|] == sorted;
    maps := (vm, em);
  }

  /**
   * One pass of the fold loop: the value of `obj`, and the edge map with
   * `obj`'s edges added.  Every parent of `obj` already has its value.
   */
  method VisitObject<T(==, !new), V, E>(g: Graph<T>, seed: map<T, V>, vf: (T, seq<E>) -> V, ef: (T, T, V) -> E,
                                        vm: map<T, V>, em: map<(T, T), E>, obj: T)
    returns (value: V, em': map<(T, T), E>)
    requires obj in g && obj !in vm
    requires obj !in seed ==> forall p :: p in g[obj] ==> p in vm
    requires EdgeEquations(g, seed, ef, vm, em)
    ensures obj in seed ==> value == seed[obj]
    ensures obj !in seed ==> value == vf(obj, EdgeValues(g[obj], obj, vm, ef))
    ensures EdgeEquations(g, seed, ef, vm[obj := value], em')
  {
    if obj in seed {
      value := seed[obj];
      SeededEdgesKept(g, seed, ef, vm, em, obj, value);
      return value, em;
    }
    var edgeValues;
    edgeValues, em' := EnterEdges(g, seed, ef, vm, em, obj);
    value := vf(obj, edgeValues);
    FinishEdges(g, seed, ef, vm, em', obj, value);
  }

  /** The inner loop of one pass: an edge value per parent of `obj`, each also entered in the edge map. */
  method EnterEdges<T(==, !new), V, E>(g: Graph<T>, seed: map<T, V>, ef: (T, T, V) -> E,
                                       vm: map<T, V>, em: map<(T, T), E>, obj: T)
    returns (edgeValues: seq<E>, em': map<(T, T), E>)
    requires obj in g && obj !in seed && obj !in vm
    requires forall p :: p in g[obj] ==> p in vm
    requires EdgeEquations(g, seed, ef, vm, em)
    ensures edgeValues == EdgeValues(g[obj], obj, vm, ef)
    ensures PartialEdges(g, seed, ef, vm, obj, g[obj], em')
  {
    var parents := g[obj];
    edgeValues := [];
    em' := em;
    StartEdges(g, seed, ef, vm, em, obj);
    for j := 0 to |parents|
      invariant edgeValues == EdgeValues(parents[..j], obj, vm, ef)
      invariant PartialEdges(g, seed, ef, vm, obj, parents[..j], em')
    {
      var p := parents[j];
      var e := ef(p, obj, vm[p]);
      AddEdge(g, seed, ef, vm, obj, parents[..j], em', p);
      em' := em'[(p, obj) := e];
      assert parents[..j + 1][..j] == parents[..j];
      edgeValues := edgeValues + [e];
      assert parents[..j + 1] == parents[..j] + [p];
    }
    assert parents[..|parents|] == parents;
  }

  /**
   * `transform_vertices`: the fold with the default edge function, so each
   * object's value is computed from its parents' values.
   */
  method TransformVertices<T(==, !new), V>(g: Graph<T>, roots: seq<T>, vf: (T, seq<V>) -> V, seed: map<T, V>)
    returns (r: Result<map<T, V>, T>)
    requires Closed(g) && forall x :: x in roots ==> x in g
    ensures r.Ok? <==> !CycleReachable(Seeded(g, seed), roots)
    ensures r.Ok? ==> forall x :: x in r.value <==> ReachableFrom(Seeded(g, seed), roots, x)
    ensures r.Ok? ==> forall x :: x in r.value && x in seed ==> r.value[x] == seed[x]
    ensures r.Ok? ==> forall x :: x in r.value && x !in seed ==>
      && x in g && (forall p :: p in g[x] ==> p in r.value)
      && r.value[x] == vf(x, ParentValues(g[x], r.value))
  {
    var res, order := Transform(g, roots, vf, PassValue, seed);
    if res.Err? {
      return Err(res.error);
    }
    var vm := res.value.0;
    forall x | x in vm && x !in seed
      ensures vm[x] == vf(x, ParentValues(g[x], vm))
    {
      DefaultEdgeValues(g[x], x, vm);
    }
    r := Ok(vm);
  }

  /**
   * `transform_edges`: the fold with the default vertex function and no
   * seed, projected to its edge map; every edge value is computed from the
   * parent's `None` value.
   */
  method TransformEdges<T(==, !new), E>(g: Graph<T>, roots: seq<T>, ef: (T, T, ()) -> E)
    returns (r: Result<map<(T, T), E>, T>)
    requires Closed(g) && forall x :: x in roots ==> x in g
    ensures r.Ok? <==> !CycleReachable(g, roots)
    ensures r.Ok? ==> forall p, x :: (p, x) in r.value <==> ReachableFrom(g, roots, x) && p in g[x]
    ensures r.Ok? ==> forall p, x :: (p, x) in r.value ==> r.value[(p, x)] == ef(p, x, ())
  {
    var noSeed: map<T, ()> := map[];
    assert Seeded(g, noSeed) == g;
    var res, order := Transform(g, roots, NoValue, ef, noSeed);
    if res.Err? {
      return Err(res.error);
    }
    forall p, x | ReachableFrom(g, roots, x) && p in g[x]
      ensures (p, x) in res.value.1
    {
      assert x in res.value.0;
    }
    r := Ok(res.value.1);
  }

  lemma SeededClosed<T(!new), V>(g: Graph<T>, seed: map<T, V>)
    requires Closed(g)
    ensures Closed(Seeded(g, seed))
  {
  }

  lemma {:induction false} EdgeValuesFrame<T, V, E>(parents: seq<T>, obj: T, vm: map<T, V>, vm': map<T, V>, ef: (T, T, V) -> E)
    requires forall p :: p in parents ==> p in vm && p in vm' && vm[p] == vm'[p]
    ensures EdgeValues(parents, obj, vm, ef) == EdgeValues(parents, obj, vm', ef)
  {
  }

  /** Adding an object whose value satisfies its own equation keeps the equations of the others. */
  lemma FoldExtend<T(!new), V, E>(g: Graph<T>, seed: map<T, V>, vf: (T, seq<E>) -> V, ef: (T, T, V) -> E,
                                  vm: map<T, V>, obj: T, value: V)
    requires FoldEquations(g, seed, vf, ef, vm) && obj !in vm
    requires obj in seed ==> value == seed[obj]
    requires obj !in seed ==> && obj in g && (forall p :: p in g[obj] ==> p in vm)
                              && value == vf(obj, EdgeValues(g[obj], obj, vm, ef))
    ensures FoldEquations(g, seed, vf, ef, vm[obj := value])
  {
    var vm' := vm[obj := value];
    forall x | x in vm' && x !in seed
      ensures vm'[x] == vf(x, EdgeValues(g[x], x, vm', ef))
    {
      EdgeValuesFrame(g[x], x, vm, vm', ef);
    }
  }

  lemma SeededEdgesKept<T(!new), V, E>(g: Graph<T>, seed: map<T, V>, ef: (T, T, V) -> E,
                                       vm: map<T, V>, em: map<(T, T), E>, obj: T, value: V)
    requires EdgeEquations(g, seed, ef, vm, em) && obj in seed && obj !in vm
    ensures EdgeEquations(g, seed, ef, vm[obj := value], em)
  {
  }

  lemma StartEdges<T(!new), V, E>(g: Graph<T>, seed: map<T, V>, ef: (T, T, V) -> E,
                                  vm: map<T, V>, em: map<(T, T), E>, obj: T)
    requires EdgeEquations(g, seed, ef, vm, em)
    ensures PartialEdges(g, seed, ef, vm, obj, [], em)
  {
  }

  lemma AddEdge<T(!new), V, E>(g: Graph<T>, seed: map<T, V>, ef: (T, T, V) -> E,
                               vm: map<T, V>, obj: T, added: seq<T>, em: map<(T, T), E>, p: T)
    requires PartialEdges(g, seed, ef, vm, obj, added, em) && p in vm && obj !in vm
    ensures PartialEdges(g, seed, ef, vm, obj, added + [p], em[(p, obj) := ef(p, obj, vm[p])])
  {
  }

  lemma FinishEdges<T(!new), V, E>(g: Graph<T>, seed: map<T, V>, ef: (T, T, V) -> E,
                                   vm: map<T, V>, em: map<(T, T), E>, obj: T, value: V)
    requires obj in g && obj !in seed && obj !in vm
    requires PartialEdges(g, seed, ef, vm, obj, g[obj], em)
    ensures EdgeEquations(g, seed, ef, vm[obj := value], em)
  {
  }

  /**
   * Incremental equivalence: where a seeded fold and another fold (for
   * instance one from scratch) overlap, they agree, provided the seed agrees
   * with the other fold and the other fold computes every object the seeded
   * one computes.  This is what lets a previous result serve as the seed.
   */
  lemma SeededFoldAgrees<T(!new), V, E>(g: Graph<T>, seed: map<T, V>, vf: (T, seq<E>) -> V, ef: (T, T, V) -> E,
                                        order: seq<T>, inc: map<T, V>, otherSeed: map<T, V>, other: map<T, V>)
    requires FoldEquations(g, seed, vf, ef, inc) && FoldEquations(g, otherSeed, vf, ef, other)
    requires TopoOrder(Seeded(g, seed), order) && forall x :: x in inc <==> x in order
    requires forall x :: x in inc ==> x in other
    requires forall x :: x in inc && x in seed ==> seed[x] == other[x]
    requires forall x :: x in inc && x !in seed ==> x !in otherSeed
    ensures forall x :: x in inc ==> inc[x] == other[x]
  {
    AgreeUpTo(g, seed, vf, ef, order, inc, otherSeed, other, |order|);
    forall x | x in inc
      ensures inc[x] == other[x]
    {
      var i :| 0 <= i < |order| && order[i] == x;
    }
  }

  lemma {:induction false} AgreeUpTo<T(!new), V, E>(g: Graph<T>, seed: map<T, V>, vf: (T, seq<E>) -> V, ef: (T, T, V) -> E,
                                                    order: seq<T>, inc: map<T, V>, otherSeed: map<T, V>, other: map<T, V>, k: nat)
    requires FoldEquations(g, seed, vf, ef, inc) && FoldEquations(g, otherSeed, vf, ef, other)
    requires TopoOrder(Seeded(g, seed), order) && forall x :: x in inc <==> x in order
    requires forall x :: x in inc ==> x in other
    requires forall x :: x in inc && x in seed ==> seed[x] == other[x]
    requires forall x :: x in inc && x !in seed ==> x !in otherSeed
    requires k <= |order|
    ensures forall i :: 0 <= i < k ==> order[i] in inc && order[i] in other && inc[order[i]] == other[order[i]]
  {
    if k > 0 {
      AgreeUpTo(g, seed, vf, ef, order, inc, otherSeed, other, k - 1);
      var x := order[k - 1];
      if x !in seed {
        ParentsAgree(Seeded(g, seed), order, inc, other, k);
        assert Seeded(g, seed)[x] == g[x];
      }
      AgreeAt(g, seed, vf, ef, inc, otherSeed, other, x);
      ExtendAgreement(order, inc, other, k);
    }
  }

  /** In a toposort, the parents of the `k`-th object come before it, so agreement on a prefix covers them. */
  lemma ParentsAgree<T(!new), V>(g: Graph<T>, order: seq<T>, inc: map<T, V>, other: map<T, V>, k: nat)
    requires TopoOrder(g, order) && 0 < k <= |order|
    requires forall i :: 0 <= i < k - 1 ==> order[i] in inc && order[i] in other && inc[order[i]] == other[order[i]]
    ensures forall p :: p in g[order[k - 1]] ==> p in inc && p in other && inc[p] == other[p]
  {
    forall p | p in g[order[k - 1]]
      ensures p in inc && p in other && inc[p] == other[p]
    {
      assert p in order[..k - 1];
      var j :| 0 <= j < k - 1 && order[j] == p;
    }
  }

  lemma ExtendAgreement<T, V>(order: seq<T>, inc: map<T, V>, other: map<T, V>, k: nat)
    requires 0 < k <= |order|
    requires forall i :: 0 <= i < k - 1 ==> order[i] in inc && order[i] in other && inc[order[i]] == other[order[i]]
    requires order[k - 1] in inc && order[k - 1] in other && inc[order[k - 1]] == other[order[k - 1]]
    ensures forall i :: 0 <= i < k ==> order[i] in inc && order[i] in other && inc[order[i]] == other[order[i]]
  {
  }

  /** Two folds agree at `x` when they agree on its seed value or on all its parents. */
  lemma AgreeAt<T(!new), V, E>(g: Graph<T>, seed: map<T, V>, vf: (T, seq<E>) -> V, ef: (T, T, V) -> E,
                               inc: map<T, V>, otherSeed: map<T, V>, other: map<T, V>, x: T)
    requires FoldEquations(g, seed, vf, ef, inc) && FoldEquations(g, otherSeed, vf, ef, other)
    requires x in inc && x in other
    requires x in seed ==> seed[x] == other[x]
    requires x !in seed ==> x !in otherSeed
    requires x !in seed ==> forall p :: p in g[x] ==> p in inc && p in other && inc[p] == other[p]
    ensures inc[x] == other[x]
  {
    if x !in seed {
      EdgeValuesFrame(g[x], x, inc, other, ef);
    }
  }

  /**
   * Transform idempotence: the fold's equations, over a toposort, determine
   * the vertex map, and the vertex map determines the edge map.
   */
  lemma FoldUnique<T(!new), V, E>(g: Graph<T>, seed: map<T, V>, vf: (T, seq<E>) -> V, ef: (T, T, V) -> E,
                                  order: seq<T>, vm1: map<T, V>, em1: map<(T, T), E>, vm2: map<T, V>, em2: map<(T, T), E>)
    requires FoldEquations(g, seed, vf, ef, vm1) && EdgeEquations(g, seed, ef, vm1, em1)
    requires FoldEquations(g, seed, vf, ef, vm2) && EdgeEquations(g, seed, ef, vm2, em2)
    requires TopoOrder(Seeded(g, seed), order) && forall x :: x in vm1 <==> x in order
    requires vm1.Keys == vm2.Keys
    ensures vm1 == vm2 && em1 == em2
  {
    SeededFoldAgrees(g, seed, vf, ef, order, vm1, seed, vm2);
    forall e | e in em1
      ensures e in em2 && em1[e] == em2[e]
    {
      assert e == (e.0, e.1);
    }
    forall e | e in em2
      ensures e in em1
    {
      assert e == (e.0, e.1);
    }
  }

  /**
   * A full memoisation hit: when every root is a seed key, the fold visits
   * only the roots, takes every value from the seed, and computes no edge.
   */
  lemma FullSeedHit<T(!new), V, E>(g: Graph<T>, seed: map<T, V>, vf: (T, seq<E>) -> V, ef: (T, T, V) -> E,
                                   roots: seq<T>, vm: map<T, V>, em: map<(T, T), E>)
    requires forall r :: r in roots ==> r in g && r in seed
    requires forall x :: x in vm <==> ReachableFrom(Seeded(g, seed), roots, x)
    requires FoldEquations(g, seed, vf, ef, vm) && EdgeEquations(g, seed, ef, vm, em)
    ensures forall x :: x in vm <==> x in roots
    ensures forall x :: x in vm ==> vm[x] == seed[x]
    ensures em == map[]
  {
    var sg := Seeded(g, seed);
    assert forall r :: r in roots ==> r in sg && sg[r] == [];
    LeafRootsReachThemselves(sg, roots);
    NoEdgesIntoSeeds(g, seed, ef, vm, em);
  }

  lemma NoEdgesIntoSeeds<T(!new), V, E>(g: Graph<T>, seed: map<T, V>, ef: (T, T, V) -> E,
                                        vm: map<T, V>, em: map<(T, T), E>)
    requires EdgeEquations(g, seed, ef, vm, em) && forall x :: x in vm ==> x in seed
    ensures em == map[]
  {
    forall e
      ensures e !in em
    {
      assert e == (e.0, e.1);
    }
  }

  /** The largest element, as Python's `max`. */
  function Max(s: seq<int>): (m: int)
    requires s != []
    ensures m in s && forall x :: x in s ==> x <= m
  {
    if |s| == 1 then s[0]
    else
      var rest := Max(s[1..]);
      assert forall x :: x in s ==> x == s[0] || x in s[1..];
      if s[0] >= rest then s[0] else rest
  }

  /** The rank function of the fold in the source's tests: one more than the largest parent rank, or 0. */
  function Rank<T>(obj: T, parentRanks: seq<int>): (r: int)
    ensures parentRanks == [] ==> r == 0
    ensures parentRanks != [] ==> r - 1 in parentRanks
    ensures forall x :: x in parentRanks ==> x < r
  {
    if |parentRanks| > 0 then Max(parentRanks) + 1 else 0
  }

  /** The graph of the source's fold test, vertex `vN` as the number `N`. */
  const RankGraph: Graph<int> := map[3 := [], 4 := [3], 5 := [3], 6 := [5], 7 := [5], 8 := [],
                                     9 := [4, 6, 7], 10 := [3, 8], 11 := []]

  /** The vertex values of the rank fold in the source's test. */
  const RankValues: map<int, int> := map[3 := 0, 4 := 1, 5 := 1, 6 := 2, 7 := 2, 8 := 0, 9 := 3, 10 := 1, 11 := 0]

  /** The edge values of the rank fold in the source's test. */
  const RankEdges: map<(int, int), int> := map[(3, 4) := 0, (3, 5) := 0, (3, 10) := 0, (4, 9) := 1, (5, 6) := 1,
                                               (5, 7) := 1, (6, 9) := 2, (7, 9) := 2, (8, 10) := 0]

  /**
   * The expected maps of the source's rank test solve the fold equations;
   * with `FoldUnique` they are the only solution `Transform` can return.
   */
  lemma RankFoldSolution()
    ensures FoldEquations(RankGraph, map[], Rank, PassValue, RankValues)
    ensures EdgeEquations(RankGraph, map[], PassValue, RankValues, RankEdges)
  {
    forall x | x in RankValues
      ensures x in RankGraph && (forall p :: p in RankGraph[x] ==> p in RankValues)
      ensures RankValues[x] == Rank(x, EdgeValues(RankGraph[x], x, RankValues, PassValue))
    {
      RankEquation(x);
    }
    forall p, x | (p, x) in RankEdges
      ensures x in RankValues && x in RankGraph && p in RankGraph[x]
      ensures p in RankValues && RankEdges[(p, x)] == RankValues[p]
    {
      RankEdgeListed(p, x);
    }
    forall p, x | x in RankValues && x in RankGraph && p in RankGraph[x]
      ensures (p, x) in RankEdges
    {
      RankEdgeEntered(p, x);
    }
  }

  /** The rank test's fold, whatever order it ran in, yields exactly the expected maps. */
  lemma RankFoldExample(vm: map<int, int>, em: map<(int, int), int>)
    requires vm.Keys == RankGraph.Keys
    requires FoldEquations(RankGraph, map[], Rank, PassValue, vm)
    requires EdgeEquations(RankGraph, map[], PassValue, vm, em)
    ensures vm == RankValues && em == RankEdges
  {
    RankFoldSolution();
    RankOrder();
    FoldUnique(RankGraph, map[], Rank, PassValue, RankToposort, RankValues, RankEdges, vm, em);
  }

  /** A toposort of the rank test's graph. */
  const RankToposort: seq<int> := [3, 8, 11, 4, 5, 6, 7, 9, 10]

  /** `RankToposort` lists the rank test's objects parents first. */
  lemma RankOrder()
    ensures TopoOrder(Seeded<int, int>(RankGraph, map[]), RankToposort)
    ensures forall x :: x in RankValues <==> x in RankToposort
    ensures RankValues.Keys == RankGraph.Keys
  {
    var order := RankToposort;
    var sg: Graph<int> := Seeded<int, int>(RankGraph, map[]);
    assert sg == RankGraph;
    forall i, p | 0 <= i < |order| && p in sg[order[i]]
      ensures p in order[..i]
    {
      var before := order[..i];
      if i == 3 || i == 4 {
        assert p == 3 && before[0] == 3;
      } else if i == 5 || i == 6 {
        assert p == 5 && before[4] == 5;
      } else if i == 7 {
        assert p == 4 || p == 6 || p == 7;
        assert before[3] == 4 && before[5] == 6 && before[6] == 7;
      } else if i == 8 {
        assert p == 3 || p == 8;
        assert before[0] == 3 && before[1] == 8;
      }
    }
  }

  /** Every edge of the rank test's edge map is a parent link carrying the parent's rank. */
  lemma RankEdgeListed(p: int, x: int)
    requires (p, x) in RankEdges
    ensures x in RankValues && x in RankGraph && p in RankGraph[x]
    ensures p in RankValues && RankEdges[(p, x)] == RankValues[p]
  {
    var e := (p, x);
    assert e in RankEdges.Keys;
    assert e == (3, 4) || e == (3, 5) || e == (3, 10) || e == (4, 9) || e == (5, 6)
        || e == (5, 7) || e == (6, 9) || e == (7, 9) || e == (8, 10);
  }

  /** Every parent link of the rank test is in its edge map. */
  lemma RankEdgeEntered(p: int, x: int)
    requires x in RankValues && x in RankGraph && p in RankGraph[x]
    ensures (p, x) in RankEdges
  {
    assert x in RankValues.Keys;
    if x == 9 {
      assert p == 4 || p == 6 || p == 7;
    } else if x == 10 {
      assert p == 3 || p == 8;
    }
  }

  /** The fold equation of one vertex of the rank test. */
  lemma RankEquation(x: int)
    requires x in RankValues
    ensures x in RankGraph && (forall p :: p in RankGraph[x] ==> p in RankValues)
    ensures RankValues[x] == Rank(x, EdgeValues(RankGraph[x], x, RankValues, PassValue))
  {
    assert x in RankValues.Keys;
    if x == 9 {
      RankEquationOfNine();
    } else if x == 10 {
      RankEquationOfTen();
    } else if x == 3 || x == 8 || x == 11 {
      assert RankGraph[x] == [];
    } else {
      RankEquationOfOneParent(x);
    }
  }

  lemma RankEquationOfOneParent(x: int)
    requires x == 4 || x == 5 || x == 6 || x == 7
    ensures x in RankGraph && (forall p :: p in RankGraph[x] ==> p in RankValues)
    ensures RankValues[x] == Rank(x, EdgeValues(RankGraph[x], x, RankValues, PassValue))
  {
    if x == 4 {
      OneParentRank(RankGraph, RankValues, 4, 3);
    } else if x == 5 {
      OneParentRank(RankGraph, RankValues, 5, 3);
    } else if x == 6 {
      OneParentRank(RankGraph, RankValues, 6, 5);
    } else {
      OneParentRank(RankGraph, RankValues, 7, 5);
    }
  }

  /** A rank one above that of its only parent solves the rank equation. */
  lemma OneParentRank(g: Graph<int>, vm: map<int, int>, x: int, p: int)
    requires x in g && g[x] == [p] && p in vm && x in vm && vm[x] == vm[p] + 1
    ensures (forall q :: q in g[x] ==> q in vm) && vm[x] == Rank(x, EdgeValues(g[x], x, vm, PassValue))
  {
    var es := EdgeValues(g[x], x, vm, PassValue);
    assert es == [vm[p]];
    assert Rank(x, es) - 1 in es;
  }

  lemma RankEquationOfNine()
    ensures 9 in RankGraph && (forall p :: p in RankGraph[9] ==> p in RankValues)
    ensures RankValues[9] == Rank(9, EdgeValues(RankGraph[9], 9, RankValues, PassValue))
  {
    assert RankGraph[9] == [4, 6, 7];
    assert EdgeValues([4, 6, 7], 9, RankValues, PassValue) == [1, 2, 2];
    assert Max([1, 2, 2]) == 2;
  }

  lemma RankEquationOfTen()
    ensures 10 in RankGraph && (forall p :: p in RankGraph[10] ==> p in RankValues)
    ensures RankValues[10] == Rank(10, EdgeValues(RankGraph[10], 10, RankValues, PassValue))
  {
    assert RankGraph[10] == [3, 8];
    assert EdgeValues([3, 8], 10, RankValues, PassValue) == [0, 0];
    assert Max([0, 0]) == 0;
  }

  lemma FoldAt<T(!new), V, E>(g: Graph<T>, seed: map<T, V>, vf: (T, seq<E>) -> V, ef: (T, T, V) -> E,
                              vm: map<T, V>, x: T)
    requires FoldEquations(g, seed, vf, ef, vm) && x in vm && x !in seed
    ensures x in g && (forall p :: p in g[x] ==> p in vm) && vm[x] == vf(x, EdgeValues(g[x], x, vm, ef))
  {
  }
}
