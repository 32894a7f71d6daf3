# daglet core in Dafny

This project models the core of daglet (`daglet/__init__.py`), a small Python
library of DAG utilities, and proves properties of the model. The core has
four parts.

- **`Vertex`** (module `Vertices`, `vertex.dfy`) is an immutable,
  content-addressed node.
  - The constructor rejects a parent that is not a vertex with a `TypeError`.
    It stores the parents sorted by hash and caches a hash of the label, the
    sorted parents and `extra_hash`.
  - All six comparison operators compare hashes only.
  - `clone`, `transplant` and `vertex` build new vertices.
  - The hash primitive `get_hash_int` lives in `daglet/_utils`, which is not
    part of this model. Every builder takes it as a function parameter `h`,
    and nothing is assumed about it.
  - The source's `label` is the field `tag`, because `label` is a Dafny
    keyword.
- **`toposort`** (module `Toposort`, `toposort.dfy`, over the graph notions of
  `graph.dfy`) is a depth-first, post-order topological sort. It raises when it
  meets an object on its current path.
  - The roots are popped from the end of a copy.
  - The recursive `visit` is a recursive method. It takes the marked set,
    threads the output list through, and carries a ghost depth-first stack.
  - `get_child_map` is modelled beside it as `ChildMap`.
  - The caller's `parent_func` is a finite map `Graph<T> = map<T, seq<T>>`,
    closed under parents.
- **`transform`** (module `Transform`, `transform.dfy`) is a bottom-up fold
  over the toposort.
  - Keys of the seed `vertex_map` become leaves and keep their seed values.
  - Every other object gets one edge value per parent,
    `edge_func(parent, obj, value of parent)`, followed by
    `vertex_func(obj, edge values)`.
  - `transform_vertices` and `transform_edges` are its two projections.
  - The fold is specified by its equations (`FoldEquations`, `EdgeEquations`).
    It is proved to satisfy them, and they are proved to determine its result.
- **The multimap utilities** (module `Multimaps`, `multimap.dfy`) are
  `invert_map`, `invert_multimap`, `apply_multi_mapping` and `apply_mapping`.
  - A `defaultdict(set)` filled by `add` is a map whose sets are never empty.
  - The two `KeyError`s of `apply_multi_mapping` are `Conflict` and
    `MissingKey`.
  - `clone_func` is a function parameter; its default is `KeepValue`.
  - `merge_func` is an `Option`.

Exceptions are `Result` values (`wrappers.dfy`). Callbacks (`parent_func`,
`vertex_func`, `edge_func`, `clone_func`, `merge_func`, a function multimap)
are pure Dafny functions.

## Model

| member | source | states |
|---|---|---|
| Vertices.CheckParents | daglet/__init__.py:26-28 | succeeds iff every parent argument is a vertex; on failure, the index of the first non-vertex, all before it being vertices |
| Vertices.SortByHash | daglet/__init__.py:29 | `sorted(parents)`: the result is sorted by hash and is a permutation of the input (as vertices and as hashes) |
| Vertices.NewVertex | daglet/__init__.py:25-33 | the constructor: `TypeError` iff some parent is not a vertex, at the first such one; otherwise same tag and extra hash, parents a hash-sorted permutation of the given ones, hash = `h(tag, parent hashes, extra_hash)` |
| Vertices.NewVertexValid | daglet/__init__.py:25-33 | a vertex built from valid vertices is valid (cached hash consistent, parents sorted, recursively) |
| Vertices.ParentOrderIrrelevant | daglet/__init__.py:29-33 | two parent lists with the same multiset of hashes give `==` vertices, whatever their order |
| Vertices.SwappedParentsEqual | daglet/__init__.py:29-33 | `Vertex(l, [a, b]) == Vertex(l, [b, a])` |
| Vertices.ComparisonsAgree | daglet/__init__.py:47-66 | the six operators, which compare hashes only, form one total preorder: `!=` negates `==`, `<=` is `<` or `==`, `>`/`>=` are the converses, and exactly one of `<`, `==`, `>` holds |
| Vertices.SortSorted | daglet/__init__.py:29 | sorting parents already sorted by hash leaves them unchanged |
| Vertices.Clone | daglet/__init__.py:86-93 | `clone(**kw)`: `TypeError` iff new parents are given and one of them is not a vertex, at the first such one; otherwise tag and extra hash are the given ones or `v`'s, the parents are the new ones (or `v`'s) sorted by hash as a permutation, and the hash is `h` of the result's tag, parent hashes and extra hash |
| Vertices.CloneValid | daglet/__init__.py:86-93 | cloning a valid vertex, with any new parents valid vertices, succeeds and gives a valid vertex |
| Vertices.CloneUnchanged | daglet/__init__.py:86-93 | cloning a valid vertex with no overrides gives back the same vertex |
| Vertices.Transplant | daglet/__init__.py:95-97 | `transplant(ps)`: `TypeError` iff some new parent is not a vertex, at the first such one; otherwise tag and extra hash kept, parents a hash-sorted permutation of `ps`, hash `h` of `v`'s tag, the new parents' hashes and `v`'s extra hash |
| Vertices.Child | daglet/__init__.py:99-108 | `v.vertex(l, e)`: parents exactly `[v]`, the given tag and extra hash, hash `h(l, [hash(v)], e)`, and valid when `v` is |
| Toposort.Visit | daglet/__init__.py:118-132 | one `visit`: on success the output stays a topological order, grows by its old contents as a prefix, contains `obj`, gains only objects reachable from `obj`, and holds no marked object; on failure the reported object lies on a cycle reachable from the path's start |
| Toposort.Sort | daglet/__init__.py:115-138 | `toposort(objs, parent_func)`: fails iff a cycle is reachable from the roots, reporting a reachable object on a cycle; otherwise every object at most once, after all its parents, and exactly the objects reachable from the roots |
| Toposort.ChildMap | daglet/__init__.py:189-195 | `get_child_map`: fails iff a cycle is reachable; otherwise `c in result[p]` iff `c` is reachable from the roots and `p` is a parent of `c`, and no set is empty |
| Toposort.AddChildren | daglet/__init__.py:193-194 | one pass of the loop of `get_child_map`: the object is entered as a child of each of its parents, with the earlier entries kept |
| Toposort.CycleOnStack | daglet/__init__.py:120-122 | meeting an object on the current depth-first path means it lies on a cycle reachable from the path's start |
| Toposort.TopoOrderAppend | daglet/__init__.py:130-132 | appending an object after all its parents keeps a topological order |
| Graphs.TopoOrderAcyclic | daglet/__init__.py:119-132 | no object of a topological order lies on a cycle |
| Graphs.TopoOrderClosed | daglet/__init__.py:124-132 | a topological order holds everything reachable from its objects |
| Graphs.PathDescends | daglet/__init__.py:124-132 | along a path, every later object comes strictly earlier in a topological order |
| Graphs.LeafRootsReachThemselves | daglet/__init__.py:144-146 | when every root has no parents, the reachable objects are exactly the roots |
| Transform.Seeded | daglet/__init__.py:144-146 | the seeded `parent_func`: same objects, no parents for a seeded object, the original parents for any other |
| Transform.DefaultEdgeValues | daglet/__init__.py:147-148 | with the default `edge_func` the edge values are the parents' values, in parent order |
| Transform.EdgeValues | daglet/__init__.py:159-163 | one edge value per parent, in parent order: entry `j` is `edge_func(parents[j], obj, value of parents[j])` |
| Transform.Transform | daglet/__init__.py:141-167 | `transform`: fails iff a cycle is reachable under the seeded parent function; otherwise the vertex map's keys are exactly the objects reachable under it, in a ghost topological order, and both maps satisfy the fold equations (seed values kept, edge and vertex values as computed from the parents) |
| Transform.FoldSorted | daglet/__init__.py:152-167 | the loop of `transform` over a topological order: the vertex map holds exactly the sorted objects, and both maps satisfy the fold equations |
| Transform.VisitObject | daglet/__init__.py:155-165 | one pass of the loop: a seeded object takes its seed value and adds no edge; any other object takes `vertex_func` of its edge values, and its edges are added so that the edge equations hold for the extended vertex map |
| Transform.EnterEdges | daglet/__init__.py:158-163 | the inner loop: the edge values are those of the parents in order, and each is entered in the edge map under `(parent, obj)` |
| Transform.AgreeAt | daglet/__init__.py:155-165 | two folds agree at an object when they agree on its seed value, or on the values of all its parents |
| Transform.TransformVertices | daglet/__init__.py:170-172 | `transform_vertices`: with the default edge function, each non-seeded value is `vertex_func(obj, values of its parents)` |
| Transform.TransformEdges | daglet/__init__.py:175-177 | `transform_edges`: fails iff a cycle is reachable; otherwise the edge map's keys are exactly the (parent, reachable child) pairs, each with `edge_func(p, x, None)` |
| Transform.FoldExtend | daglet/__init__.py:157-165 | adding an object whose value satisfies its own equation keeps the equations of all others |
| Transform.SeededFoldAgrees | daglet/__init__.py:144-156 | incremental seeding: wherever a seeded fold and another fold overlap they agree, if the seed agrees with the other fold and the other fold computes every object the seeded one computes |
| Transform.FoldUnique | daglet/__init__.py:150-167 | the fold equations over a topological order determine the vertex map, and the vertex map determines the edge map |
| Transform.FullSeedHit | daglet/__init__.py:144-156 | when every root is seeded, the vertex map is exactly the roots with their seed values and the edge map is empty |
| Transform.NoEdgesIntoSeeds | daglet/__init__.py:155-156 | when every computed object is seeded, no edge is computed |
| Transform.Rank | tests/test_daglet.py:183 | the test's `vertex_func`: 0 without parents, otherwise one more than the largest parent rank (above every parent rank, one above some parent rank) |
| Transform.Max | tests/test_daglet.py:183 | Python's `max`: an element of the list, at least every element |
| Transform.RankFoldSolution | tests/test_daglet.py:173-206 | the rank test's expected vertex and edge maps satisfy the fold equations for the rank function |
| Transform.RankFoldExample | tests/test_daglet.py:173-206 | any fold result of the rank test over all nine objects equals the expected vertex and edge maps |
| Multimaps.AsSets | daglet/__init__.py:208-209 | the elements of each target list, same keys |
| Multimaps.Inverted | daglet/__init__.py:206-211 | the inverse multimap: `k in inv[v]` iff `v` is a target of `k`, and no set is empty |
| Multimaps.InvertedTwice | daglet/__init__.py:206-211 | inverting twice gives back the multimap, less its keys without targets |
| Multimaps.InvertMap | daglet/__init__.py:198-203 | `invert_map`: `k in inv[v]` iff `m[k] == v`; no set empty; keys are the values of `m`; equals `Inverted` of the singleton multimap |
| Multimaps.InvertInjective | daglet/__init__.py:198-203 | inverting an injective map gives every value exactly the one key mapped to it |
| Multimaps.InvertMultimap | daglet/__init__.py:206-211 | `invert_multimap`: `k in inv[v]` iff `v` is in `multimap[k]`; no set empty; equals `Inverted` |
| Multimaps.SamePairsEqual | daglet/__init__.py:200-211 | two multimaps with non-empty sets and the same (key, element) pairs are equal |
| Multimaps.ResolveKeyMap | daglet/__init__.py:229-232 | a dictionary key map is used as it is; a function key map is applied to exactly the keys of `d` |
| Multimaps.OldValues | daglet/__init__.py:243 | `{k: d[k] for k in old_keys}`: keys `old_keys`, values from `d` |
| Multimaps.ApplyMultiMapping | daglet/__init__.py:214-249 | `apply_multi_mapping`: succeeds iff every new key with several sources has a `merge_func` and every source is in `d`; then the result is the re-keyed dictionary (one source cloned, several merged); an error names a new key with several sources and no `merge_func`, or a source missing from `d` |
| Multimaps.NewValueOf | daglet/__init__.py:238-247 | one pass of the loop: succeeds iff the new key's sources are resolvable, gives the merged or cloned value, and otherwise raises the conflict or the missing key |
| Multimaps.RemappedFrom | daglet/__init__.py:238-248 | a map that gives every new key its value is the re-keyed dictionary |
| Multimaps.RemappedKeys | daglet/__init__.py:237-249 | the result's keys are exactly the union of all target keys |
| Multimaps.SingleSourceCloned | daglet/__init__.py:234-247 | a new key with one source gets `clone_func(old, new, d[old])`; with the default, `d[old]` |
| Multimaps.SeveralSourcesMerged | daglet/__init__.py:240-244 | a new key with several sources implies a `merge_func` and gets `merge_func(new, {k: d[k] for its sources})` |
| Multimaps.FuncNeverMissing | daglet/__init__.py:229-232 | with a function key map, only a conflict can make the re-keying fail |
| Multimaps.AsMultimap | daglet/__init__.py:252-256 | a dictionary's targets are wrapped in one-element lists; a function's result is used as-is, over the keys of `d` |
| Multimaps.ApplyMapping | daglet/__init__.py:252-257 | `apply_mapping`: succeeds iff the built multimap is applicable, and then gives its re-keyed dictionary; otherwise the error is a conflict or a missing key raised at some new key |
| Multimaps.DictSources | daglet/__init__.py:253-254 | with a dictionary mapping, `k` is a source of `n` iff `map_[k] == n` |
| Multimaps.RenameByInjectiveMap | daglet/__init__.py:252-257 | an injective dictionary whose keys are in `d` moves each value, unchanged, to its new key, with no `merge_func` needed |

## Left out

- `daglet/view.py` is not part of this model. It is graphviz rendering around temporary files and an external viewer.
- Concrete hash values are left out. `get_hash_int` (in `daglet/_utils`, which is not part of this model) is the opaque parameter `h`. Distinct vertices are not proved to differ, because that would need collision freedom.
- `Vertices.NewVertex`: the hash is `h` of the tag, the sorted parents' hashes and the extra hash. The source hashes the parent objects themselves. This agrees when parents hash through their own `__hash__`, which the model assumes.
- `Vertices.SortByHash`: Python's `sorted` is stable, and so is this insertion sort, but the contract states only sortedness by hash and permutation, not stability. Stability matters only among parents with equal hashes.
- `short_hash`, `get_repr`, `__repr__` and `_arg_kwarg_repr` are left out. They build diagnostic strings from Python `repr` and hex formatting of the opaque hash.
- `copy.copy` of the label and `extra_hash` is left out. It guards against aliasing, which values cannot have.
- Graph nodes (`toposort`, `transform`, the multimaps) use Dafny equality. For vertices, Python's `in` and dict lookups use hash equality. The model treats equal hashes as equal objects only through the `Eq` predicate.
- `get_parent_map` is left out. It calls `.append` on a `set`, so it fails whenever an object has a parent.
- `get_edge_map` is a stub returning `{}` and is left out. So is the dead string block after it.
- `toposort(tree=True)` is left out. It skips the cycle check, so it does not terminate on a cycle.
- `transform` with `vertex_map=None` is left out, because it fails at the membership test on `None`.
- The documented "a function returning `None` maps to no keys" case of `apply_multi_mapping` is left out. The code iterates over the `None` and fails.
- `Multimaps.ApplyMultiMapping`: when several errors are possible, which `KeyError` is raised depends on dictionary iteration order. The model visits new keys in an unspecified order, and its contract only says that the reported error exists at some new key.
- `Toposort.Sort`: the exact output order of the source's toposort test depends on concrete hash values, through the sorted parent lists. The model proves the order is topological and has the right contents, but not that particular order.
- `Toposort.ChildMap` returns a plain map where the source returns a `defaultdict(set)`, which would also answer `set()` for an object that is nobody's parent. The map holds exactly the keys the source fills, each with a non-empty set.
- `Multimaps.InvertMap` returns a plain map where the source returns a `defaultdict(set)`; same difference as for `ChildMap`.
- `Multimaps.InvertMultimap` returns a plain map where the source returns a `defaultdict(set)`; same difference as for `ChildMap`.
- `Toposort.Visit` is unbounded recursion. The source's recursive `visit` raises `RecursionError` once a chain of parents is deeper than Python's recursion limit (about 1000 by default); the model always finishes.
- `Transform.RankFoldExample` takes as given that the result covers all nine objects of the test. `Transform.Transform` proves the keys are the objects reachable from the roots, and all nine are.
- Exceptions raised inside callbacks are left out, because callbacks are pure total functions here.
