/**
 * `Vertex`: an immutable, content-addressed node.
 *
 * A vertex holds a tag, its parent vertices sorted by hash, an extra hash
 * payload, and the structural hash computed once from those three.  The
 * hash primitive is not part of this model: every operation that builds a
 * vertex takes it as the parameter `h`, applied to the tag, the hashes of
 * the sorted parents and the extra payload, and nothing is assumed of it.
 * Python's `==` and ordering on vertices compare hashes only, so `Eq` and the
 * other comparisons below are the model's notion of "the same vertex".
 */
module Vertices {
  import opened Wrappers

  // `tag` is the source's `label` (a keyword in Dafny).
  datatype Vertex<L, E> = Vertex(tag: L, parents: seq<Vertex<L, E>>, extraHash: E, hash: int)

  /** An argument in the `parents` list: a vertex, or an object of any other type. */
  datatype ParentArg<L, E> = AVertex(v: Vertex<L, E>) | NotAVertex

  /** Python's `TypeError`, carrying the position of the offending parent argument. */
  datatype TypeError = TypeError(index: nat)

  function Hashes<L, E>(vs: seq<Vertex<L, E>>): (hs: seq<int>)
    ensures |hs| == |vs| && forall i :: 0 <= i < |vs| ==> hs[i] == vs[i].hash
  {
    if vs == [] then [] else [vs[0].hash] + Hashes(vs[1..])
  }

  lemma HashesCons<L, E>(v: Vertex<L, E>, vs: seq<Vertex<L, E>>)
    ensures Hashes([v] + vs) == [v.hash] + Hashes(vs)
  {
    assert Hashes([v] + vs)[1..] == Hashes(vs);
  }

  predicate SortedByHash<L, E>(vs: seq<Vertex<L, E>>) {
    forall i, j :: 0 <= i < j < |vs| ==> vs[i].hash <= vs[j].hash
  }

  /** `v` was built by the constructor: its cached hash is `h` of its fields, and so for its ancestors. */
  ghost predicate Valid<L, E>(v: Vertex<L, E>, h: (L, seq<int>, E) -> int) {
    && v.hash == h(v.tag, Hashes(v.parents), v.extraHash)
    && SortedByHash(v.parents)
    && forall p :: p in v.parents ==> Valid(p, h)
  }

  // The six comparison operators: each compares the hashes only.
  predicate Lt<L, E>(a: Vertex<L, E>, b: Vertex<L, E>) { a.hash < b.hash }
  predicate Le<L, E>(a: Vertex<L, E>, b: Vertex<L, E>) { a.hash <= b.hash }
  predicate Eq<L, E>(a: Vertex<L, E>, b: Vertex<L, E>) { a.hash == b.hash }
  predicate Ne<L, E>(a: Vertex<L, E>, b: Vertex<L, E>) { a.hash != b.hash }
  predicate Ge<L, E>(a: Vertex<L, E>, b: Vertex<L, E>) { a.hash >= b.hash }
  predicate Gt<L, E>(a: Vertex<L, E>, b: Vertex<L, E>) { a.hash > b.hash }

  /**
   * The comparisons form one total preorder: `==` is its equivalence,
   * `!=` its negation, and exactly one of `<`, `==`, `>` holds.
   */
  lemma ComparisonsAgree<L, E>(a: Vertex<L, E>, b: Vertex<L, E>)
    ensures Ne(a, b) <==> !Eq(a, b)
    ensures Le(a, b) <==> Lt(a, b) || Eq(a, b)
    ensures Ge(a, b) <==> Le(b, a)
    ensures Gt(a, b) <==> Lt(b, a)
    ensures (if Lt(a, b) then 1 else 0) + (if Eq(a, b) then 1 else 0) + (if Gt(a, b) then 1 else 0) == 1
  {
  }

  /** Inserts `v` into the hash-sorted `vs`, after every element whose hash is smaller. */
  function Insert<L, E>(v: Vertex<L, E>, vs: seq<Vertex<L, E>>): (r: seq<Vertex<L, E>>)
    requires SortedByHash(vs)
    ensures SortedByHash(r)
    ensures multiset(r) == multiset(vs) + multiset{v}
    ensures multiset(Hashes(r)) == multiset(Hashes(vs)) + multiset{v.hash}
  {
    if vs == [] || v.hash <= vs[0].hash then
      HashesCons(v, vs);
      [v] + vs
    else
      var rest := Insert(v, vs[1..]);
      RestAbove(v, vs, rest);
      ConsSorted(vs[0], rest);
      InsertCount(v, vs, rest);
      InsertHashCount(v, vs, rest);
      [vs[0]] + rest
  }

  lemma InsertCount<L, E>(v: Vertex<L, E>, vs: seq<Vertex<L, E>>, rest: seq<Vertex<L, E>>)
    requires vs != []
    requires multiset(rest) == multiset(vs[1..]) + multiset{v}
    ensures multiset([vs[0]] + rest) == multiset(vs) + multiset{v}
  {
    assert vs == [vs[0]] + vs[1..];
  }

  lemma InsertHashCount<L, E>(v: Vertex<L, E>, vs: seq<Vertex<L, E>>, rest: seq<Vertex<L, E>>)
    requires vs != []
    requires multiset(Hashes(rest)) == multiset(Hashes(vs[1..])) + multiset{v.hash}
    ensures multiset(Hashes([vs[0]] + rest)) == multiset(Hashes(vs)) + multiset{v.hash}
  {
    HashesCons(vs[0], rest);
    HashesCons(vs[0], vs[1..]);
    assert vs == [vs[0]] + vs[1..];
    assert multiset([vs[0].hash] + Hashes(rest)) == multiset{vs[0].hash} + multiset(Hashes(rest));
    assert multiset([vs[0].hash] + Hashes(vs[1..])) == multiset{vs[0].hash} + multiset(Hashes(vs[1..]));
  }

  lemma RestAbove<L, E>(v: Vertex<L, E>, vs: seq<Vertex<L, E>>, rest: seq<Vertex<L, E>>)
    requires SortedByHash(vs) && vs != [] && vs[0].hash < v.hash
    requires multiset(rest) == multiset(vs[1..]) + multiset{v}
    ensures forall x :: x in rest ==> vs[0].hash <= x.hash
  {
    forall x | x in rest
      ensures vs[0].hash <= x.hash
    {
      assert x in multiset(rest);
      if x != v {
        assert x in multiset(vs[1..]);
        var k :| 0 <= k < |vs[1..]| && vs[1..][k] == x;
        assert x == vs[k + 1];
      }
    }
  }

  lemma ConsSorted<L, E>(v: Vertex<L, E>, vs: seq<Vertex<L, E>>)
    requires SortedByHash(vs) && forall x :: x in vs ==> v.hash <= x.hash
    ensures SortedByHash([v] + vs)
  {
    var r := [v] + vs;
    forall i, j | 0 <= i < j < |r|
      ensures r[i].hash <= r[j].hash
    {
      assert r[j] == vs[j - 1];
      if i > 0 {
        assert r[i] == vs[i - 1];
      }
    }
  }

  /** Python's `sorted(parents)`: a stable sort by hash. */
  function SortByHash<L, E>(vs: seq<Vertex<L, E>>): (r: seq<Vertex<L, E>>)
    ensures SortedByHash(r)
    ensures multiset(r) == multiset(vs)
    ensures multiset(Hashes(r)) == multiset(Hashes(vs))
  {
    if vs == [] then []
    else
      var rest := SortByHash(vs[1..]);
      SortStepCounts(vs, rest);
      Insert(vs[0], rest)
  }

  lemma SortStepCounts<L, E>(vs: seq<Vertex<L, E>>, rest: seq<Vertex<L, E>>)
    requires vs != [] && SortedByHash(rest)
    requires multiset(rest) == multiset(vs[1..]) && multiset(Hashes(rest)) == multiset(Hashes(vs[1..]))
    ensures multiset(Insert(vs[0], rest)) == multiset(vs)
    ensures multiset(Hashes(Insert(vs[0], rest))) == multiset(Hashes(vs))
  {
    ConsMultiset(vs);
    ConsHashMultiset(vs);
  }

  lemma ConsMultiset<L, E>(vs: seq<Vertex<L, E>>)
    requires vs != []
    ensures multiset(vs) == multiset(vs[1..]) + multiset{vs[0]}
  {
    assert vs == [vs[0]] + vs[1..];
  }

  lemma ConsHashMultiset<L, E>(vs: seq<Vertex<L, E>>)
    requires vs != []
    ensures multiset(Hashes(vs)) == multiset(Hashes(vs[1..])) + multiset{vs[0].hash}
  {
    assert vs == [vs[0]] + vs[1..];
    HashesCons(vs[0], vs[1..]);
  }

  /** The parent arguments, all checked to be vertices, or the position of the first one that is not. */
  function CheckParents<L, E>(args: seq<ParentArg<L, E>>): (r: Result<seq<Vertex<L, E>>, TypeError>)
    ensures r.Ok? <==> forall i :: 0 <= i < |args| ==> args[i].AVertex?
    ensures r.Ok? ==> |r.value| == |args| && forall i :: 0 <= i < |args| ==> r.value[i] == args[i].v
    ensures r.Err? ==> (r.error.index < |args| && args[r.error.index].NotAVertex?
                        && forall i :: 0 <= i < r.error.index ==> args[i].AVertex?)
  {
    if args == [] then Ok([])
    else if args[0].NotAVertex? then Err(TypeError(0))
    else match CheckParents(args[1..])
      case Ok(vs) => Ok([args[0].v] + vs)
      case Err(TypeError(i)) => Err(TypeError(i + 1))
  }

  /**
   * `Vertex(tag, parents, extra_hash)`: a `TypeError` at the first parent
   * that is not a vertex; otherwise the parents sorted by hash, and the hash
   * of the tag, the sorted parents' hashes and the extra payload.
   */
  function NewVertex<L, E>(tag: L, parents: seq<ParentArg<L, E>>, extraHash: E, h: (L, seq<int>, E) -> int)
    : (r: Result<Vertex<L, E>, TypeError>)
    ensures r.Err? <==> exists i :: 0 <= i < |parents| && parents[i].NotAVertex?
    ensures r.Err? ==> (r.error.index < |parents| && parents[r.error.index].NotAVertex?
                        && forall i :: 0 <= i < r.error.index ==> parents[i].AVertex?)
    ensures r.Ok? ==> && r.value.tag == tag && r.value.extraHash == extraHash
                      && SortedByHash(r.value.parents)
                      && multiset(r.value.parents) == multiset(CheckParents(parents).value)
                      && r.value.hash == h(tag, Hashes(r.value.parents), extraHash)
  {
    match CheckParents(parents)
    case Err(e) => Err(e)
    case Ok(vs) =>
      var sorted := SortByHash(vs);
      Ok(Vertex(tag, sorted, extraHash, h(tag, Hashes(sorted), extraHash)))
  }

  /** A vertex built from valid parents is valid. */
  lemma NewVertexValid<L, E>(tag: L, parents: seq<ParentArg<L, E>>, extraHash: E, h: (L, seq<int>, E) -> int)
    requires forall i :: 0 <= i < |parents| ==> parents[i].AVertex? && Valid(parents[i].v, h)
    ensures NewVertex(tag, parents, extraHash, h).Ok?
    ensures Valid(NewVertex(tag, parents, extraHash, h).value, h)
  {
    var v := NewVertex(tag, parents, extraHash, h).value;
    forall p | p in v.parents
      ensures Valid(p, h)
    {
      assert p in multiset(CheckParents(parents).value);
    }
  }

  /** Two sorted integer sequences with the same elements are equal. */
  lemma {:induction false} SortedUnique(a: seq<int>, b: seq<int>)
    requires forall i, j :: 0 <= i < j < |a| ==> a[i] <= a[j]
    requires forall i, j :: 0 <= i < j < |b| ==> b[i] <= b[j]
    requires multiset(a) == multiset(b)
    ensures a == b
  {
    if a != [] {
      assert |a| == |multiset(a)| == |b|;
      assert a[0] in multiset(b) && b[0] in multiset(a);
      assert a[0] in b && b[0] in a;
      assert a[0] == b[0];
      TailMultiset(a);
      TailMultiset(b);
      SortedUnique(a[1..], b[1..]);
    }
  }

  lemma TailMultiset(a: seq<int>)
    requires a != []
    ensures multiset(a[1..]) == multiset(a) - multiset{a[0]}
  {
    assert a == [a[0]] + a[1..];
  }

  lemma SortedHashes<L, E>(vs: seq<Vertex<L, E>>)
    requires SortedByHash(vs)
    ensures forall i, j :: 0 <= i < j < |vs| ==> Hashes(vs)[i] <= Hashes(vs)[j]
  {
  }

  /**
   * Parent order does not matter: two parent lists whose vertices have the
   * same hashes, in any order, give equal vertices.
   */
  lemma ParentOrderIrrelevant<L, E>(tag: L, ps: seq<ParentArg<L, E>>, qs: seq<ParentArg<L, E>>,
                                    extraHash: E, h: (L, seq<int>, E) -> int)
    requires forall i :: 0 <= i < |ps| ==> ps[i].AVertex?
    requires forall i :: 0 <= i < |qs| ==> qs[i].AVertex?
    requires multiset(Hashes(CheckParents(ps).value)) == multiset(Hashes(CheckParents(qs).value))
    ensures NewVertex(tag, ps, extraHash, h).Ok? && NewVertex(tag, qs, extraHash, h).Ok?
    ensures Eq(NewVertex(tag, ps, extraHash, h).value, NewVertex(tag, qs, extraHash, h).value)
  {
    var sp := SortByHash(CheckParents(ps).value);
    var sq := SortByHash(CheckParents(qs).value);
    SortedHashes(sp);
    SortedHashes(sq);
    SortedUnique(Hashes(sp), Hashes(sq));
  }

  /** `Vertex(tag, [a, b]) == Vertex(tag, [b, a])`. */
  lemma SwappedParentsEqual<L, E>(tag: L, a: Vertex<L, E>, b: Vertex<L, E>, extraHash: E, h: (L, seq<int>, E) -> int)
    ensures NewVertex(tag, [AVertex(a), AVertex(b)], extraHash, h).Ok?
    ensures NewVertex(tag, [AVertex(b), AVertex(a)], extraHash, h).Ok?
    ensures Eq(NewVertex(tag, [AVertex(a), AVertex(b)], extraHash, h).value,
               NewVertex(tag, [AVertex(b), AVertex(a)], extraHash, h).value)
  {
    var ps := [AVertex(a), AVertex(b)];
    var qs := [AVertex(b), AVertex(a)];
    assert CheckParents(ps).value == [a, b];
    assert CheckParents(qs).value == [b, a];
    assert Hashes([a, b]) == [a.hash, b.hash];
    assert Hashes([b, a]) == [b.hash, a.hash];
    ParentOrderIrrelevant(tag, ps, qs, extraHash, h);
  }

  /** Sorting a list that is already sorted by hash leaves it as it is. */
  lemma {:induction false} SortSorted<L, E>(vs: seq<Vertex<L, E>>)
    requires SortedByHash(vs)
    ensures SortByHash(vs) == vs
  {
    if vs != [] {
      SortSorted(vs[1..]);
      assert vs == [vs[0]] + vs[1..];
    }
  }

  function AsArgs<L, E>(vs: seq<Vertex<L, E>>): (args: seq<ParentArg<L, E>>)
    ensures |args| == |vs| && forall i :: 0 <= i < |vs| ==> args[i] == AVertex(vs[i])
  {
    if vs == [] then [] else [AVertex(vs[0])] + AsArgs(vs[1..])
  }

  /**
   * `v.clone(**kwargs)`: the constructor applied to `v`'s fields, each
   * replaced by the keyword argument given for it.
   */
  function Clone<L, E>(v: Vertex<L, E>, tag: Option<L>, parents: Option<seq<ParentArg<L, E>>>, extraHash: Option<E>,
                       h: (L, seq<int>, E) -> int)
    : (r: Result<Vertex<L, E>, TypeError>)
    ensures r.Err? <==> parents.Some? && exists i :: 0 <= i < |parents.value| && parents.value[i].NotAVertex?
    ensures r.Err? ==> && parents.Some? && r.error.index < |parents.value| && parents.value[r.error.index].NotAVertex?
                       && forall i :: 0 <= i < r.error.index ==> parents.value[i].AVertex?
    ensures parents.None? ==> r.Ok? && r.value.parents == SortByHash(v.parents)
    ensures r.Ok? && parents.Some? ==> SortedByHash(r.value.parents)
                                       && multiset(r.value.parents) == multiset(CheckParents(parents.value).value)
    ensures r.Ok? ==> r.value.tag == (if tag.Some? then tag.value else v.tag)
    ensures r.Ok? ==> r.value.extraHash == (if extraHash.Some? then extraHash.value else v.extraHash)
    ensures r.Ok? ==> r.value.hash == h(r.value.tag, Hashes(r.value.parents), r.value.extraHash)
  {
    var args := if parents.Some? then parents.value else AsArgs(v.parents);
    assert parents.None? ==> CheckParents(args).value == v.parents;
    NewVertex(if tag.Some? then tag.value else v.tag, args,
              if extraHash.Some? then extraHash.value else v.extraHash, h)
  }

  /** Cloning a valid vertex with no overrides gives back the very same vertex. */
  lemma CloneUnchanged<L, E>(v: Vertex<L, E>, h: (L, seq<int>, E) -> int)
    requires Valid(v, h)
    ensures Clone(v, None, None, None, h) == Ok(v)
  {
    SortSorted(v.parents);
  }

  /** Cloning a valid vertex, with any new parents valid vertices too, gives a valid vertex. */
  lemma CloneValid<L, E>(v: Vertex<L, E>, tag: Option<L>, parents: Option<seq<ParentArg<L, E>>>, extraHash: Option<E>,
                         h: (L, seq<int>, E) -> int)
    requires Valid(v, h)
    requires parents.Some? ==> forall i :: 0 <= i < |parents.value| ==> parents.value[i].AVertex? && Valid(parents.value[i].v, h)
    ensures Clone(v, tag, parents, extraHash, h).Ok?
    ensures Valid(Clone(v, tag, parents, extraHash, h).value, h)
  {
    var args := if parents.Some? then parents.value else AsArgs(v.parents);
    forall i | 0 <= i < |args|
      ensures args[i].AVertex? && Valid(args[i].v, h)
    {
      if parents.None? {
        assert args[i].v == v.parents[i];
      }
    }
    NewVertexValid(if tag.Some? then tag.value else v.tag, args,
                   if extraHash.Some? then extraHash.value else v.extraHash, h);
  }

  /** `v.transplant(new_parents)`: tag and extra payload kept, parents replaced (and sorted). */
  function Transplant<L, E>(v: Vertex<L, E>, newParents: seq<ParentArg<L, E>>, h: (L, seq<int>, E) -> int)
    : (r: Result<Vertex<L, E>, TypeError>)
    ensures r.Err? <==> exists i :: 0 <= i < |newParents| && newParents[i].NotAVertex?
    ensures r.Err? ==> (r.error.index < |newParents| && newParents[r.error.index].NotAVertex?
                        && forall i :: 0 <= i < r.error.index ==> newParents[i].AVertex?)
    ensures r.Ok? ==> r.value.tag == v.tag && r.value.extraHash == v.extraHash
    ensures r.Ok? ==> SortedByHash(r.value.parents) && multiset(r.value.parents) == multiset(CheckParents(newParents).value)
    ensures r.Ok? ==> r.value.hash == h(v.tag, Hashes(r.value.parents), v.extraHash)
  {
    NewVertex(v.tag, newParents, v.extraHash, h)
  }

  /** `v.vertex(tag, extra_hash)`: a new vertex whose only parent is `v`. */
  function Child<L, E>(v: Vertex<L, E>, tag: L, extraHash: E, h: (L, seq<int>, E) -> int): (r: Vertex<L, E>)
    ensures r.parents == [v] && r.tag == tag && r.extraHash == extraHash
    ensures r.hash == h(tag, [v.hash], extraHash)
    ensures Valid(v, h) ==> Valid(r, h)
  {
    var r := NewVertex(tag, [AVertex(v)], extraHash, h);
    assert CheckParents([AVertex(v)]).value == [v];
    assert Hashes([v]) == [v.hash];
    r.value
  }
}
