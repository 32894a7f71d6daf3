/**
 * The multimap utilities: `invert_map`, `invert_multimap`,
 * `apply_multi_mapping` and `apply_mapping`.
 *
 * A Python `defaultdict(set)` that only ever receives `add`s is modelled as
 * a `map<V, set<K>>` whose sets are never empty: a key is present exactly
 * when something was added under it.  A multimap's values are Python lists
 * (`seq`), and what the code does with them is iterate, so only their
 * elements matter.
 */
module Multimaps {
  import opened Wrappers

  /** The elements of each value list of `mm`. */
  function AsSets<K(==, !new), V(==, !new)>(mm: map<K, seq<V>>): (sm: map<K, set<V>>)
    ensures sm.Keys == mm.Keys
    ensures forall k, v :: k in mm ==> (v in sm[k] <==> v in mm[k])
  {
    map k | k in mm :: set v | v in mm[k]
  }

  /**
   * The inverse of a multimap: `k` is in `inv[v]` exactly when `v` is a
   * target of `k`; a target with no source is not a key.
   */
  function Inverted<K(==, !new), V(==, !new)>(sm: map<K, set<V>>): (inv: map<V, set<K>>)
    ensures forall v, k :: (v in inv && k in inv[v]) <==> (k in sm && v in sm[k])
    ensures forall v :: v in inv ==> inv[v] != {}
  {
    var targets := set k, v | k in sm && v in sm[k] :: v;
    map v | v in targets :: set k | k in sm && v in sm[k]
  }

  /** Two multimaps with non-empty sets and the same (key, element) pairs are equal. */
  lemma {:induction false} SamePairsEqual<K(!new), V(!new)>(a: map<K, set<V>>, b: map<K, set<V>>)
    requires forall k :: k in a ==> a[k] != {}
    requires forall k :: k in b ==> b[k] != {}
    requires forall k, v :: (k in a && v in a[k]) <==> (k in b && v in b[k])
    ensures a == b
  {
    forall k | k in a
      ensures k in b && a[k] == b[k]
    {
      var v :| v in a[k];
      assert k in b && v in b[k];
    }
    forall k | k in b
      ensures k in a
    {
      var v :| v in b[k];
      assert k in a && v in a[k];
    }
  }

  /** Inverting twice gives back the multimap, less its keys without targets. */
  lemma InvertedTwice<K(!new), V(!new)>(sm: map<K, set<V>>)
    ensures Inverted(Inverted(sm)) == map k | k in sm && sm[k] != {} :: sm[k]
  {
    var back := map k | k in sm && sm[k] != {} :: sm[k];
    var once := Inverted(sm);
    var twice := Inverted(once);
    forall k, v
      ensures (k in twice && v in twice[k]) <==> (k in back && v in back[k])
    {
      assert (k in twice && v in twice[k]) <==> (v in once && k in once[v]);
    }
    SamePairsEqual(twice, back);
  }

  /**
   * `invert_map`: each value of `m` becomes a key whose set holds the keys
   * mapped to it, so a non-injective map loses nothing.
   */
  method InvertMap<K(==, !new), V(==, !new)>(m: map<K, V>) returns (inv: map<V, set<K>>)
    ensures forall v, k :: (v in inv && k in inv[v]) <==> (k in m && m[k] == v)
    ensures forall v :: v in inv ==> inv[v] != {}
    ensures inv.Keys == m.Values
    ensures inv == Inverted(map k | k in m :: {m[k]})
  {
    inv := map[];
    var todo := m.Keys;
    while todo != {}
      invariant todo <= m.Keys
      invariant forall v, k :: (v in inv && k in inv[v]) <==> (k in m && k !in todo && m[k] == v)
      invariant forall v :: v in inv ==> inv[v] != {}
      decreases todo
    {
      var k :| k in todo;
      var v := m[k];
      inv := inv[v := (if v in inv then inv[v] else {}) + {k}];
      todo := todo - {k};
    }
    forall v | v in m.Values
      ensures v in inv
    {
      var k :| k in m && m[k] == v;
    }
    var sm := map k | k in m :: {m[k]};
    forall v, k
      ensures (v in inv && k in inv[v]) <==> (v in Inverted(sm) && k in Inverted(sm)[v])
    {
      assert (k in sm && v in sm[k]) <==> (k in m && m[k] == v);
    }
    SamePairsEqual(inv, Inverted(sm));
  }

  /** The inverse of an injective map gives every value exactly the one key mapped to it. */
  lemma InvertInjective<K(!new), V(!new)>(m: map<K, V>, inv: map<V, set<K>>)
    requires forall k, k' :: k in m && k' in m && m[k] == m[k'] ==> k == k'
    requires forall v, k :: (v in inv && k in inv[v]) <==> (k in m && m[k] == v)
    requires forall v :: v in inv ==> inv[v] != {}
    ensures forall k :: k in m ==> m[k] in inv && inv[m[k]] == {k}
    ensures forall v :: v in inv ==> exists k :: k in m && inv[v] == {k}
  {
    forall k | k in m
      ensures m[k] in inv && inv[m[k]] == {k}
    {
      assert m[k] in inv && k in inv[m[k]];
      forall k' | k' in inv[m[k]]
        ensures k' == k
      {
        assert k' in m && m[k'] == m[k];
      }
    }
    forall v | v in inv
      ensures exists k :: k in m && inv[v] == {k}
    {
      var k :| k in inv[v];
      assert inv[m[k]] == {k};
    }
  }

  /** `inv` holds exactly the pairs of the keys in `done` and of the first `j` targets of `key`. */
  ghost predicate PartialInverse<K(!new), V(!new)>(mm: map<K, seq<V>>, done: set<K>, key: K, j: nat, inv: map<V, set<K>>)
    requires key in mm && j <= |mm[key]|
  {
    && (forall v, k :: (v in inv && k in inv[v]) <==> ((k in done && k in mm && v in mm[k]) || (k == key && v in mm[key][..j])))
    && (forall v :: v in inv ==> inv[v] != {})
  }

  /** `invert_multimap`: `k` is in `inv[v]` exactly when `v` is one of the targets of `k`. */
  method InvertMultimap<K(==, !new), V(==, !new)>(mm: map<K, seq<V>>) returns (inv: map<V, set<K>>)
    ensures forall v, k :: (v in inv && k in inv[v]) <==> (k in mm && v in mm[k])
    ensures forall v :: v in inv ==> inv[v] != {}
    ensures inv == Inverted(AsSets(mm))
  {
    inv := map[];
    var todo := mm.Keys;
    while todo != {}
      invariant todo <= mm.Keys
      invariant forall v, k :: (v in inv && k in inv[v]) <==> (k in mm && k !in todo && v in mm[k])
      invariant forall v :: v in inv ==> inv[v] != {}
      decreases todo
    {
      var key :| key in todo;
      ghost var done := mm.Keys - todo;
      var values := mm[key];
      for j := 0 to |values|
        invariant PartialInverse(mm, done, key, j, inv)
      {
        var v := values[j];
        inv := inv[v := (if v in inv then inv[v] else {}) + {key}];
        assert values[..j + 1] == values[..j] + [v];
      }
      assert values[..|values|] == values;
      todo := todo - {key};
    }
    SamePairsEqual(inv, Inverted(AsSets(mm)));
  }

  /** The first argument of `apply_multi_mapping`: a dictionary from old keys to lists of new keys, or a function. */
  datatype KeyMap<!K, K2> = Dict(entries: map<K, seq<K2>>) | Func(f: K -> seq<K2>)

  /** The key map `apply_multi_mapping` inverts: a function is applied to every key of `d`. */
  function ResolveKeyMap<K(==, !new), K2(==, !new), W>(km: KeyMap<K, K2>, d: map<K, W>): (keyMap: map<K, seq<K2>>)
    ensures km.Dict? ==> keyMap == km.entries
    ensures km.Func? ==> keyMap.Keys == d.Keys && forall k :: k in d ==> keyMap[k] == km.f(k)
  {
    match km
    case Dict(entries) => entries
    case Func(f) => map k | k in d :: f(k)
  }

  /** The two `KeyError`s `apply_multi_mapping` raises. */
  datatype MappingError<K, K2> =
    | Conflict(newKey: K2)   // several old keys map to `newKey` and there is no `merge_func`
    | MissingKey(oldKey: K)  // an old key with a target is not a key of `d`

  /** The default `clone_func`: the value is kept as it is. */
  function KeepValue<K(==, !new), K2(==, !new), W>(oldKey: K, newKey: K2, value: W): W {
    value
  }

  /**
   * When new key `n` can be given a value from its sources `olds`: several
   * sources need a `merge_func`, and every source must be a key of `d`.
   */
  ghost predicate Resolvable<K(!new), K2, W>(olds: set<K>, d: map<K, W>, merge: Option<(K2, map<K, W>) -> W>) {
    && (merge.None? ==> |olds| <= 1)
    && olds <= d.Keys
  }

  /** When the re-keying succeeds: every new key can be given a value. */
  ghost predicate Applicable<K(!new), K2(!new), W>(inv: map<K2, set<K>>, d: map<K, W>, merge: Option<(K2, map<K, W>) -> W>) {
    forall n :: n in inv ==> Resolvable(inv[n], d, merge)
  }

  /** The only element of a one-element set. */
  ghost function Single<K(!new)>(s: set<K>): (k: K)
    requires |s| == 1
    ensures s == {k}
  {
    var k :| k in s;
    assert s - {k} == {} by {
      assert |s - {k}| == |s| - 1;
    }
    k
  }

  /** The old values of `olds`, keyed by old key, as `merge_func` receives them. */
  function OldValues<K(==, !new), W>(olds: set<K>, d: map<K, W>): (vm: map<K, W>)
    requires olds <= d.Keys
    ensures vm.Keys == olds && forall k :: k in olds ==> vm[k] == d[k]
  {
    map k | k in olds :: d[k]
  }

  /**
   * The re-keyed dictionary: each new key's value is cloned from its one
   * source, or merged from its several sources.
   */
  ghost function Remapped<K(!new), K2(!new), W>(inv: map<K2, set<K>>, d: map<K, W>, clone: (K, K2, W) -> W,
                                                merge: Option<(K2, map<K, W>) -> W>): map<K2, W>
    requires forall n :: n in inv ==> inv[n] != {}
    requires Applicable(inv, d, merge)
  {
    map n | n in inv :: NewValue(n, inv[n], d, clone, merge)
  }

  /** The value of new key `n` whose sources are `olds`. */
  ghost function NewValue<K(!new), K2, W>(n: K2, olds: set<K>, d: map<K, W>, clone: (K, K2, W) -> W,
                                          merge: Option<(K2, map<K, W>) -> W>): W
    requires olds != {} && Resolvable(olds, d, merge)
  {
    if |olds| > 1 then merge.value(n, OldValues(olds, d))
    else var k := Single(olds); clone(k, n, d[k])
  }

  /** The error `apply_multi_mapping` raises at new key `n` with sources `olds`. */
  ghost predicate RaisedAt<K(!new), K2, W>(e: MappingError<K, K2>, n: K2, olds: set<K>, d: map<K, W>,
                                          merge: Option<(K2, map<K, W>) -> W>) {
    match e
    case Conflict(newKey) => newKey == n && merge.None? && |olds| > 1
    case MissingKey(oldKey) => oldKey in olds && oldKey !in d
  }

  /**
   * `apply_multi_mapping(multimap, d, clone_func, merge_func)`.  The new keys
   * are visited in an unspecified order, as a Python dictionary's are, so
   * when several errors are possible which one is reported is not fixed.
   */
  method ApplyMultiMapping<K(==, !new), K2(==, !new), W>(km: KeyMap<K, K2>, d: map<K, W>, clone: (K, K2, W) -> W,
                                                         merge: Option<(K2, map<K, W>) -> W>)
    returns (r: Result<map<K2, W>, MappingError<K, K2>>)
    ensures r.Ok? <==> Applicable(Inverted(AsSets(ResolveKeyMap(km, d))), d, merge)
    ensures r.Ok? ==> Applicable(Inverted(AsSets(ResolveKeyMap(km, d))), d, merge)
                      && r.value == Remapped(Inverted(AsSets(ResolveKeyMap(km, d))), d, clone, merge)
    ensures r.Err? ==> exists n :: n in Inverted(AsSets(ResolveKeyMap(km, d)))
                                   && RaisedAt(r.error, n, Inverted(AsSets(ResolveKeyMap(km, d)))[n], d, merge)
  {
    var keyMap := ResolveKeyMap(km, d);
    var inv := InvertMultimap(keyMap);
    var newDict: map<K2, W> := map[];
    var todo := inv.Keys;
    while todo != {}
      invariant todo <= inv.Keys
      invariant forall n :: n in newDict <==> n in inv && n !in todo
      invariant forall n :: n in newDict ==> Resolvable(inv[n], d, merge)
      invariant forall n :: n in newDict ==> newDict[n] == NewValue(n, inv[n], d, clone, merge)
      decreases todo
    {
      var n :| n in todo;
      var res := NewValueOf(n, inv[n], d, clone, merge);
      if res.Err? {
        return Err(res.error);
      }
      var value := res.value;
      newDict := newDict[n := value];
      todo := todo - {n};
    }
    RemappedFrom(inv, d, clone, merge, newDict);
    r := Ok(newDict);
  }

  /** One pass of the loop of `apply_multi_mapping`: the value of new key `n`, or the error it raises. */
  method NewValueOf<K(==, !new), K2, W>(n: K2, olds: set<K>, d: map<K, W>, clone: (K, K2, W) -> W,
                                        merge: Option<(K2, map<K, W>) -> W>)
    returns (r: Result<W, MappingError<K, K2>>)
    requires olds != {}
    ensures r.Ok? <==> Resolvable(olds, d, merge)
    ensures r.Ok? ==> Resolvable(olds, d, merge) && r.value == NewValue(n, olds, d, clone, merge)
    ensures r.Err? ==> RaisedAt(r.error, n, olds, d, merge)
  {
    if |olds| > 1 {
      if merge.None? {
        return Err(Conflict(n));
      }
      if !(olds <= d.Keys) {
        var k :| k in olds && k !in d;
        return Err(MissingKey(k));
      }
      return Ok(merge.value(n, OldValues(olds, d)));
    }
    var k :| k in olds;
    if k !in d {
      return Err(MissingKey(k));
    }
    assert |olds| == 1 && olds == {Single(olds)};
    return Ok(clone(k, n, d[k]));
  }

  /** A map that gives every new key its value is the re-keyed dictionary. */
  lemma RemappedFrom<K(!new), K2(!new), W>(inv: map<K2, set<K>>, d: map<K, W>, clone: (K, K2, W) -> W,
                                           merge: Option<(K2, map<K, W>) -> W>, newDict: map<K2, W>)
    requires forall n :: n in inv ==> inv[n] != {}
    requires forall n :: n in newDict <==> n in inv
    requires forall n :: n in newDict ==> Resolvable(inv[n], d, merge)
    requires forall n :: n in newDict ==> newDict[n] == NewValue(n, inv[n], d, clone, merge)
    ensures Applicable(inv, d, merge) && newDict == Remapped(inv, d, clone, merge)
  {
  }

  /** The new keys of a successful re-keying are all the targets of the key map. */
  lemma RemappedKeys<K(!new), K2(!new), W>(km: KeyMap<K, K2>, d: map<K, W>, clone: (K, K2, W) -> W,
                               merge: Option<(K2, map<K, W>) -> W>)
    requires Applicable(Inverted(AsSets(ResolveKeyMap(km, d))), d, merge)
    ensures var keyMap := ResolveKeyMap(km, d);
      forall n :: n in Remapped(Inverted(AsSets(keyMap)), d, clone, merge) <==> exists k :: k in keyMap && n in keyMap[k]
  {
    var keyMap := ResolveKeyMap(km, d);
    var inv := Inverted(AsSets(keyMap));
    forall n | exists k :: k in keyMap && n in keyMap[k]
      ensures n in inv
    {
      var k :| k in keyMap && n in keyMap[k];
      assert n in AsSets(keyMap)[k];
    }
  }

  /** A new key with one source gets `clone_func` of it; with the default `KeepValue`, the source's value. */
  lemma SingleSourceCloned<K(!new), K2(!new), W>(inv: map<K2, set<K>>, d: map<K, W>, merge: Option<(K2, map<K, W>) -> W>,
                                     n: K2, k: K)
    requires forall n :: n in inv ==> inv[n] != {}
    requires Applicable(inv, d, merge)
    requires n in inv && inv[n] == {k}
    ensures k in d
    ensures forall clone: (K, K2, W) -> W :: Remapped(inv, d, clone, merge)[n] == clone(k, n, d[k])
    ensures Remapped(inv, d, KeepValue, merge)[n] == d[k]
  {
    assert k in inv[n];
    assert |inv[n]| == 1;
  }

  /** A new key with several sources gets `merge_func` of the new key and its sources' old values. */
  lemma SeveralSourcesMerged<K(!new), K2(!new), W>(inv: map<K2, set<K>>, d: map<K, W>, clone: (K, K2, W) -> W,
                                       merge: Option<(K2, map<K, W>) -> W>, n: K2)
    requires forall n :: n in inv ==> inv[n] != {}
    requires Applicable(inv, d, merge)
    requires n in inv && |inv[n]| > 1
    ensures merge.Some? && inv[n] <= d.Keys
    ensures Remapped(inv, d, clone, merge)[n] == merge.value(n, map k | k in inv[n] :: d[k])
  {
  }

  /** With a function as key map every old key is a key of `d`, so only a conflict can fail the re-keying. */
  lemma FuncNeverMissing<K(!new), K2(!new), W>(f: K -> seq<K2>, d: map<K, W>, merge: Option<(K2, map<K, W>) -> W>)
    ensures var inv := Inverted(AsSets(ResolveKeyMap(KeyMap.Func(f), d)));
      Applicable(inv, d, merge) <==> (merge.None? ==> forall n :: n in inv ==> |inv[n]| <= 1)
  {
  }

  /** The first argument of `apply_mapping`: a dictionary from old key to new key, or a function. */
  datatype Mapping<!K, K2> = Dict(targets: map<K, K2>) | Func(f: K -> seq<K2>)

  /**
   * The multimap `apply_mapping` builds: each target of a dictionary is
   * wrapped in a one-element list; a function's result is used as it is,
   * over the keys of `d`.
   */
  function AsMultimap<K(==, !new), K2(==, !new), W>(mp: Mapping<K, K2>, d: map<K, W>): (mm: map<K, seq<K2>>)
    ensures mp.Dict? ==> mm.Keys == mp.targets.Keys && forall k :: k in mm ==> mm[k] == [mp.targets[k]]
    ensures mp.Func? ==> mm.Keys == d.Keys && forall k :: k in mm ==> mm[k] == mp.f(k)
  {
    match mp
    case Dict(targets) => map k | k in targets :: [targets[k]]
    case Func(f) => map k | k in d :: f(k)
  }

  /** `apply_mapping(map_, d, clone_func, merge_func)`. */
  method ApplyMapping<K(==, !new), K2(==, !new), W>(mp: Mapping<K, K2>, d: map<K, W>, clone: (K, K2, W) -> W,
                                merge: Option<(K2, map<K, W>) -> W>)
    returns (r: Result<map<K2, W>, MappingError<K, K2>>)
    ensures var inv := Inverted(AsSets(AsMultimap(mp, d)));
      && (r.Ok? <==> Applicable(inv, d, merge))
      && (r.Ok? ==> Applicable(inv, d, merge) && r.value == Remapped(inv, d, clone, merge))
      && (r.Err? ==> exists n :: n in inv && RaisedAt(r.error, n, inv[n], d, merge))
  {
    var mm := AsMultimap(mp, d);
    r := ApplyMultiMapping(KeyMap.Dict(mm), d, clone, merge);
  }

  /**
   * Renaming: an injective dictionary whose keys are all keys of `d` moves
   * each value to its new key unchanged, with the default `KeepValue` and no
   * `merge_func`.
   */
  lemma RenameByInjectiveMap<K(!new), K2(!new), W>(m: map<K, K2>, d: map<K, W>, inv: map<K2, set<K>>)
    requires forall k, k' :: k in m && k' in m && m[k] == m[k'] ==> k == k'
    requires m.Keys <= d.Keys
    requires inv == Inverted(AsSets(AsMultimap(Mapping.Dict(m), d)))
    ensures Applicable(inv, d, None)
    ensures Remapped(inv, d, KeepValue, None).Keys == m.Values
    ensures forall k :: k in m ==> Remapped(inv, d, KeepValue, None)[m[k]] == d[k]
  {
    DictSources(m, d);
    InvertInjective(m, inv);
    RenameSingletons(m, d, inv);
  }

  /** Re-keying with no `merge_func`, where every new key has exactly one source, which `m` sends to it. */
  lemma RenameSingletons<K(!new), K2(!new), W>(m: map<K, K2>, d: map<K, W>, inv: map<K2, set<K>>)
    requires m.Keys <= d.Keys
    requires forall n :: n in inv ==> inv[n] != {}
    requires forall n, k :: (n in inv && k in inv[n]) <==> (k in m && m[k] == n)
    requires forall k :: k in m ==> m[k] in inv && inv[m[k]] == {k}
    requires forall n :: n in inv ==> exists k :: k in m && inv[n] == {k}
    ensures Applicable(inv, d, None)
    ensures Remapped(inv, d, KeepValue, None).Keys == m.Values
    ensures forall k :: k in m ==> Remapped(inv, d, KeepValue, None)[m[k]] == d[k]
  {
    assert Applicable(inv, d, None) by {
      forall n | n in inv
        ensures Resolvable<K, K2, W>(inv[n], d, None)
      {
        var k :| k in m && inv[n] == {k};
      }
    }
    forall k | k in m
      ensures Remapped(inv, d, KeepValue, None)[m[k]] == d[k]
    {
      SingleSourceCloned(inv, d, None, m[k], k);
    }
    forall n | n in inv
      ensures n in m.Values
    {
      var k :| k in inv[n];
    }
  }

  /** The sources of a dictionary given to `apply_mapping`: `k` is a source of `n` exactly when `m[k] == n`. */
  lemma DictSources<K(!new), K2(!new), W>(m: map<K, K2>, d: map<K, W>)
    ensures var inv := Inverted(AsSets(AsMultimap(Mapping.Dict(m), d)));
      forall n, k :: (n in inv && k in inv[n]) <==> (k in m && m[k] == n)
  {
    var mm := AsMultimap(Mapping.Dict(m), d);
    var sm := AsSets(mm);
    forall n, k
      ensures (k in sm && n in sm[k]) <==> (k in m && m[k] == n)
    {
      if k in m {
        assert n in mm[k] <==> n == m[k];
      }
    }
  }
}
