/** Copying the parameters of every alias, with one cache of pending parameters per alias. */
module AliasMigrate {
  import opened Basics
  import opened AliasGraph
  import opened AliasChase
  import B = AliasBinds

  /** Parameters waiting under one alias, and where each name is among them. */
  datatype Cache<V> = Cache(params: seq<(Key, V)>, index: map<Key, nat>)

  type Caches<V> = map<Name, Cache<V>>

  ghost predicate CacheOk<V>(c: Cache<V>) {
    && (forall i :: 0 <= i < |c.params| ==> c.params[i].0 in c.index && c.index[c.params[i].0] == i)
    && (forall k :: k in c.index ==> c.index[k] < |c.params| && c.params[c.index[k]].0 == k)
  }

  ghost predicate CachesOk<V>(caches: Caches<V>) { forall b :: b in caches ==> CacheOk(caches[b]) }

  /** What is waiting under alias b. */
  ghost function Held<V>(caches: Caches<V>, b: Name): map<Key, V>
    requires CachesOk(caches)
  {
    if b in caches then map k | k in caches[b].index :: caches[b].params[caches[b].index[k]].1 else map[]
  }

  /** The part of w under alias b. */
  ghost function Part<V>(w: map<Key, V>, b: Name): map<Key, V> { map k | k in w && Under(b, k) :: w[k] }

  method AddToCache<V(==)>(c: Cache<V>, k: Key, v: V) returns (r: Cache<V>)
    requires CacheOk(c)
    ensures CacheOk(r) && r.index.Keys == c.index.Keys + {k}
    ensures forall l :: l in r.index ==>
      r.params[r.index[l]].1 == if l == k then v else c.params[c.index[l]].1
  {
    if k !in c.index {
      r := Cache(c.params + [(k, v)], c.index[k := |c.params|]);
    } else if c.params[c.index[k]].1 != v {
      r := c.(params := c.params[c.index[k] := (k, v)]);
    } else {
      r := c;
    }
  }

  /** cache_alias_param: remember (k, v) under its alias, unless that is the alias being migrated. */
  method CacheAliasParam<V(==)>(red: Redirects, caches0: Caches<V>, k: Key, v: V, current: Option<Name>)
    returns (caches: Caches<V>)
    requires CachesOk(caches0)
    ensures CachesOk(caches)
    ensures forall b :: b in red && Under(b, k) && current != Some(b) ==> Held(caches, b) == Held(caches0, b)[k := v]
    ensures forall b :: !(b in red && Under(b, k) && current != Some(b)) ==> Held(caches, b) == Held(caches0, b)
    ensures current.Some? && current.value in caches0 ==>
      current.value in caches && caches[current.value] == caches0[current.value]
  {
    caches := caches0;
    if !UnderAlias(red, k) { return; }
    var a := k.path[0];
    if current == Some(a) { return; }
    var c := if a in caches then caches[a] else Cache([], map[]);
    var c' := AddToCache(c, k, v);
    caches := caches[a := c'];
    assert Held(caches, a) == Held(caches0, a)[k := v];
    forall b | b != a ensures Held(caches, b) == Held(caches0, b) {}
  }

  ghost predicate DistinctKeys<V>(params: seq<(Key, V)>) {
    forall i, j :: 0 <= i < j < |params| ==> params[i].0 != params[j].0
  }

  /** Parameters as a map; a later one replaces an earlier one of the same name. */
  function AsMap<V>(params: seq<(Key, V)>): map<Key, V>
  {
    if params == [] then map[]
    else AsMap(params[..|params| - 1])[params[|params| - 1].0 := params[|params| - 1].1]
  }

  /** The caches hold exactly what is under each alias that is still to be migrated. */
  ghost predicate CachesExact<V>(red: Redirects, caches: Caches<V>, w: map<Key, V>, todo: set<Name>) {
    CachesOk(caches) && forall b :: b in todo && b in red ==> Held(caches, b) == Part(w, b)
  }

  lemma PartUpdate<V>(w: map<Key, V>, b: Name, k: Key, v: V)
    ensures Part(w[k := v], b) == if Under(b, k) then Part(w, b)[k := v] else Part(w, b)
  {
  }

  /** Add one parameter to the broker and to the caches. */
  method Store<V(==)>(red: Redirects, caches0: Caches<V>, broker0: map<Key, V>, k: Key, v: V, current: Option<Name>,
                         ghost todo: set<Name>)
    returns (caches: Caches<V>, broker: map<Key, V>)
    requires CachesExact(red, caches0, broker0, todo) && (current.Some? ==> current.value !in todo)
    ensures broker == broker0[k := v] && CachesExact(red, caches, broker, todo)
    ensures current.Some? && current.value in caches0 ==>
      current.value in caches && caches[current.value] == caches0[current.value]
  {
    broker := broker0[k := v];
    caches := CacheAliasParam(red, caches0, k, v, current);
    forall b | b in todo && b in red ensures Held(caches, b) == Part(broker, b) { PartUpdate(broker0, b, k, v); }
  }

  lemma NothingCached<V>(red: Redirects)
    ensures CachesExact<V>(red, map[], map[], red.Keys)
  {
  }

  lemma AsMapStep<V>(params: seq<(Key, V)>, i: nat)
    requires i < |params|
    ensures AsMap(params[..i + 1]) == AsMap(params[..i])[params[i].0 := params[i].1]
  {
    assert params[..i + 1][..i] == params[..i];
  }

  method FillCaches<V(==)>(red: Redirects, params: seq<(Key, V)>) returns (caches: Caches<V>)
    ensures CachesExact(red, caches, AsMap(params), red.Keys)
  {
    caches := map[];
    var broker := map[];
    NothingCached<V>(red);
    for i := 0 to |params|
      invariant broker == AsMap(params[..i]) && CachesExact(red, caches, broker, red.Keys)
    {
      AsMapStep(params, i);
      caches, broker := Store(red, caches, broker, params[i].0, params[i].1, None, red.Keys);
    }
    assert params[..|params|] == params;
  }

  /** Has the entry that moves to n been among the first i? */
  ghost predicate Written<V>(red: Redirects, a: Name, xs: seq<(Key, V)>, i: nat, n: Key)
    requires a in red && i <= |xs|
  {
    exists j :: 0 <= j < i && Origin(red, a, n) == Some(xs[j].0)
  }

  /** The broker after the first i entries of alias a have been copied. */
  ghost predicate Copied<V>(red: Redirects, a: Name, w: map<Key, V>, xs: seq<(Key, V)>, i: nat, broker: map<Key, V>)
    requires a in red && i <= |xs|
  {
    && (forall n :: n in broker <==> n in w || Written(red, a, xs, i, n))
    && (forall j :: 0 <= j < i ==>
          Under(a, xs[j].0) && Moved(red, a, xs[j].0) in broker && broker[Moved(red, a, xs[j].0)] == xs[j].1)
    && (forall n :: n in w && !Written(red, a, xs, i, n) ==> broker[n] == w[n])
  }

  lemma CopyOne<V>(red: Redirects, a: Name, w: map<Key, V>, xs: seq<(Key, V)>, i: nat, broker: map<Key, V>)
    requires a in red && i < |xs| && Copied(red, a, w, xs, i, broker) && DistinctKeys(xs) && Under(a, xs[i].0)
    ensures Copied(red, a, w, xs, i + 1, broker[Moved(red, a, xs[i].0) := xs[i].1])
  {
    var m := Moved(red, a, xs[i].0);
    var broker' := broker[m := xs[i].1];
    WrittenOneMore(red, a, xs, i);
    forall j: nat | j < i + 1
      ensures Under(a, xs[j].0) && Moved(red, a, xs[j].0) in broker' && broker'[Moved(red, a, xs[j].0)] == xs[j].1
    {
      if j < i { MovedApart(red, a, xs[j].0, xs[i].0); }
    }
  }

  lemma WrittenOneMore<V>(red: Redirects, a: Name, xs: seq<(Key, V)>, i: nat)
    requires a in red && i < |xs| && Under(a, xs[i].0)
    ensures forall n :: Written(red, a, xs, i + 1, n) <==> Written(red, a, xs, i, n) || n == Moved(red, a, xs[i].0)
  {
    var m := Moved(red, a, xs[i].0);
    assert Origin(red, a, m) == Some(xs[i].0);
    forall n ensures Written(red, a, xs, i + 1, n) <==> Written(red, a, xs, i, n) || n == m {
      if n == m { assert Written(red, a, xs, i + 1, n); }
    }
  }

  lemma MovedApart(red: Redirects, a: Name, k: Key, l: Key)
    requires a in red && Under(a, k) && Under(a, l) && k != l
    ensures Moved(red, a, k) != Moved(red, a, l)
  {
    assert Origin(red, a, Moved(red, a, k)) == Some(k) && Origin(red, a, Moved(red, a, l)) == Some(l);
  }

  /** xs lists exactly the parameters of w under alias a, each once. */
  ghost predicate Entries<V>(w: map<Key, V>, a: Name, xs: seq<(Key, V)>) {
    && DistinctKeys(xs)
    && (forall j :: 0 <= j < |xs| ==> Under(a, xs[j].0) && xs[j].0 in w && w[xs[j].0] == xs[j].1)
    && (forall k :: k in w && Under(a, k) ==> Lists(xs, k))
  }

  ghost predicate Lists<V>(xs: seq<(Key, V)>, k: Key) { exists j :: 0 <= j < |xs| && xs[j].0 == k }

  lemma CopiedAll<V>(red: Redirects, a: Name, w: map<Key, V>, xs: seq<(Key, V)>, broker: map<Key, V>)
    requires a in red && Copied(red, a, w, xs, |xs|, broker) && Entries(w, a, xs)
    ensures broker == MigrateOne(red, w, a)
  {
    forall n ensures Written(red, a, xs, |xs|, n) <==> Receives(red, w, a, n) {
      var o := Origin(red, a, n);
      if o.Some? && o.value in w { assert Lists(xs, o.value); }
    }
    var r := MigrateOne(red, w, a);
    forall n | n in broker ensures broker[n] == r[n] {
      if Written(red, a, xs, |xs|, n) {
        var j :| 0 <= j < |xs| && Origin(red, a, n) == Some(xs[j].0);
        assert Moved(red, a, xs[j].0) == n;
      }
    }
  }

  /** Copy what waits under alias a. */
  method MigrateAlias<V(==)>(red: Redirects, a: Name, caches0: Caches<V>, w: map<Key, V>, ghost todo: set<Name>)
    returns (caches: Caches<V>, broker: map<Key, V>)
    requires a in red && a in todo && CachesExact(red, caches0, w, todo)
    ensures broker == MigrateOne(red, w, a) && CachesExact(red, caches, broker, todo - {a})
  {
    caches, broker := caches0, w;
    var xs := if a in caches then caches[a].params else [];
    CachedEntries(red, caches0, w, todo, a, xs);
    for i := 0 to |xs|
      invariant CachesExact(red, caches, broker, todo - {a})
      invariant Copied(red, a, w, xs, i, broker)
    {
      caches, broker := MigrateEntry(red, a, caches, broker, w, xs, i, todo - {a});
    }
    CopiedAll(red, a, w, xs, broker);
  }

  method MigrateEntry<V(==)>(red: Redirects, a: Name, caches0: Caches<V>, broker0: map<Key, V>, ghost w: map<Key, V>,
                             xs: seq<(Key, V)>, i: nat, ghost todo: set<Name>)
    returns (caches: Caches<V>, broker: map<Key, V>)
    requires a in red && a !in todo && i < |xs| && Entries(w, a, xs)
    requires CachesExact(red, caches0, broker0, todo) && Copied(red, a, w, xs, i, broker0)
    ensures CachesExact(red, caches, broker, todo) && Copied(red, a, w, xs, i + 1, broker)
  {
    CopyOne(red, a, w, xs, i, broker0);
    caches, broker := Store(red, caches0, broker0, Moved(red, a, xs[i].0), xs[i].1, Some(a), todo);
  }

  lemma CachedEntries<V>(red: Redirects, caches: Caches<V>, w: map<Key, V>, todo: set<Name>, a: Name, xs: seq<(Key, V)>)
    requires a in red && a in todo && CachesExact(red, caches, w, todo)
    requires xs == if a in caches then caches[a].params else []
    ensures Entries(w, a, xs)
  {
    assert Held(caches, a) == Part(w, a);
    forall j | 0 <= j < |xs| ensures Under(a, xs[j].0) && xs[j].0 in w && w[xs[j].0] == xs[j].1 {
      assert xs[j].0 in caches[a].index;
      assert xs[j].0 in Held(caches, a) && Held(caches, a)[xs[j].0] == xs[j].1;
    }
    forall k | k in w && Under(a, k) ensures Lists(xs, k) {
      assert k in Part(w, a) && k in Held(caches, a);
      assert xs[caches[a].index[k]].0 == k;
    }
  }

  /** Copying alias by alias with caches equals copying straight from the broker. */
  method MigrateParams<V(==)>(red: Redirects, order: seq<Name>, params: seq<(Key, V)>) returns (broker: map<Key, V>)
    requires AllIn(order, red) && NoDup(order)
    ensures broker == MigrateAll(red, AsMap(params), order)
  {
    broker := AsMap(params);
    var caches := FillCaches(red, params);
    for k := 0 to |order|
      invariant broker == MigrateAll(red, AsMap(params), order[..k])
      invariant CachesExact(red, caches, broker, red.Keys - Names(order[..k]))
    {
      assert order[..k + 1][..k] == order[..k];
      assert Names(order[..k + 1]) == Names(order[..k]) + {order[k]};
      assert red.Keys - Names(order[..k + 1]) == red.Keys - Names(order[..k]) - {order[k]};
      caches, broker := MigrateAlias(red, order[k], caches, broker, red.Keys - Names(order[..k]));
    }
    assert order[..|order|] == order;
  }

  /** The parameters as name and value. */
  function Pairs(params: seq<B.Param>): (r: seq<(Key, B.Bind)>)
    ensures |r| == |params| && forall i :: 0 <= i < |r| ==> r[i] == (params[i].key, params[i].value)
  {
    seq(|params|, i requires 0 <= i < |params| => (params[i].key, params[i].value))
  }

  /** The value of a name is that of the last parameter with that name. */
  lemma {:induction false} AsMapFrom<V>(params: seq<(Key, V)>, k: Key) returns (i: nat)
    requires k in AsMap(params)
    ensures i < |params| && params[i] == (k, AsMap(params)[k])
    decreases |params|
  {
    var last: nat := |params| - 1;
    if params[last].0 == k { i := last; } else { i := AsMapFrom(params[..last], k); }
  }

  lemma {:induction false} AsMapHas<V>(params: seq<(Key, V)>, i: nat)
    requires i < |params|
    ensures params[i].0 in AsMap(params)
    decreases |params|
  {
    if i < |params| - 1 { AsMapHas(params[..|params| - 1], i); }
  }

  /** Name n has the value of preset parameter i, resolved; if that is a simple bind, it names no alias. */
  ghost predicate Delivers(red: Redirects, order: seq<Name>, params: seq<B.Param>, broker: map<Key, B.Bind>, n: Key,
                           i: nat)
    requires AllIn(order, red) && i < |params| && n in broker
  {
    && Chase(red, order, params[i].key) == n
    && broker[n] == (if params[i].simple then B.Resolve(red, order, params[i].value) else params[i].value)
    && (params[i].simple ==> !B.NamesAlias(red, broker[n]))
  }

  /** From the resolved and migrated parameters back to the presets. */
  lemma EndToEnd(red: Redirects, order: seq<Name>, params: seq<B.Param>, n: Key) returns (i: nat)
    requires IsRedirectOrder(red, order) && AllIn(order, red) && !UnderAlias(red, n)
    requires n in MigrateAll(red, AsMap(Pairs(B.ScanAll(red, order, params))), order)
    ensures i < |params|
    ensures Delivers(red, order, params, MigrateAll(red, AsMap(Pairs(B.ScanAll(red, order, params))), order), n, i)
  {
    var scanned := B.ScanAll(red, order, params);
    var w := AsMap(Pairs(scanned));
    AliasResolution(red, w, order, n);
    var p :| Wins(red, w, order, n, MigrateAll(red, w, order)[n], p);
    i := AsMapFrom(Pairs(scanned), p);
    B.BindsResolved(red, order, params, i);
  }

  /**
   * redirect_socket_params: a fatal report exactly when the redirects are
   * cyclic; otherwise binds are resolved first and the resolved parameters are
   * then copied, in one and the same redirect order. In the end every preset has
   * reached its internal name, and every internal name has the resolved value of
   * a preset chased to it; no simple bind is left naming an alias.
   */
  method RedirectSocketParams(red: Redirects, params: seq<B.Param>)
    returns (r: Outcome<map<Key, B.Bind>>, ghost order: seq<Name>)
    ensures r.Fatal? <==> exists c :: IsCycle(red, c)
    ensures r.Ok? ==> IsRedirectOrder(red, order) && AllIn(order, red)
    ensures r.Ok? ==> r.value == MigrateAll(red, AsMap(Pairs(B.ScanAll(red, order, params))), order)
    ensures r.Ok? ==> forall i :: 0 <= i < |params| ==> Chase(red, order, params[i].key) in r.value
    ensures r.Ok? ==> forall n :: n in r.value && !UnderAlias(red, n) ==>
      exists i: nat :: i < |params| && Delivers(red, order, params, r.value, n, i)
  {
    var o := OrderAliases(red);
    if o.None? { return Fatal, []; }
    order := o.value;
    RedirectOrderAllIn(red, order);
    var resolved := B.RewriteBinds(red, o.value, params);
    var broker := MigrateParams(red, o.value, Pairs(resolved));
    forall i | 0 <= i < |params| ensures Chase(red, order, params[i].key) in broker {
      AsMapHas(Pairs(resolved), i);
      B.BindsResolved(red, order, params, i);
      MigrationTraced(red, AsMap(Pairs(resolved)), order);
    }
    forall n | n in broker && !UnderAlias(red, n)
      ensures exists i: nat :: i < |params| && Delivers(red, order, params, broker, n, i)
    {
      var i := EndToEnd(red, order, params, n);
    }
    r := Ok(broker);
  }
}
