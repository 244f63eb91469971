/** Resolving bind values, by scanning and by index. */
module AliasBinds {
  import opened Basics
  import opened AliasGraph
  import opened AliasChase
  import Ordered

  /**
   * A bind value: a reference to a path inside the container, written with or
   * without `&` and absolutely or relative to the platform, or any other text.
   */
  datatype Bind = Ref(amp: bool, absolute: bool, path: Path) | Text(text: string)

  /** A preset parameter; `simple` marks a bind parameter whose value is a single string without `;`. */
  datatype Param = Param(key: Key, simple: bool, value: Bind)

  predicate Names1(v: Bind, a: Name) { v.Ref? && v.path == [a] }

  /** The spellings of a bind to alias a. */
  function SearchPaths(a: Name): seq<Bind> {
    [Ref(true, true, [a]), Ref(false, true, [a]), Ref(true, false, [a]), Ref(false, false, [a])]
  }

  function Rewrite(red: Redirects, a: Name, v: Bind): Bind
    requires a in red
  {
    if Names1(v, a) then Ref(true, v.absolute, red[a]) else v
  }

  /** Look at every simple bind parameter for alias a. */
  function ScanOne(red: Redirects, a: Name, params: seq<Param>): (r: seq<Param>)
    requires a in red
    ensures |r| == |params|
    ensures forall i :: 0 <= i < |r| ==>
      r[i] == if params[i].simple then params[i].(value := Rewrite(red, a, params[i].value)) else params[i]
  {
    seq(|params|, i requires 0 <= i < |params| =>
      if params[i].simple then params[i].(value := Rewrite(red, a, params[i].value)) else params[i])
  }

  function ScanAll(red: Redirects, order: seq<Name>, params: seq<Param>): (r: seq<Param>)
    requires AllIn(order, red)
    ensures |r| == |params|
  {
    if order == [] then params
    else ScanOne(red, order[|order| - 1], ScanAll(red, order[..|order| - 1], params))
  }

  // ---- What resolving achieves ----------------------------------------------------------------

  function Resolve(red: Redirects, order: seq<Name>, v: Bind): Bind
    requires AllIn(order, red)
  {
    if order == [] then v
    else Rewrite(red, order[|order| - 1], Resolve(red, order[..|order| - 1], v))
  }

  lemma {:induction false} ScanResolves(red: Redirects, order: seq<Name>, params: seq<Param>, i: nat)
    requires AllIn(order, red) && i < |params|
    ensures ScanAll(red, order, params)[i] ==
            if params[i].simple then params[i].(value := Resolve(red, order, params[i].value)) else params[i]
    decreases |order|
  {
    if order != [] { ScanResolves(red, order[..|order| - 1], params, i); }
  }

  predicate NamesAlias(red: Redirects, v: Bind) { v.Ref? && |v.path| == 1 && v.path[0] in red }

  lemma ResolvePrefix(red: Redirects, order: seq<Name>, n: nat, v: Bind)
    requires AllIn(order, red) && n < |order|
    ensures Resolve(red, order[..n + 1], v) == Rewrite(red, order[n], Resolve(red, order[..n], v))
  {
    assert order[..n + 1][..n] == order[..n];
  }

  lemma {:induction false} ResolveLeaves(red: Redirects, order: seq<Name>, n: nat, v: Bind)
    requires IsRedirectOrder(red, order) && n <= |order|
    ensures AllIn(order, red)
    ensures NamesAlias(red, Resolve(red, order[..n], v)) ==> Resolve(red, order[..n], v).path[0] !in order[..n]
    decreases n
  {
    RedirectOrderAllIn(red, order);
    if n > 0 {
      ResolveLeaves(red, order, n - 1, v);
      ResolvePrefix(red, order, n - 1, v);
      TargetComesLater(red, order, n - 1);
      assert order[..n] == order[..n - 1] + [order[n - 1]];
      RewriteLeaves(red, order[..n - 1], order[n - 1], Resolve(red, order[..n - 1], v));
    }
  }

  /** Rewriting alias a takes a value away from it, and back to none of the aliases before it. */
  lemma RewriteLeaves(red: Redirects, before: seq<Name>, a: Name, v: Bind)
    requires a in red && Target(red, a) !in before + [a] && (NamesAlias(red, v) ==> v.path[0] !in before)
    ensures var r := Rewrite(red, a, v); NamesAlias(red, r) ==> r.path[0] !in before + [a]
  {
    if NamesAlias(red, v) && v.path[0] == a { assert v.path == [a]; }
  }

  lemma {:induction false} ResolveWaits(red: Redirects, order: seq<Name>, n: nat, v: Bind)
    requires AllIn(order, red) && n <= |order|
    requires NamesAlias(red, v) ==> v.path[0] !in order[..n]
    ensures Resolve(red, order[..n], v) == v
    decreases n
  {
    if n > 0 {
      assert order[..n] == order[..n - 1] + [order[n - 1]];
      ResolveWaits(red, order, n - 1, v);
      ResolvePrefix(red, order, n - 1, v);
    }
  }

  lemma {:induction false} ResolveJoins(red: Redirects, order: seq<Name>, i: nat, n: nat, v: Bind)
    requires IsRedirectOrder(red, order) && AllIn(order, red) && i < n <= |order| && Names1(v, order[i])
    ensures Resolve(red, order[..n], v) == Resolve(red, order[..n], Rewrite(red, order[i], v))
    decreases n
  {
    var m := Rewrite(red, order[i], v);
    if n == i + 1 {
      assert order[i] !in order[..i];
      ResolveWaits(red, order, i, v);
      ResolvePrefix(red, order, i, v);
      TargetComesLater(red, order, i);
      ResolveWaits(red, order, n, m);
    } else {
      ResolveJoins(red, order, i, n - 1, v);
      ResolvePrefix(red, order, n - 1, v);
      ResolvePrefix(red, order, n - 1, m);
    }
  }

  /** No bind is left naming an alias: each is followed to the end, and every other value is kept. */
  lemma BindsResolved(red: Redirects, order: seq<Name>, params: seq<Param>, i: nat)
    requires IsRedirectOrder(red, order) && i < |params|
    ensures AllIn(order, red)
    ensures var v, r := params[i].value, ScanAll(red, order, params)[i];
      && r == params[i].(value := r.value)
      && (!params[i].simple ==> r == params[i])
      && (params[i].simple ==>
            && r.value == Resolve(red, order, v)
            && !NamesAlias(red, r.value)
            && r.value == if NamesAlias(red, v) then Resolve(red, order, Ref(true, v.absolute, red[v.path[0]])) else v)
  {
    RedirectOrderAllIn(red, order);
    ScanResolves(red, order, params, i);
    var v := params[i].value;
    assert order[..|order|] == order;
    ResolveLeaves(red, order, |order|, v);
    assert forall a :: a in red ==> a in Names(order);
    if NamesAlias(red, v) {
      assert v.path == [v.path[0]];
      var k :| 0 <= k < |order| && order[k] == v.path[0];
      ResolveJoins(red, order, k, |order|, v);
    } else {
      ResolveWaits(red, order, |order|, v);
    }
  }

  // ---- The index ----------------------------------------------------------------------------------

  type Index = map<Bind, seq<nat>>

  ghost predicate Once(xs: seq<nat>) { forall i, j :: 0 <= i < j < |xs| ==> xs[i] != xs[j] }

  /** The index lists, under each value, exactly the simple bind parameters that have it. */
  ghost predicate IndexExact(params: seq<Param>, index: Index) {
    && (forall v :: v in index ==> index[v] != [] && Once(index[v]))
    && (forall v, i: nat :: Listed(index, v, i) ==> i < |params| && params[i].simple && params[i].value == v)
    && (forall i :: 0 <= i < |params| && params[i].simple ==> Listed(index, params[i].value, i))
  }

  ghost predicate Listed(index: Index, v: Bind, i: nat) { v in index && i in index[v] }

  function Removed(xs: seq<nat>, x: nat): (r: seq<nat>)
    ensures forall y :: y in r <==> y in xs && y != x
    ensures Once(xs) ==> Once(r)
  {
    if xs == [] then []
    else
      var r := Removed(xs[..|xs| - 1], x);
      assert xs == xs[..|xs| - 1] + [xs[|xs| - 1]];
      assert Once(xs) ==> Once(xs[..|xs| - 1]) && xs[|xs| - 1] !in xs[..|xs| - 1];
      if xs[|xs| - 1] == x then r else r + [xs[|xs| - 1]]
  }

  /** replace_bind_param_index. */
  method ReplaceIndex(index0: Index, from: Bind, to: Bind, i: nat) returns (index: Index)
    ensures forall v, j: nat :: Listed(index, v, j) <==>
      (Listed(index0, v, j) && !(v == from && j == i)) || (v == to && j == i)
    ensures
      (forall v :: v in index0 ==> index0[v] != [] && Once(index0[v])) && (to == from || !Listed(index0, to, i)) ==>
      forall v :: v in index ==> index[v] != [] && Once(index[v])
  {
    index := index0;
    if from in index {
      var rest := Removed(index[from], i);
      index := if rest == [] then index - {from} else index[from := rest];
    }
    ghost var mid := index;
    assert forall v, j: nat :: Listed(mid, v, j) <==> Listed(index0, v, j) && !(v == from && j == i);
    index := index[to := (if to in index then index[to] else []) + [i]];
    forall v, j: nat ensures Listed(index, v, j) <==> Listed(mid, v, j) || (v == to && j == i) {}
    if to == from || !Listed(index0, to, i) { assert !Listed(mid, to, i); }
  }

  method BuildIndex(params: seq<Param>) returns (index: Index)
    ensures IndexExact(params, index)
  {
    index := map[];
    for i := 0 to |params|
      invariant forall v :: v in index ==> index[v] != [] && Once(index[v])
      invariant forall v, j: nat :: Listed(index, v, j) <==> j < i && params[j].simple && params[j].value == v
    {
      if params[i].simple {
        var v := params[i].value;
        assert !Listed(index, v, i);
        ghost var before := index;
        index := index[v := (if v in index then index[v] else []) + [i]];
        assert forall w, j: nat :: Listed(index, w, j) <==> Listed(before, w, j) || (w == v && j == i);
      }
    }
  }

  /** Parameters the index lists under any spelling of alias a. */
  method Matching(params: seq<Param>, index: Index, a: Name) returns (found: set<nat>)
    requires IndexExact(params, index)
    ensures forall i: nat :: i in found <==> i < |params| && params[i].simple && Names1(params[i].value, a)
  {
    found := {};
    var paths := SearchPaths(a);
    for k := 0 to |paths|
      invariant forall i: nat :: i in found <==> i < |params| && params[i].simple && params[i].value in paths[..k]
    {
      if paths[k] in index {
        found := found + set i | i in index[paths[k]];
        assert forall i: nat :: i in index[paths[k]] <==> Listed(index, paths[k], i);
      }
      assert paths[..k + 1] == paths[..k] + [paths[k]];
      assert forall i :: 0 <= i < |params| && params[i].simple && params[i].value == paths[k] ==>
        Listed(index, paths[k], i);
    }
    assert paths[..|paths|] == paths;
    forall v: Bind ensures v in paths <==> Names1(v, a) {
      if Names1(v, a) { assert v == Ref(v.amp, v.absolute, [a]); }
    }
  }

  /** Rewrite the parameters the index finds for alias a: the same as looking at all of them. */
  method RewriteAlias(red: Redirects, a: Name, params0: seq<Param>, index0: Index)
    returns (params: seq<Param>, index: Index)
    requires a in red && IndexExact(params0, index0)
    ensures params == ScanOne(red, a, params0) && IndexExact(params, index)
  {
    params, index := params0, index0;
    var rest := Matching(params, index, a);
    while rest != {}
      invariant |params| == |params0| && IndexExact(params, index)
      invariant forall i :: i in rest ==>
        i < |params| && params0[i].simple && Names1(params0[i].value, a) && params[i] == params0[i]
      invariant forall i :: 0 <= i < |params| && i !in rest ==> params[i] == ScanOne(red, a, params0)[i]
      decreases rest
    {
      var i := Ordered.Pick(rest);
      var v := params[i].value;
      var new' := Ref(true, v.absolute, red[a]);
      index := RewriteEntry(params, index, i, new');
      params := params[i := params[i].(value := new')];
      rest := rest - {i};
    }
  }

  /** Index entry i moves to its new value. */
  method RewriteEntry(params: seq<Param>, index0: Index, i: nat, v: Bind) returns (index: Index)
    requires IndexExact(params, index0) && i < |params| && params[i].simple
    ensures IndexExact(params[i := params[i].(value := v)], index)
  {
    index := ReplaceIndex(index0, params[i].value, v, i);
    var after := params[i := params[i].(value := v)];
    forall j | 0 <= j < |after| && after[j].simple ensures Listed(index, after[j].value, j) {
      assert Listed(index0, params[j].value, j);
    }
  }

  /** Index-driven rewriting in the given order equals scanning every parameter for every alias. */
  method RewriteBinds(red: Redirects, order: seq<Name>, params0: seq<Param>) returns (params: seq<Param>)
    requires AllIn(order, red)
    ensures params == ScanAll(red, order, params0)
  {
    params := params0;
    var index := BuildIndex(params);
    for k := 0 to |order|
      invariant params == ScanAll(red, order[..k], params0) && IndexExact(params, index)
    {
      assert order[..k + 1][..k] == order[..k];
      params, index := RewriteAlias(red, order[k], params, index);
    }
    assert order[..|order|] == order;
  }
}
