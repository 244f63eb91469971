/**
 * Socket aliases of a container: each alias redirects to a path whose first
 * segment may again be an alias.
 */
module AliasGraph {
  import opened Basics
  import Ordered

  /** A path segment. */
  datatype Name = Name(text: string)

  /** A dotted path as its segments; there is always at least one. */
  type Path = p: seq<Name> | |p| >= 1 witness [Name("")]

  type Redirects = map<Name, Path>

  function Target(red: Redirects, a: Name): Name
    requires a in red
  {
    red[a][0]
  }

  /** Consecutive aliases, each redirecting to the next. */
  ghost predicate IsChain(red: Redirects, c: seq<Name>) {
    forall i :: 0 <= i < |c| - 1 ==> c[i] in red && Target(red, c[i]) == c[i + 1]
  }

  ghost predicate IsCycle(red: Redirects, c: seq<Name>) {
    |c| >= 2 && c[0] == c[|c| - 1] && IsChain(red, c)
  }

  ghost predicate RootedAt(red: Redirects, order: seq<Name>, i: nat)
    requires i < |order|
  {
    order[i] in red && (Target(red, order[i]) in red ==> Target(red, order[i]) in order[..i])
  }

  /** An order in which every alias comes after the alias it redirects to. */
  ghost predicate Rooted(red: Redirects, order: seq<Name>) {
    NoDup(order) && forall i :: 0 <= i < |order| ==> RootedAt(red, order, i)
  }

  /** Along a chain of listed aliases the position falls, so no chain of them is a cycle. */
  lemma {:induction false} RootedChainFalls(red: Redirects, order: seq<Name>, c: seq<Name>, k: nat)
    returns (i: nat, j: nat)
    requires Rooted(red, order) && IsChain(red, c) && 0 < k < |c|
    requires forall x :: x in red ==> x in order
    requires c[k] in red
    ensures j < i < |order| && order[i] == c[0] && order[j] == c[k]
    decreases k
  {
    assert c[k - 1] in red && Target(red, c[k - 1]) == c[k - 1 + 1];
    if k == 1 {
      i :| 0 <= i < |order| && order[i] == c[0];
      assert RootedAt(red, order, i);
    } else {
      var m;
      i, m := RootedChainFalls(red, order, c, k - 1);
      assert RootedAt(red, order, m);
      j :| 0 <= j < m && order[j] == c[k];
      return;
    }
    j :| 0 <= j < i && order[j] == c[k];
  }

  lemma RootedMeansAcyclic(red: Redirects, order: seq<Name>, c: seq<Name>)
    requires Rooted(red, order) && forall x :: x in red ==> x in order
    ensures !IsCycle(red, c)
  {
    if IsCycle(red, c) {
      assert c[0] in red;
      var i, j := RootedChainFalls(red, order, c, |c| - 1);
      assert false;
    }
  }

  lemma RootedAppend(red: Redirects, order: seq<Name>, a: Name)
    requires Rooted(red, order) && a in red && a !in order && (Target(red, a) in red ==> Target(red, a) in order)
    ensures Rooted(red, order + [a]) && Names(order + [a]) == Names(order) + {a}
  {
    var order' := order + [a];
    forall i | 0 <= i < |order'| ensures RootedAt(red, order', i) {
      assert order'[..i] == order[..i];
      if i < |order| { assert RootedAt(red, order, i); }
    }
  }

  lemma ChainFront(red: Redirects, path: seq<Name>)
    requires IsChain(red, path) && |path| >= 2
    ensures IsChain(red, path[..|path| - 1])
    ensures path[|path| - 2] in red && Target(red, path[|path| - 2]) == path[|path| - 1]
  {
    var front := path[..|path| - 1];
    forall i | 0 <= i < |front| - 1 ensures front[i] in red && Target(red, front[i]) == front[i + 1] {
      assert path[i] in red && Target(red, path[i]) == path[i + 1];
    }
    var i := |path| - 2;
    assert path[i] in red && Target(red, path[i]) == path[i + 1];
  }

  lemma FrontNames(path: seq<Name>)
    requires NoDup(path) && path != []
    ensures NoDup(path[..|path| - 1])
    ensures Names(path) == Names(path[..|path| - 1]) + {path[|path| - 1]}
    ensures path[|path| - 1] !in Names(path[..|path| - 1])
  {
    assert path == path[..|path| - 1] + [path[|path| - 1]];
  }

  /** A walked path, read backwards, extends the list of completed aliases. */
  lemma {:induction false} PathCompletes(red: Redirects, order: seq<Name>, path: seq<Name>) returns (order': seq<Name>)
    requires Rooted(red, order) && NoDup(path) && IsChain(red, path) && path != []
    requires Names(path) !! Names(order) && Names(path) <= red.Keys
    requires Target(red, path[|path| - 1]) in red ==> Target(red, path[|path| - 1]) in order
    ensures Rooted(red, order') && Names(order') == Names(order) + Names(path)
    decreases |path|
  {
    var last, front := path[|path| - 1], path[..|path| - 1];
    FrontNames(path);
    assert last in Names(path);
    RootedAppend(red, order, last);
    order' := order + [last];
    if front != [] {
      ChainFront(red, path);
      order' := PathCompletes(red, order', front);
    }
  }

  /**
   * A cycle of aliases, spelled out from an alias back to itself, exactly when
   * there is one. Without a cycle, `roots` lists all aliases targets first.
   */
  method GetSocketRedirectCycle(red: Redirects) returns (cycle: seq<Name>, ghost roots: seq<Name>)
    ensures cycle != [] ==> IsCycle(red, cycle)
    ensures cycle == [] <==> forall c :: !IsCycle(red, c)
    ensures cycle == [] ==> Rooted(red, roots) && Names(roots) == red.Keys
  {
    var completed: set<Name> := {};
    roots := [];
    var todo := red.Keys;
    while todo != {}
      invariant todo <= red.Keys && completed <= red.Keys
      invariant red.Keys == completed + todo
      invariant Rooted(red, roots) && Names(roots) == completed
      decreases todo
    {
      var first := Ordered.Pick(todo);
      todo := todo - {first};
      if first in completed { continue; }
      var path;
      cycle, path := WalkFrom(red, first, completed);
      if cycle != [] { return; }
      assert forall x :: x in completed ==> x in Names(roots);
      roots := PathCompletes(red, roots, path);
      completed := completed + Names(path);
    }
    assert forall x :: x in red ==> x in Names(roots);
    forall c ensures !IsCycle(red, c) { RootedMeansAcyclic(red, roots, c); }
    cycle := [];
  }

  lemma ClosesCycle(red: Redirects, path: seq<Name>, current: Name, at: nat)
    requires IsChain(red, path + [current]) && at < |path| && path[at] == current && current in red
    ensures IsCycle(red, path[at..] + [current])
  {
    var cycle := path[at..] + [current];
    assert forall i :: 0 <= i < |cycle| ==> cycle[i] == (path + [current])[at + i];
  }

  lemma PathGrows(red: Redirects, path: seq<Name>, current: Name)
    requires NoDup(path) && current !in Names(path) && IsChain(red, path + [current]) && current in red
    ensures NoDup(path + [current]) && Names(path + [current]) == Names(path) + {current}
    ensures IsChain(red, path + [current] + [Target(red, current)])
  {
    var chain := path + [current];
    var longer := chain + [Target(red, current)];
    forall i | 0 <= i < |longer| - 1 ensures longer[i] in red && Target(red, longer[i]) == longer[i + 1] {
      if i < |chain| - 1 { assert chain[i] in red && Target(red, chain[i]) == chain[i + 1]; }
    }
  }

  /** Follow redirects from `first` until they leave the aliases, meet a completed one, or close a cycle. */
  method WalkFrom(red: Redirects, first: Name, completed: set<Name>) returns (cycle: seq<Name>, path: seq<Name>)
    requires first in red && first !in completed
    ensures cycle != [] ==> IsCycle(red, cycle)
    ensures cycle == [] ==>
      && path != [] && path[0] == first && NoDup(path) && IsChain(red, path)
      && Names(path) <= red.Keys && Names(path) !! completed
      && (Target(red, path[|path| - 1]) in red ==> Target(red, path[|path| - 1]) in completed)
  {
    path := [];
    var indices: map<Name, nat> := map[];
    var current := first;
    while true
      invariant current in red && current !in completed
      invariant NoDup(path) && IsChain(red, path + [current])
      invariant Names(path) <= red.Keys && Names(path) !! completed
      invariant (path + [current])[0] == first
      invariant indices.Keys == Names(path)
      invariant forall x :: x in indices ==> indices[x] < |path| && path[indices[x]] == x
      decreases red.Keys - Names(path)
    {
      if current in indices {
        var at := indices[current];
        cycle := path[at..] + [current];
        ClosesCycle(red, path, current, at);
        return;
      }
      PathGrows(red, path, current);
      indices := indices[current := |path|];
      path := path + [current];
      var target := Target(red, current);
      if target !in red || target in completed {
        return [], path;
      }
      current := target;
    }
    return [], path;
  }

  // ---- Redirect order -----------------------------------------------------------------------

  /** Aliases not emitted yet that redirect to t. */
  ghost function Waiting(red: Redirects, t: Name, emitted: set<Name>): set<Name> {
    set s | s in red && s !in emitted && Target(red, s) == t
  }

  lemma WaitingGrows(red: Redirects, t: Name, todo: set<Name>, a: Name)
    requires a in todo && a in red
    ensures |Waiting(red, t, todo - {a})| == |Waiting(red, t, todo)| + if Target(red, a) == t then 1 else 0
  {
    if Target(red, a) == t {
      assert Waiting(red, t, todo - {a}) == Waiting(red, t, todo) + {a};
    } else {
      assert Waiting(red, t, todo - {a}) == Waiting(red, t, todo);
    }
  }

  method SourceCounts(red: Redirects) returns (count: map<Name, nat>)
    ensures count.Keys == red.Keys
    ensures forall t :: t in red ==> count[t] == |Waiting(red, t, {})|
  {
    count := map a | a in red :: 0;
    var todo := red.Keys;
    forall t | t in red ensures count[t] == |Waiting(red, t, todo)| { assert Waiting(red, t, todo) == {}; }
    while todo != {}
      invariant todo <= red.Keys && count.Keys == red.Keys
      invariant forall t :: t in red ==> count[t] == |Waiting(red, t, todo)|
      decreases todo
    {
      var a := Ordered.Pick(todo);
      var target := Target(red, a);
      forall t | t in red
        ensures |Waiting(red, t, todo - {a})| == |Waiting(red, t, todo)| + if target == t then 1 else 0
      {
        WaitingGrows(red, t, todo, a);
      }
      if target in count { count := count[target := count[target] + 1]; }
      todo := todo - {a};
    }
  }

  /** Entry i comes after all aliases that redirect to it. */
  ghost predicate AfterSources(red: Redirects, order: seq<Name>, i: nat)
    requires i < |order|
  {
    forall s :: s in red && Target(red, s) == order[i] ==> s in order[..i]
  }

  /** Every alias exactly once, each after all aliases that redirect to it. */
  ghost predicate IsRedirectOrder(red: Redirects, order: seq<Name>) {
    NoDup(order) && Names(order) == red.Keys && forall i :: 0 <= i < |order| ==> AfterSources(red, order, i)
  }

  /** Without cycles some alias is always ready. */
  lemma {:induction false} SomeAliasReady(red: Redirects, roots: seq<Name>, emitted: set<Name>, k: nat)
    requires Rooted(red, roots) && Names(roots) == red.Keys && k <= |roots|
    requires forall t :: t in red && t !in emitted ==> Waiting(red, t, emitted) != {}
    requires forall i :: k <= i < |roots| ==> roots[i] in emitted
    ensures red.Keys <= emitted
    decreases k
  {
    if k > 0 {
      var u := roots[k - 1];
      forall s | s in red && Target(red, s) == u ensures s in emitted {
        assert s in Names(roots);
        var i :| 0 <= i < |roots| && roots[i] == s;
        assert RootedAt(red, roots, i);
      }
      assert Waiting(red, u, emitted) == {};
      SomeAliasReady(red, roots, emitted, k - 1);
    } else {
      forall a | a in red ensures a in emitted { assert a in Names(roots); }
    }
  }

  /** Each counter is the number of aliases not emitted yet that redirect to its alias. */
  ghost predicate CountsExact(red: Redirects, count: map<Name, nat>, order: seq<Name>) {
    count.Keys == red.Keys && forall t :: t in red ==> count[t] == |Waiting(red, t, Names(order))|
  }

  ghost predicate ReadyExact(red: Redirects, count: map<Name, nat>, ready: set<Name>, order: seq<Name>) {
    count.Keys == red.Keys && forall a :: a in ready <==> a in red && a !in order && count[a] == 0
  }

  /** What the ready-set loop keeps. */
  ghost predicate KahnOk(red: Redirects, count: map<Name, nat>, ready: set<Name>, order: seq<Name>) {
    && Names(order) <= red.Keys && NoDup(order)
    && CountsExact(red, count, order)
    && ReadyExact(red, count, ready, order)
    && (forall i :: 0 <= i < |order| ==> AfterSources(red, order, i))
  }

  lemma EmitKeepsCounts(red: Redirects, order: seq<Name>, a: Name, t: Name)
    requires a in red && a !in order
    ensures |Waiting(red, t, Names(order))| ==
      |Waiting(red, t, Names(order + [a]))| + (if Target(red, a) == t then 1 else 0)
  {
    assert Names(order + [a]) == Names(order) + {a};
    if Target(red, a) == t {
      assert Waiting(red, t, Names(order + [a])) == Waiting(red, t, Names(order)) - {a};
      assert a in Waiting(red, t, Names(order));
    } else {
      assert Waiting(red, t, Names(order + [a])) == Waiting(red, t, Names(order));
    }
  }

  function CountsAfter(red: Redirects, count: map<Name, nat>, a: Name): map<Name, nat>
    requires a in red && (Target(red, a) in count ==> count[Target(red, a)] > 0)
  {
    if Target(red, a) in count then count[Target(red, a) := count[Target(red, a)] - 1] else count
  }

  function ReadyAfter(red: Redirects, count: map<Name, nat>, ready: set<Name>, a: Name): set<Name>
    requires a in red
  {
    ready - {a} + if Target(red, a) in count && count[Target(red, a)] == 1 then {Target(red, a)} else {}
  }

  lemma EmitKeepsCountsExact(red: Redirects, count: map<Name, nat>, order: seq<Name>, a: Name)
    requires CountsExact(red, count, order) && a in red && a !in order
    ensures Target(red, a) in red ==> count[Target(red, a)] > 0
    ensures CountsExact(red, CountsAfter(red, count, a), order + [a])
  {
    var t := Target(red, a);
    if t in red { EmitKeepsCounts(red, order, a, t); }
    var count' := CountsAfter(red, count, a);
    forall x | x in red ensures count'[x] == |Waiting(red, x, Names(order + [a]))| {
      EmitKeepsCounts(red, order, a, x);
    }
  }

  lemma EmitKeepsReadyExact(red: Redirects, count: map<Name, nat>, ready: set<Name>, order: seq<Name>, a: Name)
    requires ReadyExact(red, count, ready, order) && a in ready && a != Target(red, a) && Target(red, a) !in order
    requires Target(red, a) in red ==> count[Target(red, a)] > 0
    ensures ReadyExact(red, CountsAfter(red, count, a), ReadyAfter(red, count, ready, a), order + [a])
  {
    var count', ready' := CountsAfter(red, count, a), ReadyAfter(red, count, ready, a);
    forall x ensures x in ready' <==> x in red && x !in order + [a] && count'[x] == 0 {
      assert x in order + [a] <==> x in order || x == a;
    }
  }

  lemma EmitKeepsKahn(red: Redirects, count: map<Name, nat>, ready: set<Name>, order: seq<Name>, a: Name)
    requires KahnOk(red, count, ready, order) && a in ready
    ensures Target(red, a) in red ==> count[Target(red, a)] > 0
    ensures KahnOk(red, CountsAfter(red, count, a), ReadyAfter(red, count, ready, a), order + [a])
    ensures Names(order + [a]) == Names(order) + {a} && a !in Names(order)
  {
    assert a in red && a !in order && count[a] == 0;
    NoneWaiting(red, a, order);
    TargetNotEmitted(red, order, a);
    NotItsOwnTarget(red, order, a);
    EmitKeepsCountsExact(red, count, order, a);
    EmitKeepsReadyExact(red, count, ready, order, a);
    EmitKeepsOrder(red, order, a);
    AppendName(order, a);
  }

  lemma AppendName(order: seq<Name>, a: Name)
    requires NoDup(order) && a !in order
    ensures NoDup(order + [a]) && Names(order + [a]) == Names(order) + {a} && a !in Names(order)
  {
  }

  lemma NotItsOwnTarget(red: Redirects, order: seq<Name>, a: Name)
    requires a in red && a !in order && forall s :: s in red && Target(red, s) == a ==> s in order
    ensures Target(red, a) != a
  {
  }

  lemma KahnStarts(red: Redirects, count: map<Name, nat>, ready: set<Name>)
    requires count.Keys == red.Keys && forall t :: t in red ==> count[t] == |Waiting(red, t, {})|
    requires forall a :: a in ready <==> a in red && count[a] == 0
    ensures KahnOk(red, count, ready, [])
  {
    assert Names<Name>([]) == {};
  }

  lemma KahnEnds(red: Redirects, roots: seq<Name>, count: map<Name, nat>, order: seq<Name>)
    requires Rooted(red, roots) && Names(roots) == red.Keys && KahnOk(red, count, {}, order)
    ensures IsRedirectOrder(red, order)
  {
    forall t | t in red && t !in Names(order) ensures Waiting(red, t, Names(order)) != {} {
      assert t !in {} && t !in order;
      assert count[t] != 0;
    }
    SomeAliasReady(red, roots, Names(order), |roots|);
  }

  /** Counters and ready set once a has been emitted. */
  method Emit(red: Redirects, count: map<Name, nat>, ready: set<Name>, a: Name)
    returns (count': map<Name, nat>, ready': set<Name>)
    requires a in red && (Target(red, a) in count ==> count[Target(red, a)] > 0)
    ensures count' == CountsAfter(red, count, a) && ready' == ReadyAfter(red, count, ready, a)
  {
    count', ready' := count, ready - {a};
    var target := Target(red, a);
    if target in count {
      count' := count[target := count[target] - 1];
      if count'[target] == 0 { ready' := ready' + {target}; }
    }
  }

  /** The ready-set loop; any ready alias may be taken next. */
  method RedirectOrder(red: Redirects, ghost roots: seq<Name>) returns (order: seq<Name>)
    requires Rooted(red, roots) && Names(roots) == red.Keys
    ensures IsRedirectOrder(red, order)
  {
    var count := SourceCounts(red);
    var ready := set a | a in count && count[a] == 0;
    order := [];
    KahnStarts(red, count, ready);
    while ready != {}
      invariant KahnOk(red, count, ready, order)
      decreases red.Keys - Names(order)
    {
      var a := Ordered.Pick(ready);
      EmitKeepsKahn(red, count, ready, order, a);
      count, ready := Emit(red, count, ready, a);
      order := order + [a];
    }
    KahnEnds(red, roots, count, order);
  }

  lemma NoneWaiting(red: Redirects, a: Name, order: seq<Name>)
    requires |Waiting(red, a, Names(order))| == 0
    ensures forall s :: s in red && Target(red, s) == a ==> s in order
  {
    forall s | s in red && Target(red, s) == a ensures s in order {
      assert s !in Waiting(red, a, Names(order));
    }
  }

  lemma EmitKeepsOrder(red: Redirects, order: seq<Name>, a: Name)
    requires forall i :: 0 <= i < |order| ==> AfterSources(red, order, i)
    requires forall s :: s in red && Target(red, s) == a ==> s in order
    ensures forall i :: 0 <= i < |order + [a]| ==> AfterSources(red, order + [a], i)
  {
    var order' := order + [a];
    forall i | 0 <= i < |order'| ensures AfterSources(red, order', i) {
      assert order'[..i] == order[..i];
      if i < |order| { assert AfterSources(red, order, i); } else { assert order[..i] == order; }
    }
  }

  /** An alias that has not been emitted has a target that has not been emitted. */
  lemma TargetNotEmitted(red: Redirects, order: seq<Name>, a: Name)
    requires a in red && a !in order
    requires forall i :: 0 <= i < |order| ==> AfterSources(red, order, i)
    ensures Target(red, a) !in order
  {
    forall i | 0 <= i < |order| ensures order[i] != Target(red, a) {
      assert AfterSources(red, order, i);
      assert a !in order[..i];
    }
  }

  /** The aliases of an acyclic configuration, in redirect order; None reports a cycle. */
  method OrderAliases(red: Redirects) returns (r: Option<seq<Name>>)
    ensures r.None? <==> exists c :: IsCycle(red, c)
    ensures r.Some? ==> IsRedirectOrder(red, r.value)
  {
    var cycle, roots := GetSocketRedirectCycle(red);
    if cycle != [] { return None; }
    var order := RedirectOrder(red, roots);
    r := Some(order);
  }
}
