/**
 * Order in which a container constructs its modules: priority groups in
 * ascending order, and inside a group repeated passes that construct whatever
 * has all it needs.
 */
module Planner {
  import opened Basics
  import Ordered

  type Name = string

  /**
   * What the configuration says of a module: its construction priority, the
   * modules of the same container it refers to (its own arguments and, for a
   * container, what its contents need), whether every other object it refers to
   * exists, and, for a router, the modules its sockets bind to.
   */
  datatype Info = Info(priority: int, deps: set<Name>, externalsFound: bool, binds: set<Name>)

  type Config = map<Name, Info>

  ghost predicate Known(xs: seq<Name>, cfg: Config) { forall x :: x in xs ==> x in cfg }

  // ---- What a plan is --------------------------------------------------------------

  /** Entry i has everything it refers to before it. */
  ghost predicate EntryOk(plan: seq<Name>, cfg: Config, i: nat)
    requires i < |plan|
  {
    plan[i] in cfg && cfg[plan[i]].externalsFound && cfg[plan[i]].deps <= Names(plan[..i])
  }

  ghost predicate ByPriority(plan: seq<Name>, cfg: Config) {
    Known(plan, cfg) && forall i, j :: 0 <= i < j < |plan| ==> cfg[plan[i]].priority <= cfg[plan[j]].priority
  }

  /** Every module exactly once, in priority order, each after all it depends on. */
  ghost predicate IsPlan(plan: seq<Name>, mods: seq<Name>, cfg: Config) {
    && NoDup(plan) && Names(plan) == Names(mods)
    && ByPriority(plan, cfg)
    && forall i :: 0 <= i < |plan| ==> EntryOk(plan, cfg, i)
  }

  /** Entry i, if a router, comes after the modules of its own priority that it binds to. */
  ghost predicate BindOk(plan: seq<Name>, mods: seq<Name>, cfg: Config, i: nat)
    requires i < |plan| && plan[i] in cfg && Known(mods, cfg)
  {
    forall t :: t in cfg[plan[i]].binds && t in mods && cfg[t].priority == cfg[plan[i]].priority ==> t in plan[..i]
  }

  /** The dependencies are acyclic (they decrease `rank`), resolvable, and never point to a later group. */
  ghost predicate Resolvable(mods: seq<Name>, cfg: Config, rank: map<Name, nat>) {
    && Known(mods, cfg)
    && forall m :: m in mods ==>
         && m in rank && cfg[m].externalsFound
         && forall d :: d in cfg[m].deps ==>
              d in mods && d in rank && cfg[d].priority <= cfg[m].priority && rank[d] < rank[m]
  }

  /** In addition router binds inside a group decrease the rank. */
  ghost predicate BindsResolvable(mods: seq<Name>, cfg: Config, rank: map<Name, nat>) {
    && Resolvable(mods, cfg, rank)
    && forall m, t :: m in mods && t in cfg[m].binds && t in mods && cfg[t].priority == cfg[m].priority ==>
         rank[t] < rank[m]
  }

  /**
   * A set of modules that can be ordered with all router binds honoured: what its
   * members need or bind to in their own group is in the set and has lower rank.
   */
  ghost predicate Orderly(mods: seq<Name>, cfg: Config, members: set<Name>, rank: map<Name, nat>) {
    Known(mods, cfg) && forall m :: m in members ==> OrderlyMember(mods, cfg, members, rank, m)
  }

  ghost predicate OrderlyMember(mods: seq<Name>, cfg: Config, members: set<Name>, rank: map<Name, nat>, m: Name)
    requires Known(mods, cfg)
  {
    && m in mods && m in rank && cfg[m].externalsFound
    && (forall d :: d in cfg[m].deps ==>
          && d in mods && cfg[d].priority <= cfg[m].priority
          && (cfg[d].priority == cfg[m].priority ==> d in members && d in rank && rank[d] < rank[m]))
    && (forall t :: t in cfg[m].binds && t in mods && cfg[t].priority == cfg[m].priority ==>
          t in members && t in rank && rank[t] < rank[m])
  }

  lemma BindsResolvableIsOrderly(mods: seq<Name>, cfg: Config, rank: map<Name, nat>)
    requires BindsResolvable(mods, cfg, rank)
    ensures Orderly(mods, cfg, Names(mods), rank)
  {
    forall m | m in Names(mods) ensures OrderlyMember(mods, cfg, Names(mods), rank, m) {
      assert m in mods;
      assert forall d :: d in mods ==> d in Names(mods);
    }
  }

  /** The position in a plan is such a rank. */
  lemma PlanGivesRank(plan: seq<Name>, mods: seq<Name>, cfg: Config) returns (rank: map<Name, nat>)
    requires IsPlan(plan, mods, cfg)
    ensures Resolvable(mods, cfg, rank)
  {
    assert forall m :: m in plan <==> m in Names(plan);
    assert forall m :: m in mods <==> m in Names(mods);
    rank := map m | m in Names(plan) :: Position(plan, m);
    forall m | m in mods
      ensures m in cfg && m in rank && cfg[m].externalsFound
      ensures forall d :: d in cfg[m].deps ==>
                d in mods && d in rank && cfg[d].priority <= cfg[m].priority && rank[d] < rank[m]
    {
      var i := Position(plan, m);
      assert EntryOk(plan, cfg, i);
      forall d | d in cfg[m].deps
        ensures d in mods && d in rank && cfg[d].priority <= cfg[m].priority && rank[d] < rank[m]
      {
        assert d in Names(plan[..i]);
        var j :| 0 <= j < i && plan[j] == d;
        assert Position(plan, d) == j;
      }
    }
  }

  ghost function Position(xs: seq<Name>, x: Name): (i: nat)
    requires x in xs
    ensures i < |xs| && xs[i] == x
  {
    var i :| 0 <= i < |xs| && xs[i] == x;
    i
  }

  // ---- One pass ---------------------------------------------------------------------

  predicate DepsAvailable(m: Name, cfg: Config, done: set<Name>)
    requires m in cfg
  {
    cfg[m].externalsFound && cfg[m].deps <= done
  }

  /** Whatever m refers or binds to and was still to do when the pass began is done. */
  ghost predicate BindsReady(m: Name, cfg: Config, passTodo: seq<Name>, done: set<Name>)
    requires m in cfg
  {
    forall t :: t in passTodo && (t in cfg[m].binds || t in cfg[m].deps) ==> t in done
  }

  ghost predicate Ready(m: Name, cfg: Config, passTodo: seq<Name>, done: set<Name>, enforce: bool)
    requires m in cfg
  {
    DepsAvailable(m, cfg, done) && (enforce ==> BindsReady(m, cfg, passTodo, done))
  }

  /** depends_on_me says that m wants t first. */
  ghost predicate Wants(dom: map<Name, set<Name>>, m: Name, t: Name) { t in dom && m in dom[t] }

  /** Enter `source` under each of its targets that is still to do. */
  method AddSource(dom0: map<Name, set<Name>>, todo: seq<Name>, source: Name, targets: set<Name>)
    returns (dom: map<Name, set<Name>>)
    ensures forall m, t :: Wants(dom, m, t) <==> Wants(dom0, m, t) || (m == source && t in targets && t in todo)
  {
    dom := dom0;
    var rest := targets;
    while rest != {}
      invariant rest <= targets
      invariant forall m, t :: Wants(dom, m, t) <==>
        Wants(dom0, m, t) || (m == source && t in targets - rest && t in todo)
      decreases rest
    {
      var target := Ordered.Pick(rest);
      ghost var before := dom;
      if target in todo {
        dom := dom[target := (if target in dom then dom[target] else {}) + {source}];
      }
      assert forall m, t :: Wants(dom, m, t) <==> Wants(before, m, t) || (m == source && t == target && t in todo);
      rest := rest - {target};
    }
  }

  /** depends_on_me: for each module still to do, the modules still to do that want it first. */
  method ComputeDependsOnMe(todo: seq<Name>, cfg: Config) returns (dom: map<Name, set<Name>>)
    requires Known(todo, cfg)
    ensures forall m, t :: Wants(dom, m, t) <==> m in todo && t in todo && (t in cfg[m].binds || t in cfg[m].deps)
  {
    dom := map[];
    for i := 0 to |todo|
      invariant forall m, t :: Wants(dom, m, t) <==>
        m in todo[..i] && t in todo && (t in cfg[m].binds || t in cfg[m].deps)
    {
      dom := AddSource(dom, todo, todo[i], cfg[todo[i]].binds + cfg[todo[i]].deps);
      assert todo[..i + 1] == todo[..i] + [todo[i]];
    }
    assert todo[..|todo|] == todo;
  }

  method BindDepsReady(m: Name, dom: map<Name, set<Name>>, done: set<Name>) returns (ready: bool)
    ensures ready <==> forall t :: Wants(dom, m, t) ==> t in done
  {
    var rest := dom.Keys;
    while rest != {}
      invariant rest <= dom.Keys
      invariant forall t :: Wants(dom, m, t) && t !in rest ==> t in done
      decreases rest
    {
      var t := Ordered.Pick(rest);
      if m in dom[t] && t !in done {
        assert Wants(dom, m, t);
        return false;
      }
      rest := rest - {t};
    }
    ready := true;
  }

  /** What one pass over `todo0` adds to `args0`, and what it leaves. */
  ghost predicate PassOk(cfg: Config, todo0: seq<Name>, args0: seq<Name>, enforce: bool, todo: seq<Name>,
                         args: seq<Name>)
  {
    && Known(todo0, cfg)
    && args0 <= args && NoDup(args) && NoDup(todo)
    && Names(todo) !! Names(args)
    && Names(args) + Names(todo) == Names(args0) + Names(todo0)
    && Names(todo) <= Names(todo0)
    && |args| + |todo| == |args0| + |todo0|
    && (forall i :: |args0| <= i < |args| ==>
          args[i] in todo0 && EntryOk(args, cfg, i) && (enforce ==> BindsReady(args[i], cfg, todo0, Names(args[..i]))))
  }

  /** What is left of `todo`, and what has been constructed, when each module is looked at once, in order. */
  ghost function Swept(cfg: Config, passTodo: seq<Name>, todo: seq<Name>, args: seq<Name>, enforce: bool):
      (r: (seq<Name>, seq<Name>))
    requires Known(todo, cfg)
    decreases |todo|
  {
    if todo == [] then ([], args)
    else if Ready(todo[0], cfg, passTodo, Names(args), enforce)
    then Swept(cfg, passTodo, todo[1..], args + [todo[0]], enforce)
    else
      var r := Swept(cfg, passTodo, todo[1..], args, enforce);
      ([todo[0]] + r.0, r.1)
  }

  method Pass(cfg: Config, todo0: seq<Name>, args0: seq<Name>, enforce: bool) returns (todo: seq<Name>, args: seq<Name>)
    requires Known(todo0, cfg) && NoDup(todo0) && NoDup(args0) && Names(todo0) !! Names(args0)
    ensures PassOk(cfg, todo0, args0, enforce, todo, args)
    ensures var all := Swept(cfg, todo0, todo0, args0, enforce); todo == all.0 && args == all.1
    ensures |args| == |args0| ==>
      todo == todo0 && args == args0 && forall m :: m in todo0 ==> !Ready(m, cfg, todo0, Names(args0), enforce)
  {
    var dom := ComputeDependsOnMe(todo0, cfg);
    var done := Names(args0);
    todo, args := todo0, args0;
    ghost var all := Swept(cfg, todo0, todo0, args0, enforce);
    var i := 0;
    assert todo[i..] == todo0 && todo[..i] == [];
    while i < |todo|
      invariant 0 <= i <= |todo|
      invariant done == Names(args)
      invariant PassOk(cfg, todo0, args0, enforce, todo, args) && Known(todo[i..], cfg)
      invariant var rest := Swept(cfg, todo0, todo[i..], args, enforce); todo[..i] + rest.0 == all.0 && rest.1 == all.1
      invariant |args| == |args0| ==>
        todo == todo0 && args == args0 && forall j :: 0 <= j < i ==> !Ready(todo0[j], cfg, todo0, Names(args0), enforce)
      decreases |todo| - i
    {
      var name := todo[i];
      assert name in Names(todo);
      var available := DepsAvailable(name, cfg, done);
      var ready := true;
      if available && enforce {
        ready := BindDepsReady(name, dom, done);
        assert ready <==> BindsReady(name, cfg, todo0, done);
      }
      if available && ready {
        ConstructKeepsPass(cfg, todo0, args0, enforce, todo, args, i);
        assert todo[i..][1..] == (todo[..i] + todo[i + 1..])[i..] && (todo[..i] + todo[i + 1..])[..i] == todo[..i];
        done := done + {name};
        args := args + [name];
        todo := todo[..i] + todo[i + 1..];
      } else {
        ghost var rest := Swept(cfg, todo0, todo[i + 1..], args, enforce);
        assert todo[i..][1..] == todo[i + 1..];
        assert todo[..i] + ([name] + rest.0) == todo[..i + 1] + rest.0;
        i := i + 1;
      }
    }
    assert todo[..i] == todo;
  }

  lemma ConstructKeepsPass(cfg: Config, todo0: seq<Name>, args0: seq<Name>, enforce: bool,
                           todo: seq<Name>, args: seq<Name>, i: nat)
    requires PassOk(cfg, todo0, args0, enforce, todo, args) && i < |todo| && todo[i] in cfg
    requires Ready(todo[i], cfg, todo0, Names(args), enforce)
    ensures PassOk(cfg, todo0, args0, enforce, todo[..i] + todo[i + 1..], args + [todo[i]])
    ensures Names(args + [todo[i]]) == Names(args) + {todo[i]}
  {
    var name := todo[i];
    var todo', args' := todo[..i] + todo[i + 1..], args + [name];
    assert name in Names(todo);
    assert Names(args') == Names(args) + {name};
    assert Names(todo') == Names(todo) - {name};
    forall j | |args0| <= j < |args'|
      ensures args'[j] in todo0 && EntryOk(args', cfg, j)
      ensures enforce ==> BindsReady(args'[j], cfg, todo0, Names(args'[..j]))
    {
      if j < |args| {
        assert args'[..j] == args[..j];
        assert EntryOk(args, cfg, j);
      } else {
        assert args'[..j] == args;
        assert name in Names(todo0);
      }
    }
  }

  // ---- One priority group ---------------------------------------------------------------

  /** Nothing in `stuck` can be constructed although all else named is done. */
  ghost predicate StuckSet(cfg: Config, stuck: set<Name>, done: set<Name>) {
    stuck != {} && stuck !! done && forall m :: m in stuck ==> m in cfg && !DepsAvailable(m, cfg, done)
  }

  /** The same when binds among `stuck` are to be honoured too. */
  ghost predicate BindStuckSet(cfg: Config, stuck: set<Name>, done: set<Name>) {
    && stuck != {} && stuck !! done
    && forall m :: m in stuck ==> m in cfg && !(DepsAvailable(m, cfg, done) && cfg[m].binds !! stuck)
  }

  /** What a group has added; router binds are honoured except by the modules in `late`. */
  ghost predicate GroupOk(cfg: Config, group: seq<Name>, args0: seq<Name>, late: set<Name>, args: seq<Name>) {
    && Known(group, cfg)
    && args0 <= args && NoDup(args)
    && (forall i :: |args0| <= i < |args| ==> args[i] in group && EntryOk(args, cfg, i))
    && (forall i, t :: |args0| <= i < |args| && args[i] !in late && t in cfg[args[i]].binds && t in group ==>
          t in args[..i])
  }

  lemma PassKeepsGroup(cfg: Config, group: seq<Name>, args0: seq<Name>, enforce: bool, late: set<Name>,
                       todo: seq<Name>, args: seq<Name>, todo': seq<Name>, args': seq<Name>)
    requires GroupOk(cfg, group, args0, late, args) && (enforce || Names(todo) <= late)
    requires Names(todo) <= Names(group) && Names(args) + Names(todo) == Names(args0) + Names(group)
    requires PassOk(cfg, todo, args, enforce, todo', args')
    ensures GroupOk(cfg, group, args0, late, args')
  {
    forall i | |args0| <= i < |args'|
      ensures args'[i] in group && EntryOk(args', cfg, i)
      ensures args'[i] !in late ==> forall t :: t in cfg[args'[i]].binds && t in group ==> t in args'[..i]
    {
      if i < |args| {
        assert args'[..i] == args[..i] && args'[i] == args[i];
        assert EntryOk(args, cfg, i);
      } else {
        assert args'[i] in Names(todo);
        if args'[i] !in late {
          assert BindsReady(args'[i], cfg, todo, Names(args'[..i]));
          forall t | t in cfg[args'[i]].binds && t in group ensures t in args'[..i] {
            assert t in Names(args) + Names(todo);
            assert args == args'[..|args|];
            if t in args { assert t in args'[..i]; } else { assert t in todo; assert t in Names(args'[..i]); }
          }
        }
      }
    }
  }

  /** Between two passes over a group. */
  ghost predicate GroupUnderway(cfg: Config, group: seq<Name>, args0: seq<Name>, enforce: bool, late: set<Name>,
                                todo: seq<Name>, args: seq<Name>)
  {
    && NoDup(todo) && Known(todo, cfg) && Names(todo) !! Names(args) && Names(todo) <= Names(group)
    && Names(args) + Names(todo) == Names(args0) + Names(group)
    && GroupOk(cfg, group, args0, late, args) && late <= Names(group)
    && (enforce || Names(todo) <= late)
    && (late != {} ==> BindStuckSet(cfg, late, Names(args0) + Names(group) - late))
  }

  lemma PassKeepsUnderway(cfg: Config, group: seq<Name>, args0: seq<Name>, enforce: bool, late: set<Name>,
                          todo: seq<Name>, args: seq<Name>, todo': seq<Name>, args': seq<Name>)
    requires GroupUnderway(cfg, group, args0, enforce, late, todo, args)
    requires PassOk(cfg, todo, args, enforce, todo', args')
    ensures GroupUnderway(cfg, group, args0, enforce, late, todo', args')
  {
    PassKeepsGroup(cfg, group, args0, enforce, late, todo, args, todo', args');
    assert forall m :: m in todo' ==> m in Names(todo');
    assert forall m :: m in Names(todo) ==> m in todo;
  }

  /** A pass that constructs nothing leaves modules that block each other. */
  lemma PassBlocked(cfg: Config, group: seq<Name>, args0: seq<Name>, enforce: bool, late: set<Name>,
                    todo: seq<Name>, args: seq<Name>)
    requires GroupUnderway(cfg, group, args0, enforce, late, todo, args) && todo != [] && (enforce ==> late == {})
    requires forall m :: m in todo ==> !Ready(m, cfg, todo, Names(args), enforce)
    ensures var stuck := Names(todo); var done := Names(args0) + Names(group) - stuck;
      if enforce then BindStuckSet(cfg, stuck, done) else StuckSet(cfg, stuck, done)
    ensures enforce ==> GroupUnderway(cfg, group, args0, false, Names(todo), todo, args)
  {
    var stuck := Names(todo);
    assert Names(args0) + Names(group) - stuck == Names(args);
    assert todo[0] in stuck;
    assert forall m :: m in stuck <==> m in todo;
    if enforce {
      forall m | m in stuck ensures !(DepsAvailable(m, cfg, Names(args)) && cfg[m].binds !! stuck) {
        assert !Ready(m, cfg, todo, Names(args), true);
      }
    }
  }

  /**
   * All passes over one priority group. The pass cap never ends the loop early,
   * and the bind dependencies are given up at most once, when they block all.
   */
  method PlanGroup(cfg: Config, group: seq<Name>, args0: seq<Name>)
    returns (r: Outcome<seq<Name>>, ghost stuck: set<Name>, ghost late: set<Name>)
    requires Known(group, cfg) && NoDup(group) && NoDup(args0) && Names(group) !! Names(args0)
    ensures stuck <= Names(group) && late <= Names(group)
    ensures r.Ok? ==> GroupOk(cfg, group, args0, late, r.value) && Names(r.value) == Names(args0) + Names(group)
    ensures r.Fatal? ==> StuckSet(cfg, stuck, Names(args0) + Names(group) - stuck)
    ensures late != {} ==> BindStuckSet(cfg, late, Names(args0) + Names(group) - late)
  {
    var todo, args := group, args0;
    var maxPasses := |todo| + 1;
    var pass := 0;
    var enforce := true;
    stuck, late := {}, {};
    while |todo| > 0 && pass < maxPasses
      invariant pass + |todo| <= |group|
      invariant GroupUnderway(cfg, group, args0, enforce, late, todo, args)
      invariant enforce ==> late == {}
      decreases |todo|, enforce
    {
      pass := pass + 1;
      var todo', args' := Pass(cfg, todo, args, enforce);
      var constructed := |args'| - |args|;
      if constructed == 0 {
        PassBlocked(cfg, group, args0, enforce, late, todo, args);
        if enforce {
          late := Names(todo);
          enforce := false;
          pass := pass - 1;
          continue;
        }
        stuck := Names(todo);
        return Fatal, stuck, late;
      }
      PassKeepsUnderway(cfg, group, args0, enforce, late, todo, args, todo', args');
      todo, args := todo', args';
    }
    assert todo == [];
    r := Ok(args);
  }

  // ---- The whole plan ----------------------------------------------------------------------

  function Members(mods: seq<Name>, cfg: Config, p: int): (r: seq<Name>)
    requires Known(mods, cfg)
    ensures forall m :: m in r <==> m in mods && cfg[m].priority == p
  {
    if mods == [] then []
    else
      var last := mods[|mods| - 1];
      var r := Members(mods[..|mods| - 1], cfg, p);
      assert mods == mods[..|mods| - 1] + [last];
      if cfg[last].priority == p then r + [last] else r
  }

  lemma MembersNoDup(mods: seq<Name>, cfg: Config, p: int)
    requires Known(mods, cfg) && NoDup(mods)
    ensures NoDup(Members(mods, cfg, p))
  {
    if mods != [] {
      MembersNoDup(mods[..|mods| - 1], cfg, p);
      var last := mods[|mods| - 1];
      assert last !in mods[..|mods| - 1];
    }
  }

  method GroupByPriority(mods: seq<Name>, cfg: Config) returns (groups: map<int, seq<Name>>)
    requires Known(mods, cfg)
    ensures forall m :: m in mods ==> cfg[m].priority in groups
    ensures forall p :: p in groups ==> groups[p] == Members(mods, cfg, p)
  {
    groups := map[];
    for i := 0 to |mods|
      invariant forall m :: m in mods[..i] ==> cfg[m].priority in groups
      invariant forall p :: p in groups ==> groups[p] == Members(mods[..i], cfg, p)
      invariant forall p :: p !in groups ==> Members(mods[..i], cfg, p) == []
    {
      var p := cfg[mods[i]].priority;
      assert mods[..i + 1][..i] == mods[..i];
      groups := groups[p := (if p in groups then groups[p] else []) + [mods[i]]];
    }
    assert mods[..|mods|] == mods;
  }

  /** Modules whose priority the iterator has passed. */
  ghost function Passed(mods: seq<Name>, cfg: Config, it: Option<int>): set<Name>
    requires Known(mods, cfg)
  {
    set m | m in mods && Ordered.Before(cfg[m].priority, it)
  }

  ghost predicate SoFarOk(mods: seq<Name>, cfg: Config, it: Option<int>, late: set<Name>, args: seq<Name>) {
    && Known(mods, cfg)
    && NoDup(args) && Names(args) == Passed(mods, cfg, it)
    && ByPriority(args, cfg)
    && (forall i :: 0 <= i < |args| ==> EntryOk(args, cfg, i))
    && (forall i :: 0 <= i < |args| && args[i] !in late ==> BindOk(args, mods, cfg, i))
  }

  /** An element of least rank. */
  ghost function Least(s: set<Name>, rank: map<Name, nat>): (m: Name)
    requires s != {} && s <= rank.Keys
    ensures m in s && forall x :: x in s ==> rank[m] <= rank[x]
    decreases |s|
  {
    var x :| x in s;
    if s == {x} then x
    else
      assert s - {x} != {};
      var y := Least(s - {x}, rank);
      if rank[x] <= rank[y] then x else y
  }

  /** A configuration that can be planned leaves nothing stuck in any group. */
  lemma ResolvableNeverStuck(mods: seq<Name>, cfg: Config, rank: map<Name, nat>, it: int, stuck: set<Name>)
    requires Resolvable(mods, cfg, rank)
    requires stuck <= Names(Members(mods, cfg, it))
    ensures !StuckSet(cfg, stuck, Passed(mods, cfg, Some(it)) + Names(Members(mods, cfg, it)) - stuck)
  {
    if stuck != {} {
      var group := Members(mods, cfg, it);
      var done := Passed(mods, cfg, Some(it)) + Names(group) - stuck;
      assert forall m :: m in stuck ==> m in Names(group) && m in group && m in mods;
      var m := Least(stuck, rank);
      forall d | d in cfg[m].deps ensures d in done {
        if cfg[d].priority == it { assert d in Names(group); }
      }
      assert DepsAvailable(m, cfg, done);
    }
  }

  /** Modules that can be ordered with their binds are not among those that block each other. */
  lemma OrderlyNeverStuck(mods: seq<Name>, cfg: Config, members: set<Name>, rank: map<Name, nat>, it: int,
                          stuck: set<Name>)
    requires Orderly(mods, cfg, members, rank) && stuck <= Names(Members(mods, cfg, it))
    requires BindStuckSet(cfg, stuck, Passed(mods, cfg, Some(it)) + Names(Members(mods, cfg, it)) - stuck)
    ensures members !! stuck
  {
    var both := members * stuck;
    if x :| x in members && x in stuck {
      assert x in both;
      forall m | m in both ensures m in rank { assert OrderlyMember(mods, cfg, members, rank, m); }
      var m := Least(both, rank);
      LeastIsReady(mods, cfg, members, rank, it, stuck, m);
    }
  }

  lemma LeastIsReady(mods: seq<Name>, cfg: Config, members: set<Name>, rank: map<Name, nat>, it: int,
                     stuck: set<Name>, m: Name)
    requires Orderly(mods, cfg, members, rank) && stuck <= Names(Members(mods, cfg, it))
    requires m in members && m in stuck && m in rank
    requires forall x :: x in members && x in stuck ==> x in rank && rank[m] <= rank[x]
    ensures m in cfg && cfg[m].binds !! stuck
    ensures DepsAvailable(m, cfg, Passed(mods, cfg, Some(it)) + Names(Members(mods, cfg, it)) - stuck)
  {
    var group := Members(mods, cfg, it);
    assert OrderlyMember(mods, cfg, members, rank, m);
    assert forall x :: x in stuck ==> x in Names(group) && x in group;
    forall d | d in cfg[m].deps ensures d in Passed(mods, cfg, Some(it)) + Names(group) - stuck {
      if cfg[d].priority == it { assert d in group && d in Names(group); }
    }
  }

  lemma GroupExtends(mods: seq<Name>, cfg: Config, p: int, it: Option<int>, late: set<Name>, late': set<Name>,
                     args: seq<Name>, args': seq<Name>)
    requires SoFarOk(mods, cfg, Some(p), late, args)
    requires GroupOk(cfg, Members(mods, cfg, p), args, late', args')
    requires Names(args') == Names(args) + Names(Members(mods, cfg, p))
    requires Passed(mods, cfg, it) == Passed(mods, cfg, Some(p)) + Names(Members(mods, cfg, p))
    ensures SoFarOk(mods, cfg, it, late + late', args')
  {
    var group := Members(mods, cfg, p);
    assert args == args'[..|args|];
    forall i | 0 <= i < |args'|
      ensures args'[i] in cfg && EntryOk(args', cfg, i)
      ensures if i < |args| then cfg[args'[i]].priority < p else cfg[args'[i]].priority == p
      ensures args'[i] !in late + late' ==> BindOk(args', mods, cfg, i)
    {
      if i < |args| {
        assert args'[..i] == args[..i] && args'[i] == args[i];
        assert args[i] in Names(args);
        assert EntryOk(args, cfg, i);
        if args[i] !in late { assert BindOk(args, mods, cfg, i); }
      } else {
        assert args'[i] in group;
      }
    }
    assert Known(args', cfg);
  }

  /**
   * The construction plan. It is produced exactly when some rank shows the
   * dependencies to be acyclic, resolvable and never pointing to a later group;
   * then it is a plan. A router comes after the modules of its group it binds to
   * whenever it belongs to a set of modules for which this can be had at all, so
   * binds that block each other cost only the modules caught up in them.
   */
  method PriorityConstruct(mods: seq<Name>, cfg: Config) returns (r: Outcome<seq<Name>>)
    requires Known(mods, cfg) && NoDup(mods)
    ensures r.Ok? ==> IsPlan(r.value, mods, cfg)
    ensures r.Ok? <==> exists rank :: Resolvable(mods, cfg, rank)
    ensures r.Ok? ==> forall members, rank :: Orderly(mods, cfg, members, rank) ==>
      forall i :: 0 <= i < |r.value| && r.value[i] in members ==> BindOk(r.value, mods, cfg, i)
    ensures r.Ok? && (exists rank :: BindsResolvable(mods, cfg, rank)) ==>
      forall i :: 0 <= i < |r.value| ==> BindOk(r.value, mods, cfg, i)
  {
    var groups := GroupByPriority(mods, cfg);
    var args := [];
    ghost var late := {};
    var it := Ordered.First(groups.Keys);
    while it.Some?
      invariant it.Some? ==> it.value in groups
      invariant SoFarOk(mods, cfg, it, late, args)
      invariant forall members, rank :: Orderly(mods, cfg, members, rank) ==> members !! late
      decreases Ordered.From(groups.Keys, it)
    {
      var p := it.value;
      ghost var group := Members(mods, cfg, p);
      MembersNoDup(mods, cfg, p);
      assert Names(group) !! Names(args);
      var o, stuck, late' := PlanGroup(cfg, groups[p], args);
      if o.Fatal? {
        forall rank ensures !Resolvable(mods, cfg, rank) {
          if Resolvable(mods, cfg, rank) { ResolvableNeverStuck(mods, cfg, rank, p, stuck); }
        }
        return Fatal;
      }
      forall members, rank | Orderly(mods, cfg, members, rank) ensures members !! late + late' {
        if late' != {} { OrderlyNeverStuck(mods, cfg, members, rank, p, late'); }
      }
      var next := Ordered.LowerBound(groups.Keys, p + 1);
      assert Passed(mods, cfg, next) == Passed(mods, cfg, Some(p)) + Names(group);
      GroupExtends(mods, cfg, p, next, late, late', args, o.value);
      args, late := o.value, late + late';
      assert p in Ordered.From(groups.Keys, it) && p !in Ordered.From(groups.Keys, next);
      assert Ordered.From(groups.Keys, next) <= Ordered.From(groups.Keys, it);
      it := next;
    }
    assert Passed(mods, cfg, None) == Names(mods);
    ghost var rank := PlanGivesRank(args, mods, cfg);
    AllOrderly(mods, cfg, late, args);
    r := Ok(args);
  }

  lemma AllOrderly(mods: seq<Name>, cfg: Config, late: set<Name>, plan: seq<Name>)
    requires SoFarOk(mods, cfg, None, late, plan) && Names(plan) == Names(mods)
    requires forall members, rank :: Orderly(mods, cfg, members, rank) ==> members !! late
    ensures (exists rank :: BindsResolvable(mods, cfg, rank)) ==>
      forall i :: 0 <= i < |plan| ==> BindOk(plan, mods, cfg, i)
  {
    if rank :| BindsResolvable(mods, cfg, rank) {
      BindsResolvableIsOrderly(mods, cfg, rank);
      forall i | 0 <= i < |plan| ensures BindOk(plan, mods, cfg, i) { assert plan[i] in Names(plan); }
    }
  }
}
