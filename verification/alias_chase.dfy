/**
 * What becomes of the parameters of a container with socket aliases: bind
 * values that name an alias are resolved, and parameters under an alias are
 * copied to the internal socket the alias stands for.
 */
module AliasChase {
  import opened Basics
  import opened AliasGraph

  /** A parameter name: a path inside the container, or anything else. */
  datatype Key = Inside(path: Path) | Elsewhere(text: string)

  predicate Under(a: Name, k: Key) { k.Inside? && |k.path| >= 2 && k.path[0] == a }

  predicate UnderAlias(red: Redirects, k: Key) { k.Inside? && |k.path| >= 2 && k.path[0] in red }

  /** The name of k with alias a replaced by what it stands for. */
  function Moved(red: Redirects, a: Name, k: Key): (r: Key)
    requires a in red && Under(a, k)
    ensures r.Inside? && |r.path| >= 2 && r.path[0] == Target(red, a)
  {
    Inside(red[a] + k.path[1..])
  }

  function Hop(red: Redirects, a: Name, k: Key): Key
    requires a in red
  {
    if Under(a, k) then Moved(red, a, k) else k
  }

  ghost predicate AllIn(order: seq<Name>, red: Redirects) { forall i :: 0 <= i < |order| ==> order[i] in red }

  /** The name k ends up with when the aliases are taken in this order. */
  function Chase(red: Redirects, order: seq<Name>, k: Key): Key
    requires AllIn(order, red)
  {
    if order == [] then k
    else Hop(red, order[|order| - 1], Chase(red, order[..|order| - 1], k))
  }

  lemma RedirectOrderAllIn(red: Redirects, order: seq<Name>)
    requires IsRedirectOrder(red, order)
    ensures AllIn(order, red)
  {
    forall i | 0 <= i < |order| ensures order[i] in red { assert order[i] in Names(order); }
  }

  /** The alias an alias redirects to comes later. */
  lemma TargetComesLater(red: Redirects, order: seq<Name>, i: nat)
    requires IsRedirectOrder(red, order) && i < |order|
    ensures order[i] in red && Target(red, order[i]) !in order[..i + 1]
  {
    RedirectOrderAllIn(red, order);
    forall j | 0 <= j <= i ensures order[j] != Target(red, order[i]) {
      assert AfterSources(red, order, j);
      assert order[i] !in order[..j];
    }
  }

  lemma ChasePrefix(red: Redirects, order: seq<Name>, n: nat, k: Key)
    requires AllIn(order, red) && n < |order|
    ensures Chase(red, order[..n + 1], k) == Hop(red, order[n], Chase(red, order[..n], k))
  {
    assert order[..n + 1][..n] == order[..n];
  }

  /** After n aliases the name is under none of them any more. */
  lemma {:induction false} ChaseLeaves(red: Redirects, order: seq<Name>, n: nat, k: Key)
    requires IsRedirectOrder(red, order) && n <= |order|
    ensures AllIn(order, red)
    ensures UnderAlias(red, Chase(red, order[..n], k)) ==> Chase(red, order[..n], k).path[0] !in order[..n]
    decreases n
  {
    RedirectOrderAllIn(red, order);
    if n > 0 {
      ChaseLeaves(red, order, n - 1, k);
      ChasePrefix(red, order, n - 1, k);
      TargetComesLater(red, order, n - 1);
      assert order[..n] == order[..n - 1] + [order[n - 1]];
      HopLeaves(red, order[..n - 1], order[n - 1], Chase(red, order[..n - 1], k));
    }
  }

  /** One hop takes a name away from alias a, and back to none of the aliases before it. */
  lemma HopLeaves(red: Redirects, before: seq<Name>, a: Name, k: Key)
    requires a in red && Target(red, a) !in before + [a] && (UnderAlias(red, k) ==> k.path[0] !in before)
    ensures var r := Hop(red, a, k); UnderAlias(red, r) ==> r.path[0] !in before + [a]
  {
  }

  /** Before its own alias is reached a name stays put. */
  lemma {:induction false} ChaseWaits(red: Redirects, order: seq<Name>, n: nat, k: Key)
    requires AllIn(order, red) && n <= |order|
    requires UnderAlias(red, k) ==> k.path[0] !in order[..n]
    ensures Chase(red, order[..n], k) == k
    decreases n
  {
    if n > 0 {
      assert order[..n] == order[..n - 1] + [order[n - 1]];
      ChaseWaits(red, order, n - 1, k);
      ChasePrefix(red, order, n - 1, k);
    }
  }

  lemma {:induction false} ChaseJoins(red: Redirects, order: seq<Name>, i: nat, n: nat, k: Key)
    requires IsRedirectOrder(red, order) && AllIn(order, red) && i < n <= |order| && Under(order[i], k)
    ensures Chase(red, order[..n], k) == Chase(red, order[..n], Moved(red, order[i], k))
    decreases n
  {
    var m := Moved(red, order[i], k);
    if n == i + 1 {
      assert order[i] !in order[..i];
      ChaseWaits(red, order, i, k);
      ChasePrefix(red, order, i, k);
      TargetComesLater(red, order, i);
      ChaseWaits(red, order, n, m);
    } else {
      ChaseJoins(red, order, i, n - 1, k);
      ChasePrefix(red, order, n - 1, k);
      ChasePrefix(red, order, n - 1, m);
    }
  }

  /**
   * In any redirect order the chase is complete: it follows every alias to the
   * end, whatever the order, and leaves all other names alone.
   */
  lemma ChaseIsComplete(red: Redirects, order: seq<Name>, k: Key)
    requires IsRedirectOrder(red, order)
    ensures AllIn(order, red)
    ensures !UnderAlias(red, Chase(red, order, k))
    ensures if UnderAlias(red, k) then Chase(red, order, k) == Chase(red, order, Moved(red, k.path[0], k))
            else Chase(red, order, k) == k
  {
    RedirectOrderAllIn(red, order);
    assert order[..|order|] == order;
    ChaseLeaves(red, order, |order|, k);
    assert forall a :: a in red ==> a in Names(order);
    if UnderAlias(red, k) {
      var i :| 0 <= i < |order| && order[i] == k.path[0];
      ChaseJoins(red, order, i, |order|, k);
    } else {
      ChaseWaits(red, order, |order|, k);
    }
  }

  // ---- Migration ------------------------------------------------------------------------------

  /** The name under alias a that moves to n, if there is one. */
  function Origin(red: Redirects, a: Name, n: Key): (r: Option<Key>)
    requires a in red
    ensures r.Some? ==> Under(a, r.value) && Moved(red, a, r.value) == n
    ensures forall k :: Under(a, k) && Moved(red, a, k) == n ==> r == Some(k)
  {
    if n.Inside? && |n.path| > |red[a]| && n.path[..|red[a]|] == red[a]
    then
      var k := Inside([a] + n.path[|red[a]|..]);
      assert k.path[1..] == n.path[|red[a]|..];
      MovedInjective(red, a, k);
      Some(k)
    else
      MovedPrefix(red, a);
      None
  }

  lemma MovedPrefix(red: Redirects, a: Name)
    requires a in red
    ensures forall k :: Under(a, k) ==>
      var n := Moved(red, a, k);
      |n.path| > |red[a]| && n.path[..|red[a]|] == red[a] && n.path[|red[a]|..] == k.path[1..]
  {
  }

  lemma MovedInjective(red: Redirects, a: Name, k: Key)
    requires a in red && Under(a, k)
    ensures forall l :: Under(a, l) && Moved(red, a, l) == Moved(red, a, k) ==> l == k
  {
    MovedPrefix(red, a);
    forall l | Under(a, l) && Moved(red, a, l) == Moved(red, a, k) ensures l == k {
      assert l.path == [a] + l.path[1..] && k.path == [a] + k.path[1..];
    }
  }

  /** Does n receive a value when alias a is migrated? */
  predicate Receives<V>(red: Redirects, w: map<Key, V>, a: Name, n: Key)
    requires a in red
  {
    Origin(red, a, n).Some? && Origin(red, a, n).value in w
  }

  /** Copy every parameter under alias a to the name a stands for. */
  ghost function MigrateOne<V>(red: Redirects, w: map<Key, V>, a: Name): (r: map<Key, V>)
    requires a in red
    ensures forall n :: n in r <==> n in w || Receives(red, w, a, n)
    ensures forall n :: n in r ==> r[n] == if Receives(red, w, a, n) then w[Origin(red, a, n).value] else w[n]
  {
    var keys := w.Keys + set k | k in w && Under(a, k) :: Moved(red, a, k);
    assert forall n :: n in keys <==> n in w || Receives(red, w, a, n);
    map n | n in keys :: if Receives(red, w, a, n) then w[Origin(red, a, n).value] else w[n]
  }

  ghost function MigrateAll<V>(red: Redirects, w: map<Key, V>, order: seq<Name>): map<Key, V>
    requires AllIn(order, red)
  {
    if order == [] then w
    else MigrateOne(red, MigrateAll(red, w, order[..|order| - 1]), order[|order| - 1])
  }

  /**
   * Of two parameters chased to one name, does p's value arrive last? The last
   * alias that moves one of them and not the other decides: its migration writes.
   */
  ghost predicate Beats(red: Redirects, order: seq<Name>, p: Key, q: Key)
    requires AllIn(order, red)
  {
    order != [] &&
    var front, a := order[..|order| - 1], order[|order| - 1];
    var movesP, movesQ := Under(a, Chase(red, front, p)), Under(a, Chase(red, front, q));
    if movesP != movesQ then movesP else Beats(red, front, p, q)
  }

  /** Parameter p of w gives n its value v: it is chased there, and beats every other that is. */
  ghost predicate Wins<V>(red: Redirects, w: map<Key, V>, order: seq<Name>, n: Key, v: V, p: Key)
    requires AllIn(order, red)
  {
    && p in w && Chase(red, order, p) == n && w[p] == v
    && forall q :: q in w && q != p && Chase(red, order, q) == n ==> Beats(red, order, p, q)
  }

  lemma {:induction false} BeatsIsStrict(red: Redirects, order: seq<Name>, p: Key, q: Key)
    requires AllIn(order, red)
    ensures !(Beats(red, order, p, q) && Beats(red, order, q, p))
    ensures Beats(red, order, p, q) ==> UnderAlias(red, p)
    decreases |order|
  {
    if order != [] {
      var front := order[..|order| - 1];
      BeatsIsStrict(red, front, p, q);
      HoppedWasUnder(red, front, p);
    }
  }

  /** At most one parameter wins. */
  lemma WinnerIsUnique<V>(red: Redirects, w: map<Key, V>, order: seq<Name>, n: Key, v: V, v': V, p: Key, p': Key)
    requires AllIn(order, red) && Wins(red, w, order, n, v, p) && Wins(red, w, order, n, v', p')
    ensures p == p' && v == v'
  {
    BeatsIsStrict(red, order, p, p');
  }

  /** What the aliases of `order` have done, for names not under any of them. */
  ghost predicate Traced<V>(red: Redirects, w: map<Key, V>, order: seq<Name>)
    requires AllIn(order, red)
  {
    var r := MigrateAll(red, w, order);
    && (forall p :: p in w ==> Chase(red, order, p) in r)
    && (forall n :: n in r && (UnderAlias(red, n) ==> n.path[0] !in order) ==>
          exists p :: Wins(red, w, order, n, r[n], p))
  }

  lemma HoppedWasUnder(red: Redirects, order: seq<Name>, k: Key)
    requires AllIn(order, red)
    ensures Chase(red, order, k) != k ==> UnderAlias(red, k)
  {
    if order != [] { HoppedWasUnder(red, order[..|order| - 1], k); }
  }

  lemma TraceOne<V>(red: Redirects, w: map<Key, V>, order: seq<Name>, n: Key) returns (p: Key)
    requires order != [] && AllIn(order, red) && AllIn(order[..|order| - 1], red)
    requires Traced(red, w, order[..|order| - 1]) && order[|order| - 1] !in order[..|order| - 1]
    requires n in MigrateAll(red, w, order) && (UnderAlias(red, n) ==> n.path[0] !in order)
    ensures Wins(red, w, order, n, MigrateAll(red, w, order)[n], p)
  {
    var front, a := order[..|order| - 1], order[|order| - 1];
    var f := MigrateAll(red, w, front);
    var from := if Receives(red, f, a, n) then Origin(red, a, n).value else n;
    p :| Wins(red, w, front, from, f[from], p);
    forall q | q in w && q != p && Chase(red, order, q) == n ensures Beats(red, order, p, q) {
      var c := Chase(red, front, q);
      assert c in f;
      if Under(a, c) { assert Origin(red, a, n) == Some(c); }
    }
  }

  lemma {:induction false} MigrationTraced<V>(red: Redirects, w: map<Key, V>, order: seq<Name>)
    requires AllIn(order, red) && NoDup(order)
    ensures Traced(red, w, order)
    decreases |order|
  {
    if order == [] {
      forall n | n in w ensures exists p :: Wins(red, w, order, n, w[n], p) {
        assert Wins(red, w, order, n, w[n], n);
      }
    } else {
      var front, a := order[..|order| - 1], order[|order| - 1];
      MigrationTraced(red, w, front);
      var f, r := MigrateAll(red, w, front), MigrateAll(red, w, order);
      forall p | p in w ensures Chase(red, order, p) in r {
        var q := Chase(red, front, p);
        assert q in f;
        if Under(a, q) { assert Origin(red, a, Moved(red, a, q)) == Some(q); }
      }
      forall n | n in r && (UnderAlias(red, n) ==> n.path[0] !in order)
        ensures exists p :: Wins(red, w, order, n, r[n], p)
      {
        var p := TraceOne(red, w, order, n);
      }
    }
  }

  /**
   * Alias resolution. After migration in a redirect order, the names that are not
   * under an alias are exactly the fully chased names of the original parameters.
   * Each carries the value of the one parameter that wins it: the last alias that
   * writes the name, and does not write it for both, decides between two, and a
   * parameter given under an alias wins over one given under the internal name.
   */
  lemma AliasResolution<V>(red: Redirects, w: map<Key, V>, order: seq<Name>, n: Key)
    requires IsRedirectOrder(red, order) && !UnderAlias(red, n)
    ensures AllIn(order, red)
    ensures n in MigrateAll(red, w, order) <==> exists p :: p in w && Chase(red, order, p) == n
    ensures n in MigrateAll(red, w, order) ==> exists p :: Wins(red, w, order, n, MigrateAll(red, w, order)[n], p)
    ensures forall v, p :: Wins(red, w, order, n, v, p) ==>
      n in MigrateAll(red, w, order) && MigrateAll(red, w, order)[n] == v
    ensures forall v, p, q :: Wins(red, w, order, n, v, p) && q in w && UnderAlias(red, q) && Chase(red, order, q) == n
              ==> UnderAlias(red, p)
  {
    RedirectOrderAllIn(red, order);
    MigrationTraced(red, w, order);
    var r := MigrateAll(red, w, order);
    if n in r {
      var p :| Wins(red, w, order, n, r[n], p);
      assert p in w && Chase(red, order, p) == n;
    }
    forall v, p | Wins(red, w, order, n, v, p) ensures n in r && r[n] == v {
      assert Chase(red, order, p) in r;
      var p' :| Wins(red, w, order, n, r[n], p');
      WinnerIsUnique(red, w, order, n, v, r[n], p, p');
    }
    forall v, p, q | Wins(red, w, order, n, v, p) && q in w && UnderAlias(red, q) && Chase(red, order, q) == n
      ensures UnderAlias(red, p)
    {
      if q != p { BeatsIsStrict(red, order, p, q); }
    }
  }

  /** Migration only adds and overwrites. */
  lemma {:induction false} NothingDisappears<V>(red: Redirects, w: map<Key, V>, order: seq<Name>)
    requires AllIn(order, red)
    ensures forall n :: n in w ==> n in MigrateAll(red, w, order)
    decreases |order|
  {
    if order != [] { NothingDisappears(red, w, order[..|order| - 1]); }
  }

  /** From its own turn on, the names under an alias are not written any more. */
  lemma {:induction false} SettledByTurn<V>(red: Redirects, w: map<Key, V>, order: seq<Name>, i: nat, m: nat, n: Key)
    requires IsRedirectOrder(red, order) && AllIn(order, red) && i <= m <= |order| && i < |order| && Under(order[i], n)
    ensures n in MigrateAll(red, w, order[..m]) <==> n in MigrateAll(red, w, order[..i])
    ensures n in MigrateAll(red, w, order[..m]) ==>
      MigrateAll(red, w, order[..m])[n] == MigrateAll(red, w, order[..i])[n]
    decreases m
  {
    if m > i {
      SettledByTurn(red, w, order, i, m - 1, n);
      assert order[..m][..m - 1] == order[..m - 1];
      TargetComesLater(red, order, m - 1);
      assert order[i] in order[..m];
      WrittenByTarget(red, MigrateAll(red, w, order[..m - 1]), order[m - 1], n);
    }
  }

  /** Migrating alias a leaves alone whatever is not under what a stands for. */
  lemma WrittenByTarget<V>(red: Redirects, w: map<Key, V>, a: Name, n: Key)
    requires a in red && n.Inside? && n.path[0] != Target(red, a)
    ensures n in MigrateOne(red, w, a) <==> n in w
    ensures n in w ==> MigrateOne(red, w, a)[n] == w[n]
  {
    assert !Receives(red, w, a, n);
  }

  /**
   * The names under an alias keep, in the end, what the aliases before it have
   * brought there: exactly the parameters chased to the name by those aliases,
   * each with the value of the one that wins it. A parameter given under an alias
   * stays there.
   */
  lemma AliasedNames<V>(red: Redirects, w: map<Key, V>, order: seq<Name>, i: nat, n: Key)
    requires IsRedirectOrder(red, order) && i < |order| && Under(order[i], n)
    ensures AllIn(order, red)
    ensures var r, before := MigrateAll(red, w, order), order[..i];
      && (n in r <==> exists p :: p in w && Chase(red, before, p) == n)
      && (n in w ==> n in r)
      && (forall v, p :: Wins(red, w, before, n, v, p) ==> n in r && r[n] == v)
      && (n in r ==> exists p :: Wins(red, w, before, n, r[n], p))
  {
    RedirectOrderAllIn(red, order);
    var before := order[..i];
    assert order[..|order|] == order;
    SettledByTurn(red, w, order, i, |order|, n);
    assert order[i] !in before;
    MigrationTraced(red, w, before);
    var f := MigrateAll(red, w, before);
    NothingDisappears(red, w, order);
    if n in f {
      var p :| Wins(red, w, before, n, f[n], p);
    }
    forall v, p | Wins(red, w, before, n, v, p) ensures n in f && f[n] == v {
      assert Chase(red, before, p) in f;
      var p' :| Wins(red, w, before, n, f[n], p');
      WinnerIsUnique(red, w, before, n, v, f[n], p, p');
    }
  }
}
