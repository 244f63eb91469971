/** Iteration over ordered keys, as std::map offers it: an iterator is a key, or None at the end. */
module Ordered {
  import opened Basics

  ghost predicate IsLowerBound(keys: set<int>, x: int, it: Option<int>) {
    match it
    case None => forall k :: k in keys ==> k < x
    case Some(b) => b in keys && x <= b && forall k :: k in keys && x <= k ==> b <= k
  }

  method Pick<T>(s: set<T>) returns (x: T)
    requires s != {}
    ensures x in s
  {
    x :| x in s;
  }

  /** First key not below x. */
  method LowerBound(keys: set<int>, x: int) returns (it: Option<int>)
    ensures IsLowerBound(keys, x, it)
  {
    it := None;
    var rest := keys;
    while rest != {}
      invariant rest <= keys
      invariant IsLowerBound(keys - rest, x, it)
      decreases rest
    {
      var k := Pick(rest);
      ghost var seen := keys - rest;
      rest := rest - {k};
      assert keys - rest == seen + {k};
      if x <= k && (it.None? || k < it.value) { it := Some(k); }
    }
    assert keys - rest == keys;
  }

  /** `begin()`. */
  method First(keys: set<int>) returns (it: Option<int>)
    ensures it.None? <==> keys == {}
    ensures it.Some? ==> it.value in keys && forall k :: k in keys ==> it.value <= k
  {
    it := None;
    var rest := keys;
    while rest != {}
      invariant rest <= keys
      invariant it.None? <==> keys - rest == {}
      invariant it.Some? ==> it.value in keys - rest && forall k :: k in keys - rest ==> it.value <= k
      decreases rest
    {
      var k := Pick(rest);
      ghost var seen := keys - rest;
      rest := rest - {k};
      assert keys - rest == seen + {k};
      if it.None? || k < it.value { it := Some(k); }
    }
    assert keys - rest == keys;
  }

  /** Is it the last key strictly before `it`, or `it` itself when there is none? */
  ghost predicate IsStepBack(keys: set<int>, it: Option<int>, r: Option<int>) {
    if exists k :: k in keys && Before(k, it)
    then r.Some? && r.value in keys && Before(r.value, it) && forall k :: k in keys && Before(k, it) ==> k <= r.value
    else r == it
  }

  predicate Before(k: int, it: Option<int>) { it.None? || k < it.value }

  /** `if (it != begin) --it`. */
  method StepBack(keys: set<int>, it: Option<int>) returns (r: Option<int>)
    ensures IsStepBack(keys, it, r)
  {
    var best: Option<int> := None;
    var rest := keys;
    while rest != {}
      invariant rest <= keys
      invariant best.None? ==> forall k :: k in keys - rest ==> !Before(k, it)
      invariant best.Some? ==> best.value in keys - rest && Before(best.value, it)
      invariant best.Some? ==> forall k :: k in keys - rest && Before(k, it) ==> k <= best.value
      decreases rest
    {
      var k := Pick(rest);
      ghost var seen := keys - rest;
      rest := rest - {k};
      assert keys - rest == seen + {k};
      if Before(k, it) && (best.None? || best.value < k) { best := Some(k); }
    }
    assert keys - rest == keys;
    r := if best.None? then it else best;
  }

  /** Keys from the iterator on; shrinks with every increment. */
  ghost function From(keys: set<int>, it: Option<int>): set<int> {
    set k | k in keys && it.Some? && it.value <= k
  }
}
