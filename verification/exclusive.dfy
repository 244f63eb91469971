/**
 * What the exclusive monitor promises, over a map from initiators to the range
 * each has locked, and over whole runs.
 */
module ExclusiveSpec {
  import opened Basics

  type Id = seq<nat>

  /** A byte range, both ends included. */
  datatype Range = Range(start: nat, end: nat) {
    predicate Overlaps(r: Range) { start <= r.end && r.start <= end }
    predicate Has(a: nat) { start <= a <= end }
    predicate Within(r: Range) { r.start <= start && end <= r.end }
    predicate NonEmpty() { start <= end }
  }

  type Locks = map<Id, Range>

  ghost predicate LocksOk(locks: Locks) {
    && (forall i :: i in locks ==> locks[i].NonEmpty())
    && (forall i, j :: i in locks && j in locks && i != j ==> !locks[i].Overlaps(locks[j]))
  }

  ghost predicate Free(locks: Locks, r: Range) {
    forall i :: i in locks ==> !locks[i].Overlaps(r)
  }

  /** Effect of an exclusive load the target accepted. */
  ghost function LoadLocked(locks: Locks, id: Id, r: Range): Locks {
    if Free(locks, r) then locks[id := r] else locks
  }

  ghost predicate StoreSucceeds(locks: Locks, id: Id, r: Range) { id in locks && locks[id] == r }

  ghost function Unlocked(locks: Locks, r: Range): Locks {
    map i | i in locks && !locks[i].Overlaps(r) :: locks[i]
  }

  /** w is the largest part of the target's window around addr that meets no lock. */
  ghost predicate IsGrant(locks: Locks, addr: nat, window: Range, w: Range) {
    && w.Has(addr) && w.Within(window) && Free(locks, w)
    && forall v: Range :: v.Has(addr) && v.Within(window) && Free(locks, v) ==> v.Within(w)
  }

  // ---- Runs --------------------------------------------------------------------

  /** Locks, and the windows initiators currently hold through the monitor. */
  datatype State = State(locks: Locks, grants: set<Range>)

  datatype Event =
    | Load(r: Range)
    | Store(r: Range)                                // forwarded whatever the target then answers
    | ExclusiveLoad(id: Id, r: Range, ok: bool)      // ok: did the target accept it?
    | ExclusiveStore(id: Id, r: Range)
    | DmiRequest(addr: nat, window: Range)           // the target offers `window`
    | DmiStore(w: Range, r: Range)                   // a store made directly through a granted window
    | Invalidate(r: Range)                           // the target withdraws a range

  ghost predicate Enabled(s: State, e: Event) {
    match e
    case Load(r) => r.NonEmpty()
    case Store(r) => r.NonEmpty()
    case ExclusiveLoad(id, r, ok) => r.NonEmpty()
    case ExclusiveStore(id, r) => r.NonEmpty()
    case DmiRequest(addr, window) => window.Has(addr)
    case DmiStore(w, r) => w in s.grants && r.NonEmpty() && r.Within(w)
    case Invalidate(r) => true
  }

  ghost function Without(grants: set<Range>, r: Range): set<Range> {
    set g | g in grants && !g.Overlaps(r)
  }

  /** Does the event take lock r for id? */
  ghost predicate Takes(s: State, e: Event, id: Id, r: Range) {
    e == ExclusiveLoad(id, r, true) && Free(s.locks, r)
  }

  ghost predicate Step(s: State, e: Event, s': State) {
    && Enabled(s, e)
    && match e
       case Load(r) => s' == s
       case Store(r) => s' == s.(locks := Unlocked(s.locks, r))
       case ExclusiveLoad(id, r, ok) =>
         if ok && Free(s.locks, r) then s' == State(s.locks[id := r], Without(s.grants, r)) else s' == s
       case ExclusiveStore(id, r) =>
         s' == if StoreSucceeds(s.locks, id, r) then s.(locks := s.locks - {id}) else s
       case DmiRequest(addr, window) =>
         if Free(s.locks, Range(addr, addr))
         then exists w :: IsGrant(s.locks, addr, window, w) && s' == s.(grants := s.grants + {w})
         else s' == s
       case DmiStore(w, r) => s' == s
       case Invalidate(r) => s' == s.(grants := Without(s.grants, r))
  }

  /** Does the event write to memory inside r, by transport or by direct access? */
  ghost predicate Writes(s: State, e: Event, r: Range) {
    match e
    case Store(x) => x.Overlaps(r)
    case ExclusiveStore(id, x) => StoreSucceeds(s.locks, id, x) && x.Overlaps(r)
    case DmiStore(_, x) => x.Overlaps(r)
    case _ => false
  }

  ghost predicate IsRun(run: seq<State>, events: seq<Event>) {
    && |run| == |events| + 1
    && run[0] == State(map[], {})
    && forall k :: 0 <= k < |events| ==> Step(run[k], events[k], run[k + 1])
  }

  ghost predicate Inv(s: State) {
    && LocksOk(s.locks)
    && forall g :: g in s.grants ==> g.NonEmpty() && Free(s.locks, g)
  }

  lemma StepKeepsInv(s: State, e: Event, s': State)
    requires Inv(s) && Step(s, e, s')
    ensures Inv(s')
  {
  }

  /** Locks stay disjoint and no window held by an initiator ever meets a lock. */
  lemma {:induction false} DmiNeverBypassesALock(run: seq<State>, events: seq<Event>, k: nat)
    requires IsRun(run, events) && k < |run|
    ensures LocksOk(run[k].locks)
    ensures forall g, i :: g in run[k].grants && i in run[k].locks ==> !run[k].locks[i].Overlaps(g)
    ensures Inv(run[k])
    decreases k
  {
    if k > 0 {
      DmiNeverBypassesALock(run, events, k - 1);
      assert Step(run[k - 1], events[k - 1], run[k - 1 + 1]);
      StepKeepsInv(run[k - 1], events[k - 1], run[k]);
    }
  }

  /** Event j took lock r for id and nothing before event k has broken it. */
  ghost predicate HeldSince(run: seq<State>, events: seq<Event>, j: nat, k: nat, id: Id, r: Range)
    requires |run| == |events| + 1 && k <= |events|
  {
    && j < k
    && Takes(run[j], events[j], id, r)
    && forall m :: j < m < k ==> !Writes(run[m], events[m], r) && !(exists x :: Takes(run[m], events[m], id, x))
  }

  /** How one event changes whether id holds r. */
  lemma LockStep(s: State, e: Event, s': State, id: Id, r: Range)
    requires Inv(s) && Step(s, e, s') && r.NonEmpty()
    ensures StoreSucceeds(s'.locks, id, r) <==>
      Takes(s, e, id, r) || (StoreSucceeds(s.locks, id, r) && !Writes(s, e, r) && !(exists x :: Takes(s, e, id, x)))
  {
    if e.DmiStore? && StoreSucceeds(s.locks, id, r) {
      assert Free(s.locks, e.w);
    }
    if e.ExclusiveLoad? && e.id == id && e.ok && Free(s.locks, e.r) {
      assert Takes(s, e, id, e.r);
    }
    if e.ExclusiveStore? && StoreSucceeds(s.locks, e.id, e.r) && StoreSucceeds(s.locks, id, r) && e.id != id {
      assert !s.locks[e.id].Overlaps(s.locks[id]);
    }
  }

  /**
   * Exclusive-store atomicity. In every run, an exclusive store to r by id would
   * succeed now exactly when id took the lock on r by an earlier exclusive load
   * since which nobody, not even through direct memory access, has written a byte
   * of r and id has taken no other lock.
   */
  lemma {:induction false} ExclusiveAtomicity(run: seq<State>, events: seq<Event>, k: nat, id: Id, r: Range)
    requires IsRun(run, events) && k <= |events| && r.NonEmpty()
    ensures StoreSucceeds(run[k].locks, id, r) <==> exists j: nat :: HeldSince(run, events, j, k, id, r)
    decreases k
  {
    if k > 0 {
      ExclusiveAtomicity(run, events, k - 1, id, r);
      DmiNeverBypassesALock(run, events, k - 1);
      assert Step(run[k - 1], events[k - 1], run[k - 1 + 1]);
      LockStep(run[k - 1], events[k - 1], run[k], id, r);
      if StoreSucceeds(run[k].locks, id, r) {
        if Takes(run[k - 1], events[k - 1], id, r) {
          assert HeldSince(run, events, k - 1, k, id, r);
        } else {
          var j: nat :| HeldSince(run, events, j, k - 1, id, r);
          assert HeldSince(run, events, j, k, id, r);
        }
      }
      if j: nat :| HeldSince(run, events, j, k, id, r) {
        if j < k - 1 {
          assert HeldSince(run, events, j, k - 1, id, r);
          assert !Writes(run[k - 1], events[k - 1], r);
        }
      }
    }
  }

  /** An exclusive load that meets any lock, even the initiator's own, changes nothing. */
  lemma OverlappingLoadIsIgnored(s: State, id: Id, r: Range, ok: bool, s': State, owner: Id)
    requires Step(s, ExclusiveLoad(id, r, ok), s') && owner in s.locks && s.locks[owner].Overlaps(r)
    ensures s' == s
  {
  }

  /**
   * The class documentation says an exclusive load by an initiator that owns a
   * region unlocks it first. That fails exactly when the load overlaps a lock.
   */
  lemma ReloadMovesLockIff(s: State, id: Id, r: Range, s': State)
    requires Inv(s) && Step(s, ExclusiveLoad(id, r, true), s') && id in s.locks
    ensures s'.locks == (s.locks - {id})[id := r] && StoreSucceeds(s'.locks, id, r)
            <==> Free(s.locks, r) || s.locks[id] == r
  {
    if s.locks[id] == r {
      assert s.locks == (s.locks - {id})[id := r];
    }
    if Free(s.locks, r) {
      assert s.locks[id := r] == (s.locks - {id})[id := r];
    } else if s.locks[id] != r {
      assert s'.locks[id] != r;
    }
  }

  lemma NarrowReloadFails(id: Id)
    ensures var s := State(map[id := Range(0, 7)], {});
      Inv(s) && Step(s, ExclusiveLoad(id, Range(0, 3), true), s) && !StoreSucceeds(s.locks, id, Range(0, 3))
  {
    var s := State(map[id := Range(0, 7)], {});
    assert s.locks[id].Overlaps(Range(0, 3));
  }
}
