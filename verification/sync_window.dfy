/**
 * Two sc_sync_window objects bound to each other, each in its own SystemC
 * kernel: neither may run more than one quantum ahead of the other.
 *
 * Kernel assumptions: time stands still while suspended or while a delta
 * notification is outstanding, and never jumps over a due event. The step event
 * is an observer event: notifying it replaces the time it is scheduled for, an
 * older notification may still fire and only makes the check run once more, and
 * it is not itself a reason for time to advance. Time advances because a kernel
 * has something else to do, or to a sweep.
 */
module SyncWindowModel {
  import opened Basics

  datatype Window = Window(from: real, to: real)

  datatype Side = Side(
    now: real, window: Window,
    incoming: Window, updatePending: bool,      // async_request_update not yet served
    updateEvent: bool,        // m_update_ev notified
    stepAt: Option<real>,     // when m_step_ev is due
    sweepAt: Option<real>,    // when m_sweep_ev is due
    suspended: bool, accepted: bool)           // has any window been accepted yet?

  function Initial(quantum: real): Side {
    Side(0.0, Window(0.0, quantum), Window(0.0, 0.0), false, false, Some(0.0), None, false, false)
  }

  /** A timed notification of an ordinary event never postpones a pending one. */
  function Notify(pending: Option<real>, at: real): Option<real> {
    if pending.Some? && pending.value <= at then pending else Some(at)
  }

  function AsyncSetWindow(s: Side, w: Window): Side {
    s.(incoming := w, accepted := true, updatePending := s.updatePending || w != s.window)
  }

  function Update(s: Side): Side {
    s.(window := s.incoming,
       updatePending := false,
       sweepAt := if s.incoming.from > s.now then Notify(s.sweepAt, s.incoming.from) else None,
       updateEvent := true)
  }

  /** Window a side announces to the other: from its own time, one quantum long. */
  function Announced(s: Side, quantum: real): Window { Window(s.now, s.now + quantum) }

  /** The event that woke the stepper is spent. */
  function StepTaken(s: Side): Side {
    s.(updateEvent := false, stepAt := if s.stepAt.Some? && s.stepAt.value <= s.now then None else s.stepAt)
  }

  predicate EndOfWindow(s: Side) { s.now >= s.window.to }

  /** The check at the end of the window. */
  function WindowCheck(s: Side): Side {
    if EndOfWindow(s) then s.(suspended := true) else s.(suspended := false, stepAt := Some(s.window.to))
  }

  function StepHelper(s: Side): Side { WindowCheck(StepTaken(s)) }

  function SweepHelper(s: Side): Side { s.(sweepAt := None) }

  // ---- Runs of the pair ----------------------------------------------------------

  datatype Pair = Pair(a: Side, b: Side)

  /** What the side named by `onA` does. */
  datatype Event =
    | EUpdate(onA: bool)
    | EStep(onA: bool)                  // the step or the update event is due
    | EStale(onA: bool)                 // a replaced notification of the step event fires after all
    | ESweep(onA: bool)
    | EAdvance(onA: bool, to: real)

  function Mine(p: Pair, onA: bool): Side { if onA then p.a else p.b }
  function Theirs(p: Pair, onA: bool): Side { Mine(p, !onA) }
  function Both(onA: bool, mine: Side, theirs: Side): Pair { if onA then Pair(mine, theirs) else Pair(theirs, mine) }

  predicate Enabled(p: Pair, e: Event) {
    var s := Mine(p, e.onA);
    match e
    case EUpdate(_) => s.updatePending
    case EStep(_) => s.updateEvent || s.stepAt == Some(s.now)
    case EStale(_) => true
    case ESweep(_) => s.sweepAt == Some(s.now)
    case EAdvance(_, t) =>
      && !s.suspended && !s.updateEvent && s.now < t
      && (s.stepAt.Some? ==> t <= s.stepAt.value)
      && (s.sweepAt.Some? ==> t <= s.sweepAt.value)
  }

  function Apply(p: Pair, e: Event, quantum: real): Pair {
    var s, o := Mine(p, e.onA), Theirs(p, e.onA);
    match e
    case EUpdate(x) => Both(x, Update(s), o)
    case EStep(x) => Both(x, StepHelper(s), if EndOfWindow(s) then AsyncSetWindow(o, Announced(s, quantum)) else o)
    case EStale(x) => Both(x, WindowCheck(s), if EndOfWindow(s) then AsyncSetWindow(o, Announced(s, quantum)) else o)
    case ESweep(x) => Both(x, SweepHelper(s), AsyncSetWindow(o, Announced(s, quantum)))
    case EAdvance(x, t) => Both(x, s.(now := t), o)
  }

  ghost predicate IsRun(run: seq<Pair>, events: seq<Event>, quantum: real) {
    && |run| == |events| + 1
    && run[0] == Pair(Initial(quantum), Initial(quantum))
    && forall k :: 0 <= k < |events| ==> Enabled(run[k], events[k]) && run[k + 1] == Apply(run[k], events[k], quantum)
  }

  /** What holds of side s facing side o. */
  ghost predicate SideOk(s: Side, o: Side, quantum: real) {
    && s.now >= 0.0
    && s.now <= s.window.to <= o.now + quantum
    && (s.accepted ==> s.window.to <= s.incoming.to <= o.now + quantum)
    && (s.accepted ==> s.window == s.incoming || s.updatePending)
    && (s.updatePending ==> s.accepted)
    && (!s.suspended && !s.updateEvent ==> s.stepAt.Some?)
    && (s.stepAt.Some? ==> s.now <= s.stepAt.value <= s.window.to)
    && (s.sweepAt.Some? ==> s.now <= s.sweepAt.value)
    && (s.suspended && !s.updateEvent ==> s.now >= s.window.to)
    && (s.suspended ==> o.accepted && o.incoming == Announced(s, quantum))
    && SweepOk(s, o, quantum)
  }

  /**
   * A pending sweep is not past the start of the window, and this side has not
   * announced itself there yet. A side that lags behind the start of its window
   * without a pending sweep has announced a time that reaches past it.
   */
  ghost predicate SweepOk(s: Side, o: Side, quantum: real) {
    && s.window.to == s.window.from + quantum
    && (s.accepted ==> s.incoming.to == s.incoming.from + quantum)
    && (!s.suspended && !s.updateEvent ==> s.stepAt == Some(s.window.to) || s.stepAt == Some(s.now))
    && (s.sweepAt.Some? ==>
          && s.sweepAt.value <= s.window.from && o.window.to < s.sweepAt.value + quantum
          && (o.accepted ==> o.incoming.to < s.sweepAt.value + quantum))
    && (s.window.from > s.now && s.sweepAt.None? ==> o.accepted && s.window.from < o.incoming.to)
  }

  ghost predicate Inv(p: Pair, quantum: real) { SideOk(p.a, p.b, quantum) && SideOk(p.b, p.a, quantum) }

  /** Announcing its time at the end of its window keeps what holds of both. */
  lemma AnnounceKeeps(s: Side, o: Side, quantum: real)
    requires quantum > 0.0 && SideOk(s, o, quantum) && SideOk(o, s, quantum) && EndOfWindow(s)
    ensures SideOk(s, AsyncSetWindow(o, Announced(s, quantum)), quantum)
    ensures SideOk(AsyncSetWindow(o, Announced(s, quantum)), s, quantum)
  {
  }

  lemma UpdateKeeps(s: Side, o: Side, quantum: real)
    requires quantum > 0.0 && SideOk(s, o, quantum) && SideOk(o, s, quantum) && s.updatePending
    ensures SideOk(Update(s), o, quantum) && SideOk(o, Update(s), quantum)
  {
  }

  /** The check with the waking event spent or not. */
  lemma CheckedSideOk(s: Side, o: Side, quantum: real)
    requires quantum > 0.0 && SideOk(s, o, quantum) && SideOk(o, s, quantum)
    requires EndOfWindow(s) ==> o.accepted && o.incoming == Announced(s, quantum)
    ensures SideOk(StepHelper(s), o, quantum)
    ensures SideOk(WindowCheck(s), o, quantum)
  {
  }

  lemma CheckedOtherOk(s: Side, o: Side, quantum: real)
    requires quantum > 0.0 && SideOk(s, o, quantum) && SideOk(o, s, quantum)
    ensures SideOk(o, StepHelper(s), quantum) && SideOk(o, WindowCheck(s), quantum)
  {
  }

  lemma StepKeeps(s: Side, o: Side, quantum: real)
    requires quantum > 0.0 && SideOk(s, o, quantum) && SideOk(o, s, quantum)
    requires EndOfWindow(s) ==> o.accepted && o.incoming == Announced(s, quantum)
    ensures SideOk(StepHelper(s), o, quantum) && SideOk(o, StepHelper(s), quantum)
    ensures SideOk(WindowCheck(s), o, quantum) && SideOk(o, WindowCheck(s), quantum)
  {
    CheckedSideOk(s, o, quantum);
    CheckedOtherOk(s, o, quantum);
  }

  lemma AdvanceKeeps(s: Side, o: Side, t: real, quantum: real)
    requires quantum > 0.0 && SideOk(s, o, quantum) && SideOk(o, s, quantum)
    requires !s.suspended && !s.updateEvent && s.now < t <= s.stepAt.value
    requires s.sweepAt.Some? ==> t <= s.sweepAt.value
    ensures SideOk(s.(now := t), o, quantum) && SideOk(o, s.(now := t), quantum)
  {
  }

  /** A sweep: this side reaches the start of its window, or an older one, and tells the other. */
  lemma SweepKeeps(s: Side, o: Side, quantum: real)
    requires quantum > 0.0 && SideOk(s, o, quantum) && SideOk(o, s, quantum) && s.sweepAt == Some(s.now)
    ensures SideOk(SweepHelper(s), AsyncSetWindow(o, Announced(s, quantum)), quantum)
    ensures SideOk(AsyncSetWindow(o, Announced(s, quantum)), SweepHelper(s), quantum)
  {
  }

  lemma CheckKeeps(s: Side, o: Side, quantum: real)
    requires quantum > 0.0 && SideOk(s, o, quantum) && SideOk(o, s, quantum)
    ensures var r := if EndOfWindow(s) then AsyncSetWindow(o, Announced(s, quantum)) else o;
      && SideOk(StepHelper(s), r, quantum) && SideOk(r, StepHelper(s), quantum)
      && SideOk(WindowCheck(s), r, quantum) && SideOk(r, WindowCheck(s), quantum)
  {
    if EndOfWindow(s) {
      AnnounceKeeps(s, o, quantum);
      StepKeeps(s, AsyncSetWindow(o, Announced(s, quantum)), quantum);
    } else {
      StepKeeps(s, o, quantum);
    }
  }

  lemma StepKeepsInv(p: Pair, e: Event, quantum: real)
    requires quantum > 0.0 && Inv(p, quantum) && Enabled(p, e)
    ensures Inv(Apply(p, e, quantum), quantum)
  {
    var s, o := Mine(p, e.onA), Theirs(p, e.onA);
    assert SideOk(s, o, quantum) && SideOk(o, s, quantum);
    match e
    case EUpdate(_) => UpdateKeeps(s, o, quantum);
    case EStep(_) | EStale(_) => CheckKeeps(s, o, quantum);
    case ESweep(_) => SweepKeeps(s, o, quantum);
    case EAdvance(_, t) => AdvanceKeeps(s, o, t, quantum);
  }

  lemma {:induction false} RunKeepsInv(run: seq<Pair>, events: seq<Event>, quantum: real, k: nat)
    requires quantum > 0.0 && IsRun(run, events, quantum) && k < |run|
    ensures Inv(run[k], quantum)
    decreases k
  {
    if k > 0 {
      RunKeepsInv(run, events, quantum, k - 1);
      assert Enabled(run[k - 1], events[k - 1]) && run[k - 1 + 1] == Apply(run[k - 1], events[k - 1], quantum);
      StepKeepsInv(run[k - 1], events[k - 1], quantum);
    }
  }

  /** In every run neither side is ever more than one quantum ahead of the other. */
  lemma BoundedSkew(run: seq<Pair>, events: seq<Event>, quantum: real, k: nat)
    requires quantum > 0.0 && IsRun(run, events, quantum) && k < |run|
    ensures run[k].a.now <= run[k].b.now + quantum && run[k].b.now <= run[k].a.now + quantum
  {
    RunKeepsInv(run, events, quantum, k);
  }

  /** No window is lost: what was last accepted is in force, or an update that will install it is pending. */
  lemma NoLostWindow(run: seq<Pair>, events: seq<Event>, quantum: real, k: nat, onA: bool)
    requires quantum > 0.0 && IsRun(run, events, quantum) && k < |run|
    ensures var s := Mine(run[k], onA); s.accepted ==> s.window == s.incoming || s.updatePending
  {
    RunKeepsInv(run, events, quantum, k);
  }

  ghost predicate Quiet(s: Side) { !s.updatePending && !s.updateEvent }

  /** The two sides are never both suspended with nothing under way to release one of them. */
  lemma NeverBothStuck(run: seq<Pair>, events: seq<Event>, quantum: real, k: nat)
    requires quantum > 0.0 && IsRun(run, events, quantum) && k < |run|
    ensures !(run[k].a.suspended && run[k].b.suspended && Quiet(run[k].a) && Quiet(run[k].b))
  {
    RunKeepsInv(run, events, quantum, k);
  }

  /**
   * Hence the two never block each other: in every reachable state an update, a
   * step or a sweep is due on some side, or some side is free to advance as soon
   * as its kernel has something to do.
   */
  lemma AlwaysEnabled(run: seq<Pair>, events: seq<Event>, quantum: real, k: nat) returns (e: Event)
    requires quantum > 0.0 && IsRun(run, events, quantum) && k < |run|
    ensures Enabled(run[k], e) && !e.EStale?
  {
    RunKeepsInv(run, events, quantum, k);
    NeverBothStuck(run, events, quantum, k);
    var p := run[k];
    var x :| Mine(p, x).updatePending || Mine(p, x).updateEvent || !Mine(p, x).suspended by {
      assert Mine(p, true) == p.a && Mine(p, false) == p.b;
    }
    var s := Mine(p, x);
    assert SideOk(s, Theirs(p, x), quantum);
    if s.updatePending { return EUpdate(x); }
    if s.updateEvent || s.stepAt == Some(s.now) { return EStep(x); }
    if s.sweepAt == Some(s.now) { return ESweep(x); }
    var t := if s.sweepAt.Some? && s.sweepAt.value < s.stepAt.value then s.sweepAt.value else s.stepAt.value;
    e := EAdvance(x, t);
  }

  /**
   * An event that needs nothing else to happen in its kernel: something is due
   * now, or a sweep is the next thing due.
   */
  predicate NeedsNoActivity(p: Pair, e: Event) {
    Enabled(p, e) && (e.EUpdate? || e.EStep? || e.ESweep? || (e.EAdvance? && Mine(p, e.onA).sweepAt == Some(e.to)))
  }

  /**
   * Sweeping brings a laggard on: while one side is suspended and the other is
   * behind it, there is always an event that needs no activity in either kernel.
   */
  lemma LaggardIsSwept(run: seq<Pair>, events: seq<Event>, quantum: real, k: nat, onA: bool) returns (e: Event)
    requires quantum > 0.0 && IsRun(run, events, quantum) && k < |run|
    requires Mine(run[k], onA).suspended && Theirs(run[k], onA).now < Mine(run[k], onA).now
    ensures NeedsNoActivity(run[k], e)
  {
    RunKeepsInv(run, events, quantum, k);
    var o, s := Mine(run[k], onA), Theirs(run[k], onA);
    assert SideOk(o, s, quantum) && SideOk(s, o, quantum);
    if o.updatePending { return EUpdate(onA); }
    if o.updateEvent { return EStep(onA); }
    if s.updatePending { return EUpdate(!onA); }
    if s.updateEvent || s.stepAt == Some(s.now) { return EStep(!onA); }
    assert s.window.from == o.now && s.sweepAt.Some?;
    if s.sweepAt == Some(s.now) { return ESweep(!onA); }
    e := EAdvance(!onA, s.sweepAt.value);
  }
}

/** The window object of one side. */
module SyncWindow {
  import opened Basics
  import M = SyncWindowModel

  class SyncWindow {
    const quantum: real
    var now: real                 // this kernel's sc_time_stamp
    var window: M.Window
    var incoming: M.Window
    var updatePending: bool
    var updateEvent: bool
    var stepAt: Option<real>
    var sweepAt: Option<real>
    var suspended: bool
    ghost var accepted: bool

    ghost function View(): M.Side
      reads this
    {
      M.Side(now, window, incoming, updatePending, updateEvent, stepAt, sweepAt, suspended, accepted)
    }

    constructor (quantum: real)
      ensures View() == M.Initial(quantum) && this.quantum == quantum
    {
      this.quantum := quantum;
      now, window, incoming := 0.0, M.Window(0.0, quantum), M.Window(0.0, 0.0);
      updatePending, updateEvent, suspended, accepted := false, false, false, false;
      stepAt, sweepAt := Some(0.0), None;
    }

    /**
     * This object and the one it is bound to are in step: neither is a quantum
     * ahead, no window is lost, not both are stuck.
     */
    ghost predicate Valid(other: SyncWindow)
      reads this, other
    {
      quantum > 0.0 && other != this && other.quantum == quantum && M.Inv(M.Pair(View(), other.View()), quantum)
    }

    ghost predicate MayHappen(e: M.Event, other: SyncWindow)
      reads this, other
    {
      e.onA && M.Enabled(M.Pair(View(), other.View()), e)
    }

    /** What validity means for the two objects. */
    lemma InStep(other: SyncWindow)
      requires Valid(other)
      ensures now <= other.now + quantum && other.now <= now + quantum
      ensures accepted ==> window == incoming || updatePending
      ensures !(suspended && other.suspended && M.Quiet(View()) && M.Quiet(other.View()))
    {
    }

    method AsyncSetWindow(w: M.Window)
      modifies this`incoming, this`updatePending, this`accepted
      ensures View() == M.AsyncSetWindow(old(View()), w)
      ensures incoming == w && (updatePending <==> old(updatePending) || w != window)
    {
      incoming := w;
      accepted := true;
      if w != window { updatePending := true; }
    }

    /** The last accepted window comes into force. */
    method Update(ghost other: SyncWindow)
      requires Valid(other) && MayHappen(M.EUpdate(true), other)
      modifies this
      ensures Valid(other) && View() == M.Update(old(View()))
      ensures window == old(incoming) && !updatePending && updateEvent
      ensures window.from <= now ==> sweepAt == None
      ensures window.from > now ==>
        sweepAt == Some(if old(sweepAt).Some? then Min(old(sweepAt).value, window.from) else window.from)
    {
      updatePending := false;
      window := incoming;
      if window.from > now {
        sweepAt := M.Notify(sweepAt, window.from);
      } else {
        sweepAt := None;
      }
      updateEvent := true;
      M.UpdateKeeps(old(View()), old(other.View()), quantum);
    }

    /** What the step does to the two sides, on values. */
    static lemma Stepped(s: M.Side, o: M.Side, quantum: real, s': M.Side, o': M.Side)
      requires quantum > 0.0 && M.Inv(M.Pair(s, o), quantum)
      requires s' == M.StepHelper(s)
      requires o' == if M.EndOfWindow(s) then M.AsyncSetWindow(o, M.Announced(s, quantum)) else o
      ensures M.Inv(M.Pair(s', o'), quantum)
      ensures s'.suspended <==> s'.now >= s'.window.to
      ensures s'.suspended ==> o'.incoming == M.Announced(s', quantum)
      ensures !s'.suspended ==> o' == o && s'.stepAt == Some(s'.window.to)
    {
      M.CheckKeeps(s, o, quantum);
    }

    /**
     * Run by m_update_ev or m_step_ev. It suspends this side exactly at the end of
     * its window, and then the other side learns how far this one has come.
     */
    method StepHelper(other: SyncWindow)
      requires Valid(other) && MayHappen(M.EStep(true), other)
      modifies this, other`incoming, other`updatePending, other`accepted
      ensures Valid(other) && View() == M.StepHelper(old(View()))
      ensures suspended <==> now >= window.to
      ensures suspended ==> other.incoming == M.Window(now, now + quantum)
      ensures !suspended ==> stepAt == Some(window.to) && other.View() == old(other.View())
    {
      updateEvent := false;
      if stepAt.Some? && stepAt.value <= now { stepAt := None; }
      if now >= window.to {
        suspended := false;
        other.AsyncSetWindow(M.Window(now, now + quantum));
        suspended := true;
      } else {
        suspended := false;
        stepAt := Some(window.to);
      }
      Stepped(old(View()), old(other.View()), quantum, View(), other.View());
    }

    method SweepHelper(other: SyncWindow)
      requires Valid(other) && MayHappen(M.ESweep(true), other)
      modifies this`sweepAt, other`incoming, other`updatePending, other`accepted
      ensures Valid(other) && View() == M.SweepHelper(old(View()))
      ensures other.View() == M.AsyncSetWindow(old(other.View()), M.Announced(old(View()), quantum))
      ensures sweepAt == None && other.incoming == M.Window(now, now + quantum)
    {
      sweepAt := None;
      other.AsyncSetWindow(M.Window(now, now + quantum));
      M.SweepKeeps(old(View()), old(other.View()), quantum);
    }
  }
}
