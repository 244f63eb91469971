/**
 * The MCIPS plugin together with the SystemC side it is bound to: an
 * sc_sync_window whose windows come from the plugin and whose announcements are
 * the plugin's window callback. The SystemC kernel is the one of SyncWindowModel:
 * it advances to a sweep by itself, and up to the end of its window as far as it
 * has something else to do.
 */
module McipsSystemc {
  import opened Basics
  import M = McipsModel
  import P = McipsProofs
  import S = SyncWindowModel

  datatype State = State(m: M.State, sc: S.Side)

  datatype Event =
    | Plugin(e: M.Event)       // any callback of the plugin but the window callback
    | Update
    | Step
    | Stale
    | Sweep
    | Advance(to: real)

  /** A window as SystemC gets it; `max` is the largest SystemC time. */
  function ToWindow(w: M.Window, max: real): S.Window {
    match w
    case Bounded(from, to) => S.Window(from, to)
    case OpenEnded(from) => S.Window(from, max)
  }

  /** The plugin has gone to m; a window it sent on the way reaches the SystemC side. */
  function Sent(c: State, m: M.State, max: real): State {
    State(m, if m.sent != c.m.sent then S.AsyncSetWindow(c.sc, ToWindow(m.sent, max)) else c.sc)
  }

  /** The SystemC side announces its time, having gone to sc. */
  function Announce(c: State, sc: S.Side, max: real): State
    requires M.ActiveInRange(c.m)
  {
    Sent(State(c.m, sc), M.ReceiveWindow(c.m, sc.now + c.m.quantum), max)
  }

  predicate Enabled(c: State, e: Event, maxTb: nat)
    requires c.m.quantum > 0.0
  {
    match e
    case Plugin(p) => !p.EWindow? && !p.EScTime? && M.Enabled(c.m, p, maxTb)
    case Update => c.sc.updatePending
    case Step => (c.sc.updateEvent || c.sc.stepAt == Some(c.sc.now)) && (S.EndOfWindow(c.sc) ==> c.m.started)
    case Stale => S.EndOfWindow(c.sc) ==> c.m.started
    case Sweep => c.sc.sweepAt == Some(c.sc.now) && c.m.started
    case Advance(t) =>
      && !c.sc.suspended && !c.sc.updateEvent && c.sc.now < t
      && (c.sc.stepAt.Some? ==> t <= c.sc.stepAt.value)
      && (c.sc.sweepAt.Some? ==> t <= c.sc.sweepAt.value)
  }

  function Apply(c: State, e: Event, maxTb: nat, max: real): State
    requires c.m.quantum > 0.0 && M.ActiveInRange(c.m) && Enabled(c, e, maxTb)
  {
    match e
    case Plugin(p) => Sent(c, M.Apply(c.m, p, maxTb), max)
    case Update => c.(sc := S.Update(c.sc))
    case Step => if S.EndOfWindow(c.sc) then Announce(c, S.StepHelper(c.sc), max) else c.(sc := S.StepHelper(c.sc))
    case Stale => if S.EndOfWindow(c.sc) then Announce(c, S.WindowCheck(c.sc), max) else c.(sc := S.WindowCheck(c.sc))
    case Sweep => Announce(c, S.SweepHelper(c.sc), max)
    case Advance(t) => State(c.m.(scNow := t), c.sc.(now := t))
  }

  /** After end_of_elaboration: the plugin has sent the window the SystemC side starts with. */
  ghost predicate Initial(c: State) {
    && M.Initial(c.m) && c.m.scNow == 0.0
    && c.sc == S.AsyncSetWindow(S.Initial(c.m.quantum), S.Window(0.0, c.m.quantum))
  }

  ghost predicate IsStep(c: State, e: Event, c': State, maxTb: nat, max: real) {
    c.m.quantum > 0.0 && M.ActiveInRange(c.m) && Enabled(c, e, maxTb) && c' == Apply(c, e, maxTb, max)
  }

  ghost predicate IsRun(run: seq<State>, events: seq<Event>, maxTb: nat, max: real) {
    && |run| == |events| + 1 && Initial(run[0])
    && forall k :: 0 <= k < |events| ==> IsStep(run[k], events[k], run[k + 1], maxTb, max)
  }

  /** Does the event bump QEMU time? */
  ghost predicate BumpsTime(c: State, e: Event)
    requires M.ActiveInRange(c.m)
  {
    e.Plugin? && e.e.ETick? && M.Bumps(c.m)
  }

  ghost predicate BumpFree(run: seq<State>, events: seq<Event>)
    requires |run| == |events| + 1
  {
    forall k :: 0 <= k < |events| ==> M.ActiveInRange(run[k].m) && !BumpsTime(run[k], events[k])
  }

  // ---- The invariant -----------------------------------------------------------------------------

  ghost predicate PluginOk(m: M.State, maxTb: nat) {
    P.Inv(m, maxTb) && P.WaitOk(m) && P.SlowestOk(m)
  }

  /**
   * The SystemC side has the last window the plugin sent, in force or about to
   * be, and cannot sleep through anything.
   */
  ghost predicate SideOk(m: M.State, sc: S.Side, max: real) {
    && m.scNow == sc.now
    && sc.accepted && sc.incoming == ToWindow(m.sent, max)
    && (sc.window == sc.incoming || sc.updatePending)
    && (!sc.suspended && !sc.updateEvent ==> sc.stepAt == Some(sc.window.to) || sc.stepAt == Some(sc.now))
    && (sc.stepAt.Some? ==> sc.now <= sc.stepAt.value)
    && (sc.sweepAt.Some? ==> sc.now <= sc.sweepAt.value)
    && (sc.suspended && !sc.updateEvent ==> sc.now >= sc.window.to)
    && (sc.suspended ==> m.windowTo == sc.now + m.quantum)
  }

  ghost predicate Inv(c: State, maxTb: nat, max: real) { PluginOk(c.m, maxTb) && SideOk(c.m, c.sc, max) }

  lemma PluginStepKeeps(s: M.State, e: M.Event, maxTb: nat)
    requires s.quantum > 0.0 && M.ActiveInRange(s) && M.Enabled(s, e, maxTb) && !e.EWindow? && !e.EScTime?
    ensures var r := M.Apply(s, e, maxTb); r.windowTo == s.windowTo && r.scNow == s.scNow && r.quantum == s.quantum
  {
  }

  lemma SentKeeps(c: State, m: M.State, max: real)
    requires SideOk(c.m, c.sc, max)
    requires m.windowTo == c.m.windowTo && m.scNow == c.m.scNow && m.quantum == c.m.quantum
    ensures SideOk(m, Sent(c, m, max).sc, max)
  {
  }

  /** An announcement from a side that is in order, apart from what suspending it promises. */
  lemma AnnounceKeeps(c: State, sc: S.Side, maxTb: nat, max: real)
    requires Inv(c, maxTb, max) && c.m.started && sc.now == c.sc.now
    requires SideOk(c.m.(windowTo := sc.now + c.m.quantum), sc, max)
    ensures Inv(Announce(c, sc, max), maxTb, max)
  {
    var to := sc.now + c.m.quantum;
    var r := M.ReceiveWindow(c.m, to);
    P.StepWaits(c.m, M.EWindow(to), maxTb);
    assert r.windowTo == to && r.scNow == c.m.scNow && r.quantum == c.m.quantum;
  }

  lemma StepKeepsInv(c: State, e: Event, maxTb: nat, max: real)
    requires Inv(c, maxTb, max) && Enabled(c, e, maxTb) && !BumpsTime(c, e)
    ensures Inv(Apply(c, e, maxTb, max), maxTb, max)
  {
    match e
    case Plugin(p) =>
      P.StepWaits(c.m, p, maxTb);
      PluginStepKeeps(c.m, p, maxTb);
      SentKeeps(c, M.Apply(c.m, p, maxTb), max);
    case Update =>
    case Step => if S.EndOfWindow(c.sc) { AnnounceKeeps(c, S.StepHelper(c.sc), maxTb, max); }
    case Stale => if S.EndOfWindow(c.sc) { AnnounceKeeps(c, S.WindowCheck(c.sc), maxTb, max); }
    case Sweep => AnnounceKeeps(c, S.SweepHelper(c.sc), maxTb, max);
    case Advance(t) => P.StepWaits(c.m, M.EScTime(t), maxTb);
  }

  lemma {:induction false} RunKeepsInv(run: seq<State>, events: seq<Event>, maxTb: nat, max: real, k: nat)
    requires IsRun(run, events, maxTb, max) && BumpFree(run, events) && k < |run|
    ensures Inv(run[k], maxTb, max)
    decreases k
  {
    if k == 0 {
      P.InitialInv(run[0].m, maxTb);
    } else {
      RunKeepsInv(run, events, maxTb, max, k - 1);
      assert IsStep(run[k - 1], events[k - 1], run[k - 1 + 1], maxTb, max);
      StepKeepsInv(run[k - 1], events[k - 1], maxTb, max);
    }
  }

  // ---- A waiting plugin is served ---------------------------------------------------------------------

  /** An upper bound on the SystemC events that can still come before a waiting plugin is resumed. */
  function Rank(sc: S.Side): nat {
    (if sc.updatePending then 32 else 0) + (if sc.updateEvent then 16 else 0)
      + (if sc.stepAt != Some(sc.window.to) then 8 else 0) + (if sc.sweepAt.Some? then 2 else 0)
      + (if sc.stepAt == Some(sc.now) || sc.sweepAt == Some(sc.now) then 0 else 1)
  }

  ghost predicate Resumed(m: M.State) {
    M.ActiveInRange(m) && m.active.Some? && m.cpus[m.active.value].status == M.Running
  }

  /** An announcement resumes a waiting plugin when it reaches QEMU time, and otherwise leaves it waiting as it was. */
  lemma AnnounceServes(c: State, sc: S.Side, maxTb: nat, max: real)
    requires Inv(c, maxTb, max) && P.Waiting(c.m) && sc.now == c.sc.now
    ensures var r := Announce(c, sc, max);
      if M.QemuNow(c.m) <= sc.now + c.m.quantum then Resumed(r.m) else P.Waiting(r.m) && r.sc == sc
  {
    var to := sc.now + c.m.quantum;
    P.WindowResumesIff(c.m, to, maxTb);
    P.WaitingIsSlowest(c.m, maxTb);
    var r := M.ReceiveWindow(c.m, to);
    assert r.active == c.m.active;
    if M.QemuNow(c.m) > to { P.UnservedWaits(c.m, to, maxTb); }
  }

  /** The event SystemC takes next while the plugin waits. */
  lemma NextEvent(c: State, maxTb: nat, max: real) returns (e: Event)
    requires Inv(c, maxTb, max) && P.Waiting(c.m)
    ensures !e.Plugin? && Enabled(c, e, maxTb)
    ensures var r := Apply(c, e, maxTb, max); Resumed(r.m) || (P.Waiting(r.m) && Rank(r.sc) < Rank(c.sc))
  {
    var sc, q := c.sc, M.QemuNow(c.m);
    P.WaitingIsSlowest(c.m, maxTb);
    if sc.updatePending { return Update; }
    assert sc.window == S.Window(q, q + c.m.quantum);
    if sc.updateEvent || sc.stepAt == Some(sc.now) {
      if S.EndOfWindow(sc) { AnnounceServes(c, S.StepHelper(sc), maxTb, max); }
      return Step;
    }
    assert !sc.suspended;
    if sc.sweepAt == Some(sc.now) {
      AnnounceServes(c, S.SweepHelper(sc), maxTb, max);
      return Sweep;
    }
    var t := if sc.sweepAt.Some? && sc.sweepAt.value < sc.stepAt.value then sc.sweepAt.value else sc.stepAt.value;
    e := Advance(t);
  }

  /**
   * A waiting plugin is always served. From every reachable state in which no CPU
   * runs although one is awake, events of a SystemC kernel that has things to do
   * up to the end of its window lead, without any help from QEMU, to a state in
   * which the active CPU runs again.
   */
  lemma {:induction false} AlwaysServed(run: seq<State>, events: seq<Event>, maxTb: nat, max: real)
    returns (run': seq<State>, events': seq<Event>)
    requires IsRun(run, events, maxTb, max) && BumpFree(run, events) && P.Waiting(run[|run| - 1].m)
    ensures IsRun(run', events', maxTb, max) && run <= run' && events <= events'
    ensures forall k :: |events| <= k < |events'| ==> !events'[k].Plugin?
    ensures Resumed(run'[|run'| - 1].m)
    decreases Rank(run[|run| - 1].sc)
  {
    var c := run[|run| - 1];
    RunKeepsInv(run, events, maxTb, max, |run| - 1);
    var e := NextEvent(c, maxTb, max);
    run', events' := run + [Apply(c, e, maxTb, max)], events + [e];
    Extended(run, events, e, maxTb, max);
    if !Resumed(run'[|run'| - 1].m) {
      var longer, more := AlwaysServed(run', events', maxTb, max);
      run', events' := longer, more;
    }
  }

  lemma Extended(run: seq<State>, events: seq<Event>, e: Event, maxTb: nat, max: real)
    requires IsRun(run, events, maxTb, max) && BumpFree(run, events)
    requires var c := run[|run| - 1]; M.ActiveInRange(c.m) && c.m.quantum > 0.0 && Enabled(c, e, maxTb) && !e.Plugin?
    ensures var run', events' := run + [Apply(run[|run| - 1], e, maxTb, max)], events + [e];
      IsRun(run', events', maxTb, max) && BumpFree(run', events')
  {
    var run', events' := run + [Apply(run[|run| - 1], e, maxTb, max)], events + [e];
    forall k | 0 <= k < |events'|
      ensures IsStep(run'[k], events'[k], run'[k + 1], maxTb, max) && !BumpsTime(run'[k], events'[k])
    {
      if k < |events| { assert IsStep(run[k], events[k], run[k + 1], maxTb, max) && !BumpsTime(run[k], events[k]); }
    }
  }
}
