/**
 * A reachable state in which the watchdog has left every CPU paused for good as
 * far as SystemC windows are concerned: no window, however late it ends, lets
 * the active CPU run again.
 */
module McipsDeaf {
  import opened Basics
  import opened McipsModel
  import opened McipsProofs

  const U: real := 1.0 / NS_PER_SEC    // one nanosecond: the quantum, and one instruction at the default rate

  /** Started state of two CPUs at the default rate, CPU 0 active at t nanoseconds. */
  function Two(d0: nat, s0: Status, d1: nat, t1: int, s1: Status, t: int, sent: int, last: int): State {
    State(U, [VCpu(DEFAULT_IPS, d0, t as real * U, s0), VCpu(DEFAULT_IPS, d1, t1 as real * U, s1)],
          Some(0), t as real * U, t, U, true, Bounded(sent as real * U, sent as real * U + U), 0.0,
          last as real * U, true)
  }

  lemma Nanoseconds(n: nat)
    ensures n as real / DEFAULT_IPS as real == n as real * U
    ensures ToNs(n as real * U) == n
  {
    assert n as real * U * NS_PER_SEC == n as real;
  }

  /** Rebalancing two CPUs of which the one that asks is ahead and the other one must not be resumed. */
  lemma Pausing(s: State, who: nat, now: real, threshold: real)
    requires |s.cpus| == 2 && who < 2 && s.active == Some(0) && s.attached && QemuNow(s) == now
    requires Threshold(s) == threshold && 0.0 < threshold < now
    requires s.cpus[who].status == Running
    requires who == 1 ==> CpuNow(s.cpus[1]) > now && s.cpus[0].status == Paused
    requires who == 0 ==> s.cpus[1].status == Running
    ensures Rebalance(s, Some(who)) ==
      s.(cpus := s.cpus[who := s.cpus[who].(status := Paused)], sent := Bounded(now, now + s.quantum))
  {
    var p := PauseIfAhead(s.cpus, who, 0, now, threshold);
    assert p == s.cpus[who := s.cpus[who].(status := Paused)];
    assert ResumeIfBehind(p, 0, now, threshold) == p;
  }

  /** CPU 0 ends its quota after two instructions, past the window, and pauses. */
  lemma FirstPauses()
    ensures IsStep(Two(2, Running, 0, 0, Running, 0, 0, 0), EQuotaEnd(0), Two(0, Paused, 0, 0, Running, 2, 2, 0), 3)
  {
    Nanoseconds(2);
    var s := Two(2, Running, 0, 0, Running, 0, 0, 0);
    var f := Folded(s, 0);
    assert f.cpus == [VCpu(DEFAULT_IPS, 0, 2.0 * U, Running), s.cpus[1]];
    assert f.qemuTimeNs == 2;
    assert Threshold(f) == U by { assert f.cpus[1].status != Idle && CpuNow(f.cpus[1]) == 0.0; }
    Pausing(f, 0, 2.0 * U, U);
  }

  /** CPU 1 ends its quota after three instructions, ahead of QEMU time, and pauses. */
  lemma SecondPauses()
    ensures IsStep(Two(0, Paused, 3, 0, Running, 2, 2, 0), EQuotaEnd(1), Two(0, Paused, 0, 3, Paused, 2, 2, 0), 3)
  {
    Nanoseconds(3);
    var s := Two(0, Paused, 3, 0, Running, 2, 2, 0);
    var f := Folded(s, 1);
    assert f.cpus == [s.cpus[0], VCpu(DEFAULT_IPS, 0, 3.0 * U, Running)];
    assert Threshold(f) == U by { assert f.cpus[0].status != Idle && CpuNow(f.cpus[0]) == 2.0 * U; }
    Pausing(f, 1, 2.0 * U, U);
  }

  /** A first tick notices the time. */
  lemma FirstTick(t: nat, last: nat)
    requires last != t
    ensures Tick(Two(0, Paused, 0, 3, Paused, t, t, last)) == Two(0, Paused, 0, 3, Paused, t, t, t)
  {
    assert t as real * U != last as real * U;
  }

  /** A second one finds it unchanged and bumps it. */
  lemma SecondTick(t: nat)
    ensures Tick(Two(0, Paused, 0, 3, Paused, t, t, t)) == Two(0, Paused, 0, 3, Paused, t + 1, t + 1, t)
  {
    Nanoseconds(t + 1);
    assert (t + 1) as real * U == t as real * U + U;
    var s := Two(0, Paused, 0, 3, Paused, t, t, t);
    assert QemuNow(s) == t as real * U;
  }

  lemma Extend(run: seq<State>, events: seq<Event>, e: Event, s: State) returns (run': seq<State>, events': seq<Event>)
    requires IsRun(run, events, 3) && IsStep(run[|run| - 1], e, s, 3)
    ensures IsRun(run', events', 3) && run'[|run'| - 1] == s
  {
    run', events' := run + [s], events + [e];
    forall k | 0 <= k < |events'| ensures IsStep(run'[k], events'[k], run'[k + 1], 3) {
      if k < |events| { assert IsStep(run[k], events[k], run[k + 1], 3); }
    }
  }

  lemma BootRun() returns (run: seq<State>, events: seq<Event>)
    ensures IsRun(run, events, 3) && run[|run| - 1] == Two(0, Running, 0, 0, Running, 0, 0, 0)
  {
    var idle := VCpu(0, 0, 0.0, Idle);
    var boot := State(U, [idle, idle], None, 0.0, 0, U, true, Bounded(0.0, U), 0.0, 0.0, false);
    var up := Two(0, Running, 0, 0, Running, 0, 0, 0);
    run, events := [boot], [];
    run, events := Extend(run, events, EInit(0), InitCpu(boot, 0));
    assert InitCpu(InitCpu(boot, 0), 1).cpus == up.cpus;
    run, events := Extend(run, events, EInit(1), up.(started := false));
    run, events := Extend(run, events, EStart, up);
  }

  lemma ExecSteps()
    ensures IsStep(Two(0, Running, 0, 0, Running, 0, 0, 0), EExec(0, 2), Two(2, Running, 0, 0, Running, 0, 0, 0), 3)
    ensures IsStep(Two(0, Paused, 0, 0, Running, 2, 2, 0), EExec(1, 3), Two(0, Paused, 3, 0, Running, 2, 2, 0), 3)
  {
    assert Exec(Two(0, Running, 0, 0, Running, 0, 0, 0), 0, 2).cpus == Two(2, Running, 0, 0, Running, 0, 0, 0).cpus;
    assert Exec(Two(0, Paused, 0, 0, Running, 2, 2, 0), 1, 3).cpus == Two(0, Paused, 3, 0, Running, 2, 2, 0).cpus;
  }

  /** Both CPUs start, run and pause. */
  lemma PausedRun() returns (run: seq<State>, events: seq<Event>)
    ensures IsRun(run, events, 3) && run[|run| - 1] == Two(0, Paused, 0, 3, Paused, 2, 2, 0)
  {
    run, events := BootRun();
    ExecSteps();
    FirstPauses();
    SecondPauses();
    run, events := Extend(run, events, EExec(0, 2), Two(2, Running, 0, 0, Running, 0, 0, 0));
    run, events := Extend(run, events, EQuotaEnd(0), Two(0, Paused, 0, 0, Running, 2, 2, 0));
    run, events := Extend(run, events, EExec(1, 3), Two(0, Paused, 3, 0, Running, 2, 2, 0));
    run, events := Extend(run, events, EQuotaEnd(1), Two(0, Paused, 0, 3, Paused, 2, 2, 0));
  }

  /** Two more ticks on a run that ends with both CPUs paused. */
  lemma TickTwice(run: seq<State>, events: seq<Event>, t: nat, last: nat)
    returns (run': seq<State>, events': seq<Event>)
    requires IsRun(run, events, 3) && last != t && run[|run| - 1] == Two(0, Paused, 0, 3, Paused, t, t, last)
    ensures IsRun(run', events', 3) && run'[|run'| - 1] == Two(0, Paused, 0, 3, Paused, t + 1, t + 1, t)
  {
    FirstTick(t, last);
    SecondTick(t);
    run', events' := Extend(run, events, ETick, Two(0, Paused, 0, 3, Paused, t, t, t));
    run', events' := Extend(run', events', ETick, Two(0, Paused, 0, 3, Paused, t + 1, t + 1, t));
  }

  /** Three bumps while both CPUs are paused leave QEMU time out of reach of every window. */
  lemma DeafRun() returns (run: seq<State>, events: seq<Event>)
    ensures IsRun(run, events, 3)
    ensures var s := run[|run| - 1];
      && Waiting(s) && ActiveInRange(s)
      && forall to :: to >= s.quantum ==> ReceiveWindow(s, to).cpus[s.active.value].status != Running
  {
    run, events := PausedRun();
    run, events := TickTwice(run, events, 2, 0);
    run, events := TickTwice(run, events, 3, 2);
    run, events := TickTwice(run, events, 4, 3);
    var s := run[|run| - 1];
    assert s.cpus[1].status != Idle && CpuNow(s.cpus[1]) == 3.0 * U;
    assert QemuNow(s) == 5.0 * U;
    DeafIff(run, events, 3, |run| - 1);
  }
}
