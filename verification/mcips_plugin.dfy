/**
 * The plugin object. Every callback performs the step of the same name, keeps
 * the object valid, never moves QEMU time or the clock backwards, and leaves all
 * awake CPUs in step.
 */
module McipsPlugin {
  import opened Basics
  import M = McipsModel
  import P = McipsProofs
  import E = McipsEffects

  class Plugin {
    var quantum: real
    var cpus: seq<M.VCpu>
    var active: Option<nat>
    var qemuTime: real
    var qemuTimeNs: int
    var windowTo: real
    var attached: bool
    var sent: M.Window
    var scNow: real           // SystemC's time stamp
    var lastTick: real
    ghost var started: bool
    ghost const maxTb: nat    // instructions in the largest block

    ghost function View(): M.State
      reads this
    {
      M.State(quantum, cpus, active, qemuTime, qemuTimeNs, windowTo, attached, sent, scNow, lastTick, started)
    }

    ghost predicate InRange()
      reads this
    {
      M.ActiveInRange(View())
    }

    ghost predicate Valid()
      reads this
    {
      P.Inv(View(), maxTb) && P.WaitOk(View())
    }

    /** What a callback leaves behind, compared with the state before it. */
    ghost predicate After(was: M.State)
      requires Valid() && M.ActiveInRange(was)
      reads this
    {
      && M.QemuNow(was) <= M.QemuNow(View()) && M.Clock(was) <= M.Clock(View())
      && P.InStep(View(), maxTb)
    }

    ghost predicate MayHappen(e: M.Event)
      requires Valid()
      reads this
    {
      M.Enabled(View(), e, maxTb)
    }

    /** The plugin after end_of_elaboration, with the given rates (0 when not configured). */
    constructor (quantum: real, rates: seq<nat>, scNow: real, ghost maxTb: nat)
      requires quantum > 0.0 && scNow >= 0.0
      ensures Valid() && M.Initial(View()) && |cpus| == |rates| && this.maxTb == maxTb
      ensures this.quantum == quantum && this.scNow == scNow
    {
      this.quantum := quantum;
      cpus := seq(|rates|, i requires 0 <= i < |rates| => M.VCpu(rates[i], 0, 0.0, M.Idle));
      active := None;
      qemuTime, qemuTimeNs, windowTo := 0.0, 0, quantum;
      attached, sent := true, M.Bounded(0.0, quantum);
      this.scNow, lastTick, started, this.maxTb := scNow, 0.0, false, maxTb;
      new;
      P.InitialInv(View(), maxTb);
    }

    method QemuTimeNow() returns (t: real)
      requires InRange()
      ensures t == M.QemuNow(View())
    {
      if active.None? { return qemuTime; }
      t := qemuTime + M.DeltaTime(cpus[active.value]);
    }

    /** Index of the first CPU with the least time among those not idle. */
    method SlowestNonIdleCpu() returns (k: Option<nat>)
      ensures k.None? <==> forall i :: 0 <= i < |cpus| ==> cpus[i].status == M.Idle
      ensures k.Some? ==> k.value < |cpus| && cpus[k.value].status != M.Idle
      ensures k.Some? ==> M.SlowestTime(cpus) == Some(M.CpuNow(cpus[k.value]))
    {
      k := None;
      var minTime := 0.0;
      for i := 0 to |cpus|
        invariant k.None? <==> forall j :: 0 <= j < i ==> cpus[j].status == M.Idle
        invariant k.Some? ==> k.value < i && cpus[k.value].status != M.Idle && minTime == M.CpuNow(cpus[k.value])
        invariant k.Some? ==> forall j :: 0 <= j < i && cpus[j].status != M.Idle ==> minTime <= M.CpuNow(cpus[j])
      {
        if cpus[i].status != M.Idle {
          var now := M.CpuNow(cpus[i]);
          if k.None? || now < minTime {
            minTime, k := now, Some(i);
          }
        }
      }
    }

    method SelectActiveVcpu()
      modifies this`active
      ensures active == M.FirstNonIdle(cpus)
    {
      for i := 0 to |cpus|
        invariant forall j :: 0 <= j < i ==> cpus[j].status == M.Idle
      {
        if cpus[i].status != M.Idle {
          active := Some(i);
          assert M.FirstNonIdle(cpus).value == i;
          return;
        }
      }
      active := None;
    }

    method PauseIfAhead(i: nat, a: nat, now: real, threshold: real)
      requires i < |cpus|
      modifies this`cpus
      ensures cpus == M.PauseIfAhead(old(cpus), i, a, now, threshold)
    {
      if cpus[i].status != M.Running { return; }
      var cpuTime := M.CpuNow(cpus[i]);
      if (i == a && now > threshold) || (i != a && cpuTime > now) {
        cpus := cpus[i := cpus[i].(status := M.Paused)];
      }
    }

    method ResumeIfBehind(a: nat, now: real, threshold: real)
      modifies this`cpus
      ensures cpus == M.ResumeIfBehind(old(cpus), a, now, threshold)
    {
      for i := 0 to |cpus|
        invariant |cpus| == |old(cpus)|
        invariant forall j :: 0 <= j < i ==> cpus[j] == M.Resumed(old(cpus)[j], j == a, now, threshold)
        invariant forall j :: i <= j < |cpus| ==> cpus[j] == old(cpus)[j]
      {
        if cpus[i].status == M.Paused {
          var cpuTime := M.CpuNow(cpus[i]);
          if (i == a && now <= threshold) || (i != a && cpuTime <= now) {
            cpus := cpus[i := cpus[i].(status := M.Running)];
          }
        }
      }
    }

    method ComputeThreshold() returns (t: real)
      ensures t == M.Threshold(View())
    {
      var k := SlowestNonIdleCpu();
      if k.None? { return 0.0; }
      t := Min(windowTo, M.CpuNow(cpus[k.value]) + quantum);
    }

    method DetachSyncWindow()
      modifies this`attached, this`sent
      ensures View() == M.Detached(old(View()))
    {
      if attached {
        sent := M.OpenEnded(qemuTime);
        attached := false;
      }
    }

    method SetSystemcWindow()
      requires InRange()
      modifies this`sent
      ensures View() == M.WindowSent(old(View()))
    {
      if attached {
        var now := QemuTimeNow();
        sent := M.Bounded(now, now + quantum);
      }
    }

    method RebalanceAndSync(who: Option<nat>)
      requires InRange() && (who.Some? ==> who.value < |cpus|)
      modifies this`cpus, this`attached, this`sent
      ensures View() == M.Rebalance(old(View()), who)
    {
      if active.None? {
        DetachSyncWindow();
        return;
      }
      var threshold := ComputeThreshold();
      if threshold == 0.0 { return; }
      var now := QemuTimeNow();
      if who.Some? {
        PauseIfAhead(who.value, active.value, now, threshold);
      }
      ResumeIfBehind(active.value, now, threshold);
      SetSystemcWindow();
    }

    /** A waiting plugin resumes its active CPU exactly when the window and the slowest CPU allow it. */
    method ReceiveWindowCb(to: real)
      requires Valid() && MayHappen(M.EWindow(to))
      modifies this`cpus, this`windowTo, this`attached, this`sent
      ensures View() == M.ReceiveWindow(old(View()), to)
      ensures Valid() && After(old(View()))
      ensures E.Counted(old(View())) && E.Counted(View()) && E.WindowEffect(old(View()), View(), to)
      ensures old(P.Waiting(View())) ==> M.SlowestTime(old(cpus)).Some? && (cpus[active.value].status == M.Running <==>
        old(M.QemuNow(View())) <= to && old(M.QemuNow(View())) <= M.SlowestTime(old(cpus)).value + quantum)
    {
      if P.Waiting(View()) { P.WindowResumesIff(View(), to, maxTb); }
      TakeWindow(to);
      P.StepDone(old(View()), M.EWindow(to), View(), maxTb);
      E.TakesWindow(old(View()), to, maxTb);
    }

    method TakeWindow(to: real)
      requires InRange()
      modifies this`cpus, this`windowTo, this`attached, this`sent
      ensures View() == M.ReceiveWindow(old(View()), to)
    {
      windowTo := to;
      if active.None? {
        RebalanceAndSync(None);
        return;
      }
      var a := active.value;
      if cpus[a].status == M.Paused {
        var threshold := ComputeThreshold();
        var now := QemuTimeNow();
        if threshold != 0.0 && now <= threshold {
          cpus := cpus[a := cpus[a].(status := M.Running)];
        }
      }
      SetSystemcWindow();
    }

    method VcpuInit(i: nat)
      requires Valid() && MayHappen(M.EInit(i))
      modifies this`cpus, this`active
      ensures View() == M.InitCpu(old(View()), i)
      ensures Valid() && After(old(View())) && E.InitEffect(old(View()), View(), i)
    {
      var ips := if cpus[i].ips == 0 then M.DEFAULT_IPS else cpus[i].ips;
      cpus := cpus[i := M.VCpu(ips, 0, 0.0, M.Running)];
      if active.None? { active := Some(i); }
      P.StepDone(old(View()), M.EInit(i), View(), maxTb);
    }

    /** The "no active CPU" assertion of the source holds in every reachable state. */
    method CpuEndDeltaQuota(i: nat)
      requires Valid() && MayHappen(M.EQuotaEnd(i))
      modifies this`cpus, this`qemuTime, this`qemuTimeNs, this`attached, this`sent
      ensures View() == M.QuotaEnd(old(View()), i)
      ensures Valid() && After(old(View()))
      ensures E.Counted(old(View())) && E.Counted(View()) && E.QuotaEffect(old(View()), View(), i)
      ensures old(cpus[i].status) == M.Running ==> active.Some? && cpus[i].delta == 0
    {
      if cpus[i].status == M.Running {
        assert active.Some?;
        AccountDelta(i);
        RebalanceAndSync(Some(i));
      }
      P.StepDone(old(View()), M.EQuotaEnd(i), View(), maxTb);
      P.QuotaClears(old(View()), i, maxTb);
      E.EndsQuota(old(View()), i, maxTb);
    }

    /** The accounting half of cpu_end_delta_quota. */
    method AccountDelta(i: nat)
      requires active.Some? && i < |cpus|
      modifies this`cpus, this`qemuTime, this`qemuTimeNs
      ensures View() == M.Folded(old(View()), i)
    {
      var delta := M.DeltaTime(cpus[i]);
      if active.value == i {
        qemuTime := qemuTime + delta;
        qemuTimeNs := M.ToNs(qemuTime);
      }
      cpus := cpus[i := cpus[i].(time := cpus[i].time + delta)];
      cpus := cpus[i := cpus[i].(delta := 0)];
      assert cpus == M.Folded(old(View()), i).cpus;
    }

    /**
     * Going idle: the plugin has an active CPU afterwards, and its window
     * attached, exactly when one is still awake.
     */
    method VcpuIdle(i: nat)
      requires Valid() && MayHappen(M.EIdle(i))
      modifies this`cpus, this`active, this`qemuTime, this`qemuTimeNs, this`attached, this`sent
      ensures View() == M.IdleCpu(old(View()), i)
      ensures Valid() && After(old(View()))
      ensures E.Counted(old(View())) && E.Counted(View()) && E.SleepEffect(old(View()), View(), i)
      ensures old(cpus[i].status) == M.Running ==> cpus[i].status == M.Idle && cpus[i].delta == 0
      ensures active.Some? <==> exists j :: 0 <= j < |cpus| && cpus[j].status != M.Idle
      ensures attached <==> active.Some?
    {
      Sleep(i);
      P.StepDone(old(View()), M.EIdle(i), View(), maxTb);
      P.SleeperIsIdle(old(View()), i, maxTb);
      E.GoesIdle(old(View()), i, maxTb);
    }

    method Sleep(i: nat)
      requires InRange() && i < |cpus|
      modifies this`cpus, this`active, this`qemuTime, this`qemuTimeNs, this`attached, this`sent
      ensures View() == M.IdleCpu(old(View()), i)
    {
      match cpus[i].status
      case Running =>
        GoIdle(i);
        RebalanceAndSync(None);
      case Paused =>
      case Idle =>
    }

    /** The body of vcpu_idle up to the rebalancing. */
    method GoIdle(i: nat)
      requires InRange() && i < |cpus| && cpus[i].status == M.Running
      modifies this`cpus, this`active, this`qemuTime, this`qemuTimeNs, this`attached, this`sent
      ensures View() == P.GoneIdle(old(View()), i)
    {
      cpus := cpus[i := cpus[i].(status := M.Idle)];
      if active == Some(i) {
        var delta := M.DeltaTime(cpus[i]);
        qemuTime := qemuTime + delta;
        qemuTimeNs := M.ToNs(qemuTime);
        cpus := cpus[i := cpus[i].(time := cpus[i].time + delta)];
        assert Cleared(View(), i).cpus == M.Parked(old(View()), i).cpus;
        assert Cleared(View(), i) == M.Parked(old(View()), i);
        HandOver(i);
      } else {
        cpus := cpus[i := cpus[i].(delta := 0)];
        assert cpus == M.Parked(old(View()), i).cpus;
      }
    }

    /** The new active CPU starts at QEMU time and runs. */
    method TakeOver(k: nat)
      requires k < |cpus| && cpus[k].status != M.Idle
      modifies this`cpus
      ensures cpus == old(cpus)[k := old(cpus)[k].(time := qemuTime, delta := 0, status := M.Running)]
    {
      cpus := cpus[k := cpus[k].(time := qemuTime)];
      cpus := cpus[k := cpus[k].(delta := 0)];
      if cpus[k].status == M.Paused {
        cpus := cpus[k := cpus[k].(status := M.Running)];
      }
    }

    /** The hand-over inside vcpu_idle, with the clearing of CPU i's in-flight count that follows it. */
    method HandOver(i: nat)
      requires i < |cpus| && cpus[i].status == M.Idle
      modifies this`cpus, this`active, this`attached, this`sent
      ensures View() == M.HandOver(Cleared(old(View()), i))
    {
      ghost var c := Cleared(View(), i).cpus;
      SameFirst(cpus, c);
      SelectActiveVcpu();
      if active.None? {
        DetachSyncWindow();
      } else {
        var k := active.value;
        TakeOver(k);
        assert cpus[i := cpus[i].(delta := 0)] == c[k := c[k].(time := qemuTime, delta := 0, status := M.Running)];
      }
      cpus := cpus[i := cpus[i].(delta := 0)];
    }

    /** A CPU that wakes up runs at once, not before QEMU time. */
    method VcpuResume(i: nat)
      requires Valid() && MayHappen(M.EResume(i))
      modifies this`cpus, this`active, this`qemuTime, this`qemuTimeNs, this`attached, this`sent
      ensures View() == M.ResumeCpu(old(View()), i)
      ensures Valid() && After(old(View()))
      ensures E.Counted(old(View())) && E.Counted(View()) && E.WakeEffect(old(View()), View(), i)
      ensures old(cpus[i].status) == M.Idle ==> cpus[i].status == M.Running && active.Some? && attached
    {
      WakeUp(i);
      P.StepDone(old(View()), M.EResume(i), View(), maxTb);
      E.WakesUp(old(View()), i, maxTb);
    }

    method WakeUp(i: nat)
      requires InRange() && i < |cpus|
      modifies this`cpus, this`active, this`qemuTime, this`qemuTimeNs, this`attached, this`sent
      ensures View() == M.ResumeCpu(old(View()), i)
    {
      match cpus[i].status
      case Idle =>
        var now := QemuTimeNow();
        cpus := cpus[i := cpus[i].(status := M.Running, time := now)];
        if active.None? {
          if scNow > qemuTime {
            qemuTime := scNow;
            qemuTimeNs := M.ToNs(qemuTime);
          }
          cpus := cpus[i := cpus[i].(time := qemuTime)];
          active := Some(i);
          attached := true;
          SetSystemcWindow();
        }
      case Paused =>
        var threshold := ComputeThreshold();
        var now := QemuTimeNow();
        var cpuTime := M.CpuNow(cpus[i]);
        if threshold != 0.0 && ((active == Some(i) && now <= threshold) || (active != Some(i) && cpuTime <= now)) {
          cpus := cpus[i := cpus[i].(status := M.Running)];
        }
      case Running =>
    }

    /** The watchdog adds one quantum exactly when QEMU time stood still since its last tick. */
    method IdleTick()
      requires Valid() && MayHappen(M.ETick)
      modifies this`cpus, this`qemuTime, this`qemuTimeNs, this`sent, this`lastTick
      ensures View() == M.Tick(old(View()))
      ensures Valid() && After(old(View()))
      ensures E.Counted(old(View())) && E.Counted(View()) && E.TickEffect(old(View()), View())
      ensures M.QemuNow(View()) == old(M.QemuNow(View()))
        + (if active.Some? && old(M.QemuNow(View())) == old(lastTick) then quantum else 0.0)
    {
      Tick();
      P.StepDone(old(View()), M.ETick, View(), maxTb);
      E.Ticks(old(View()), maxTb);
    }

    method Tick()
      requires InRange()
      modifies this`cpus, this`qemuTime, this`qemuTimeNs, this`sent, this`lastTick
      ensures View() == M.Tick(old(View()))
    {
      if active.Some? {
        var a := active.value;
        var now := QemuTimeNow();
        if now == lastTick && quantum > 0.0 {
          qemuTime := qemuTime + quantum;
          qemuTimeNs := M.ToNs(qemuTime);
          cpus := cpus[a := cpus[a].(time := cpus[a].time + quantum)];
          SetSystemcWindow();
        }
        lastTick := now;
      }
    }

    method GetQemuClock() returns (ns: int)
      requires Valid()
      ensures ns == M.Clock(View())
      ensures E.Counted(View()) && E.ClockReads(View(), ns)
    {
      E.ClockIsTime(View(), maxTb);
      ns := qemuTimeNs;
      if active.None? {
        if ns > 0 {
          var sc := M.ToNs(scNow);
          if sc > ns { ns := sc; }
        }
      } else {
        ns := ns + M.ToNs(M.DeltaTime(cpus[active.value]));
      }
    }
  }

  ghost function Cleared(s: M.State, i: nat): M.State
    requires i < |s.cpus|
  {
    s.(cpus := s.cpus[i := s.cpus[i].(delta := 0)])
  }

  /** Which CPU is elected depends on the statuses only. */
  lemma SameFirst(xs: seq<M.VCpu>, ys: seq<M.VCpu>)
    requires |xs| == |ys| && forall j :: 0 <= j < |xs| ==> xs[j].status == ys[j].status
    ensures M.FirstNonIdle(xs) == M.FirstNonIdle(ys)
  {
    var x, y := M.FirstNonIdle(xs), M.FirstNonIdle(ys);
    if x.Some? && y.Some? {
      assert xs[y.value].status == ys[y.value].status;
      assert ys[x.value].status == xs[x.value].status;
    }
  }
}
