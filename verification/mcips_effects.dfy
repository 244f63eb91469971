/**
 * What each callback of the MCIPS plugin does, in terms of times, rates and
 * instruction counts, and what this adds up to over a run: QEMU time is exactly
 * the time of the instructions the active CPUs executed, plus the watchdog's
 * quanta, plus what SystemC was ahead when a CPU woke up alone.
 */
module McipsEffects {
  import opened Basics
  import opened McipsModel
  import opened McipsProofs

  // ---- Observations ------------------------------------------------------------

  /** A CPU's own time: its base time and that of the instructions in flight at its rate. */
  ghost function TimeOf(c: VCpu): real
    requires c.delta > 0 ==> c.ips > 0
  {
    if c.delta == 0 then c.time else c.time + c.delta as real / c.ips as real
  }

  ghost predicate Counted(s: State) {
    && (s.active.Some? ==> s.active.value < |s.cpus|)
    && forall i :: 0 <= i < |s.cpus| ==> s.cpus[i].delta > 0 ==> s.cpus[i].ips > 0
  }

  /** QEMU time is the active CPU's time, or stands still. */
  ghost function QemuTimeOf(s: State): real
    requires Counted(s)
  {
    if s.active.None? then s.qemuTime else s.qemuTime + TimeOf(s.cpus[s.active.value]) - s.cpus[s.active.value].time
  }

  /** The active CPU may run inside the window and a quantum past any awake CPU; the others may run behind it. */
  ghost predicate MayGo(s: State, i: nat)
    requires Counted(s) && i < |s.cpus|
  {
    if s.active == Some(i)
    then
      && QemuTimeOf(s) <= s.windowTo
      && forall j :: 0 <= j < |s.cpus| && s.cpus[j].status != Idle ==> QemuTimeOf(s) <= TimeOf(s.cpus[j]) + s.quantum
    else TimeOf(s.cpus[i]) <= QemuTimeOf(s)
  }

  ghost predicate SameCpuTime(c: VCpu, d: VCpu)
    requires (c.delta > 0 ==> c.ips > 0) && (d.delta > 0 ==> d.ips > 0)
  {
    d.ips == c.ips && TimeOf(d) == TimeOf(c)
  }

  /** SystemC was last told QEMU time and one quantum. */
  ghost predicate Told(s: State)
    requires Counted(s)
  {
    s.sent == Bounded(QemuTimeOf(s), QemuTimeOf(s) + s.quantum)
  }

  lemma Observed(s: State, maxTb: nat)
    requires Inv(s, maxTb)
    ensures Counted(s) && QemuTimeOf(s) == QemuNow(s)
    ensures forall i :: 0 <= i < |s.cpus| ==> TimeOf(s.cpus[i]) == CpuNow(s.cpus[i])
    ensures s.active.Some? ==> QemuTimeOf(s) == TimeOf(s.cpus[s.active.value])
  {
    forall i | 0 <= i < |s.cpus|
      ensures (s.cpus[i].delta > 0 ==> s.cpus[i].ips > 0) && TimeOf(s.cpus[i]) == CpuNow(s.cpus[i])
    {
      assert CpuOk(s, i, maxTb);
    }
    if s.active.Some? { assert CpuOk(s, s.active.value, maxTb); }
  }

  /** With an active CPU, MayGo is what the threshold decides. */
  lemma MayGoIff(s: State, i: nat, maxTb: nat)
    requires Inv(s, maxTb) && s.active.Some? && i < |s.cpus|
    ensures Threshold(s) > 0.0 && Counted(s)
    ensures MayGo(s, i) <==> MayRun(s.cpus[i], s.active == Some(i), QemuNow(s), Threshold(s))
  {
    Observed(s, maxTb);
    forall j | 0 <= j < |s.cpus| ensures s.cpus[j].time >= 0.0 { assert CpuOk(s, j, maxTb); }
    ThresholdPositive(s);
    if s.active == Some(i) {
      var k :| 0 <= k < |s.cpus| && s.cpus[k].status != Idle && CpuNow(s.cpus[k]) == SlowestTime(s.cpus).value;
      assert TimeOf(s.cpus[k]) == CpuNow(s.cpus[k]);
    }
  }

  // ---- vcpu_resume ---------------------------------------------------------------

  /**
   * A CPU that wakes up starts at QEMU time and runs; QEMU time itself moves only
   * when nobody was awake, and then up to SystemC time. A paused CPU runs again
   * exactly when it may. Nobody else is touched.
   */
  ghost predicate WakeEffect(s: State, r: State, i: nat)
    requires Counted(s) && Counted(r) && i < |s.cpus|
  {
    && |r.cpus| == |s.cpus| && (forall j :: 0 <= j < |s.cpus| && j != i ==> r.cpus[j] == s.cpus[j])
    && (s.cpus[i].status == Running ==> r == s)
    && (s.cpus[i].status == Paused ==>
          && r == s.(cpus := r.cpus)
          && r.cpus[i] == s.cpus[i].(status := if MayGo(s, i) then Running else Paused))
    && (s.cpus[i].status == Idle ==>
          && r.cpus[i].status == Running && r.cpus[i].ips == s.cpus[i].ips
          && TimeOf(r.cpus[i]) == QemuTimeOf(r)
          && (s.active.Some? ==> r == s.(cpus := r.cpus) && QemuTimeOf(r) == QemuTimeOf(s))
          && (s.active.None? ==>
                && QemuTimeOf(r) == (if s.scNow > s.qemuTime then s.scNow else s.qemuTime)
                && r.active == Some(i) && r.attached && Told(r) && r.windowTo == s.windowTo))
  }

  lemma WakesUp(s: State, i: nat, maxTb: nat)
    requires Inv(s, maxTb) && s.started && i < |s.cpus| && s.cpus[i].ips > 0
    ensures Inv(ResumeCpu(s, i), maxTb) && Counted(s) && Counted(ResumeCpu(s, i))
    ensures WakeEffect(s, ResumeCpu(s, i), i)
  {
    ResumeKeepsInv(s, i, maxTb);
    Observed(s, maxTb);
    Observed(ResumeCpu(s, i), maxTb);
    assert CpuOk(s, i, maxTb);
    if s.active.Some? { MayGoIff(s, i, maxTb); }
  }

  // ---- cpu_end_delta_quota ---------------------------------------------------------

  /** After rebalancing, an awake CPU runs if it ran before and did not ask, or if it may. */
  ghost function RebalancedStatus(was: Status, asked: bool, may: bool): Status {
    if was == Idle then Idle else if (was == Running && !asked) || may then Running else Paused
  }

  /**
   * The end of a quota moves no time at all: the instructions in flight are
   * folded into the base time. The CPU that asks goes on exactly when it may,
   * paused ones go on exactly when they may, and SystemC is told QEMU time.
   */
  ghost predicate QuotaEffect(s: State, r: State, i: nat)
    requires Counted(s) && Counted(r) && i < |s.cpus|
  {
    if s.cpus[i].status != Running then r == s
    else
      && |r.cpus| == |s.cpus| && r.active == s.active && r.windowTo == s.windowTo && r.attached == s.attached
      && QemuTimeOf(r) == QemuTimeOf(s) && Told(r) && r.cpus[i].delta == 0
      && forall j :: 0 <= j < |s.cpus| ==>
           && SameCpuTime(s.cpus[j], r.cpus[j]) && (j != i ==> r.cpus[j].delta == s.cpus[j].delta)
           && r.cpus[j].status == RebalancedStatus(s.cpus[j].status, j == i, MayGo(s, j))
  }

  /** Two states with the same times and the same awake CPUs allow the same CPUs to run. */
  lemma SameMayGo(s: State, r: State, j: nat)
    requires Counted(s) && Counted(r) && |s.cpus| == |r.cpus| && j < |s.cpus|
    requires r.active == s.active && r.windowTo == s.windowTo && r.quantum == s.quantum
    requires QemuTimeOf(r) == QemuTimeOf(s)
    requires forall k :: 0 <= k < |s.cpus| ==>
      TimeOf(r.cpus[k]) == TimeOf(s.cpus[k]) && (r.cpus[k].status == Idle <==> s.cpus[k].status == Idle)
    ensures MayGo(r, j) <==> MayGo(s, j)
  {
    if s.active == Some(j) {
      if MayGo(s, j) {
        forall k | 0 <= k < |r.cpus| && r.cpus[k].status != Idle
          ensures QemuTimeOf(r) <= TimeOf(r.cpus[k]) + r.quantum
        {
          assert TimeOf(s.cpus[k]) == TimeOf(r.cpus[k]);
        }
      }
      if MayGo(r, j) {
        forall k | 0 <= k < |s.cpus| && s.cpus[k].status != Idle
          ensures QemuTimeOf(s) <= TimeOf(s.cpus[k]) + s.quantum
        {
          assert TimeOf(s.cpus[k]) == TimeOf(r.cpus[k]);
        }
      }
    }
  }

  /** Rebalancing changes statuses only, by the rule, and tells SystemC. */
  ghost predicate Rebalanced(s: State, r: State, who: Option<nat>)
    requires Counted(s) && Counted(r)
  {
    && |r.cpus| == |s.cpus| && r == s.(cpus := r.cpus, sent := r.sent) && Told(r) && QemuTimeOf(r) == QemuTimeOf(s)
    && forall j :: 0 <= j < |s.cpus| ==>
         r.cpus[j] == s.cpus[j].(status := RebalancedStatus(s.cpus[j].status, who == Some(j), MayGo(s, j)))
  }

  lemma MayGoNear(s: State, who: Option<nat>, i: nat, maxTb: nat)
    requires NearInv(s, who, maxTb) && s.active.Some? && i < |s.cpus|
    ensures Threshold(s) > 0.0 && Counted(s) && QemuTimeOf(s) == QemuNow(s)
    ensures MayGo(s, i) <==> MayRun(s.cpus[i], s.active == Some(i), QemuNow(s), Threshold(s))
  {
    forall j | 0 <= j < |s.cpus|
      ensures s.cpus[j].time >= 0.0 && (s.cpus[j].delta > 0 ==> s.cpus[j].ips > 0)
      ensures TimeOf(s.cpus[j]) == CpuNow(s.cpus[j])
    {
      if who != Some(j) { assert CpuOk(s, j, maxTb); }
    }
    ThresholdPositive(s);
    if s.active == Some(i) {
      var k :| 0 <= k < |s.cpus| && s.cpus[k].status != Idle && CpuNow(s.cpus[k]) == SlowestTime(s.cpus).value;
      assert TimeOf(s.cpus[k]) == CpuNow(s.cpus[k]);
    }
  }

  lemma RebalancedOne(s: State, who: Option<nat>, j: nat, maxTb: nat)
    requires NearInv(s, who, maxTb) && s.active.Some? && j < |s.cpus|
    ensures Counted(s) && |Rebalance(s, who).cpus| == |s.cpus|
    ensures Rebalance(s, who).cpus[j] ==
      s.cpus[j].(status := RebalancedStatus(s.cpus[j].status, who == Some(j), MayGo(s, j)))
  {
    MayGoNear(s, who, j, maxTb);
  }

  lemma RebalanceTells(s: State, who: Option<nat>, maxTb: nat)
    requires NearInv(s, who, maxTb) && s.active.Some?
    ensures var r := Rebalance(s, who);
      && Counted(s) && Counted(r) && |r.cpus| == |s.cpus| && QemuTimeOf(r) == QemuTimeOf(s)
      && r == s.(cpus := r.cpus, sent := r.sent) && Told(r)
  {
    RebalanceRestoresInv(s, who, maxTb);
    Observed(Rebalance(s, who), maxTb);
    MayGoNear(s, who, s.active.value, maxTb);
  }

  lemma RebalanceEffect(s: State, who: Option<nat>, maxTb: nat)
    requires NearInv(s, who, maxTb) && s.active.Some?
    ensures Counted(s) && Counted(Rebalance(s, who)) && Rebalanced(s, Rebalance(s, who), who)
  {
    var r := Rebalance(s, who);
    RebalanceTells(s, who, maxTb);
    forall j: nat | j < |s.cpus|
      ensures r.cpus[j] == s.cpus[j].(status := RebalancedStatus(s.cpus[j].status, who == Some(j), MayGo(s, j)))
    {
      RebalancedOne(s, who, j, maxTb);
    }
  }

  /** Folding moves nothing. */
  lemma Folds(s: State, i: nat, maxTb: nat)
    requires Inv(s, maxTb) && s.started && i < |s.cpus| && s.cpus[i].status == Running
    ensures var f := Folded(s, i);
      && NearInv(f, Some(i), maxTb) && Counted(s) && Counted(f) && QemuTimeOf(f) == QemuTimeOf(s)
      && f == s.(cpus := f.cpus, qemuTime := f.qemuTime, qemuTimeNs := f.qemuTimeNs) && |f.cpus| == |s.cpus|
      && f.cpus[i].delta == 0 && f.cpus[i].status == Running && SameCpuTime(s.cpus[i], f.cpus[i])
      && forall j :: 0 <= j < |s.cpus| && j != i ==> f.cpus[j] == s.cpus[j]
  {
    Observed(s, maxTb);
    FoldedNearInv(s, i, maxTb);
    MayGoNear(Folded(s, i), Some(i), i, maxTb);
    assert CpuOk(s, i, maxTb);
  }

  lemma EndsQuota(s: State, i: nat, maxTb: nat)
    requires Inv(s, maxTb) && s.started && i < |s.cpus|
    ensures Inv(QuotaEnd(s, i), maxTb) && Counted(s) && Counted(QuotaEnd(s, i))
    ensures QuotaEffect(s, QuotaEnd(s, i), i)
  {
    Observed(s, maxTb);
    QuotaEndKeepsInv(s, i, maxTb);
    Observed(QuotaEnd(s, i), maxTb);
    if s.cpus[i].status == Running {
      var f := Folded(s, i);
      Folds(s, i, maxTb);
      RebalanceEffect(f, Some(i), maxTb);
      forall j: nat | j < |s.cpus| ensures MayGo(f, j) <==> MayGo(s, j) { SameMayGo(s, f, j); }
    }
  }

  // ---- vcpu_idle -------------------------------------------------------------------

  /** CPU k is the first one awake. */
  ghost predicate FirstAwake(cpus: seq<VCpu>, k: nat) {
    k < |cpus| && cpus[k].status != Idle && forall j :: 0 <= j < k ==> cpus[j].status == Idle
  }

  /**
   * Going idle keeps QEMU time. The active CPU keeps its time and hands over to
   * the first awake one, which starts at QEMU time and runs; another CPU loses
   * what it has in flight. Then paused CPUs go on exactly when they may, or, with
   * nobody awake, SystemC gets a free hand from QEMU time on.
   */
  ghost predicate SleepEffect(s: State, r: State, i: nat)
    requires Counted(s) && Counted(r) && i < |s.cpus|
  {
    if s.cpus[i].status != Running then r == s
    else
      && |r.cpus| == |s.cpus| && r.windowTo == s.windowTo && QemuTimeOf(r) == QemuTimeOf(s)
      && r.cpus[i] == VCpu(s.cpus[i].ips, 0, if s.active == Some(i) then TimeOf(s.cpus[i]) else s.cpus[i].time, Idle)
      && (if s.active != Some(i) then r.active == s.active
          else if r.active.Some? then FirstAwake(r.cpus, r.active.value)
          else forall j :: 0 <= j < |r.cpus| ==> r.cpus[j].status == Idle)
      && (if r.active.Some? then r.attached == s.attached && Told(r)
          else !r.attached && r.sent == OpenEnded(QemuTimeOf(s)))
      && forall j :: 0 <= j < |s.cpus| && j != i ==>
           if r.active == Some(j) && s.active == Some(i)
           then r.cpus[j] == VCpu(s.cpus[j].ips, 0, QemuTimeOf(s), Running)
           else r.cpus[j] == s.cpus[j].(status := RebalancedStatus(s.cpus[j].status, false, MayGo(r, j)))
  }

  /** The same up to the rebalancing, which is all when nobody is awake any more. */
  ghost predicate ParkEffect(s: State, h: State, i: nat)
    requires Counted(s) && Counted(h) && i < |s.cpus|
  {
    && |h.cpus| == |s.cpus| && h.windowTo == s.windowTo && QemuTimeOf(h) == QemuTimeOf(s)
    && h.cpus[i] == VCpu(s.cpus[i].ips, 0, if s.active == Some(i) then TimeOf(s.cpus[i]) else s.cpus[i].time, Idle)
    && (if s.active != Some(i) then h.active == s.active
        else if h.active.Some? then FirstAwake(h.cpus, h.active.value)
        else forall j :: 0 <= j < |h.cpus| ==> h.cpus[j].status == Idle)
    && (if h.active.Some? then h.attached == s.attached else !h.attached && h.sent == OpenEnded(QemuTimeOf(s)))
    && forall j :: 0 <= j < |s.cpus| && j != i ==>
         h.cpus[j] == if h.active == Some(j) && s.active == Some(i)
                      then VCpu(s.cpus[j].ips, 0, QemuTimeOf(s), Running) else s.cpus[j]
  }

  lemma Parks(s: State, i: nat, maxTb: nat)
    requires Inv(s, maxTb) && s.started && i < |s.cpus| && s.cpus[i].status == Running
    ensures NearInv(GoneIdle(s, i), None, maxTb) && Counted(s) && Counted(GoneIdle(s, i))
    ensures ParkEffect(s, GoneIdle(s, i), i)
  {
    Observed(s, maxTb);
    GoneIdleNearInv(s, i, maxTb);
    var h := GoneIdle(s, i);
    forall j | 0 <= j < |h.cpus| ensures h.cpus[j].delta > 0 ==> h.cpus[j].ips > 0 { assert CpuOk(h, j, maxTb); }
    assert CpuOk(s, i, maxTb);
  }

  /** Rebalancing on top of it. */
  lemma ParkThenRebalance(s: State, h: State, r: State, i: nat)
    requires Counted(s) && Counted(h) && Counted(r) && i < |s.cpus| && s.cpus[i].status == Running
    requires ParkEffect(s, h, i) && h.active.Some? && Rebalanced(h, r, None)
    ensures SleepEffect(s, r, i)
  {
    forall j: nat | j < |s.cpus| ensures MayGo(r, j) <==> MayGo(h, j) { SameMayGo(h, r, j); }
    forall j: nat | j < |s.cpus| && j != i && r.active == Some(j) && s.active == Some(i)
      ensures r.cpus[j] == VCpu(s.cpus[j].ips, 0, QemuTimeOf(s), Running)
    {
      assert h.cpus[j] == VCpu(s.cpus[j].ips, 0, QemuTimeOf(s), Running);
    }
  }

  lemma GoesIdle(s: State, i: nat, maxTb: nat)
    requires Inv(s, maxTb) && s.started && i < |s.cpus|
    ensures Inv(IdleCpu(s, i), maxTb) && Counted(s) && Counted(IdleCpu(s, i))
    ensures SleepEffect(s, IdleCpu(s, i), i)
  {
    Observed(s, maxTb);
    IdleKeepsInv(s, i, maxTb);
    Observed(IdleCpu(s, i), maxTb);
    if s.cpus[i].status == Running {
      var h := GoneIdle(s, i);
      Parks(s, i, maxTb);
      if h.active.Some? {
        RebalanceEffect(h, None, maxTb);
        ParkThenRebalance(s, h, Rebalance(h, None), i);
      }
    }
  }

  // ---- The window callback, the watchdog, vcpu_init and execution ---------------------

  /** A window changes its end only, and the status of the active CPU: if paused, it goes on exactly when it may. */
  ghost predicate WindowEffect(s: State, r: State, to: real)
    requires Counted(s) && Counted(r)
  {
    && |r.cpus| == |s.cpus| && r == s.(windowTo := to, cpus := r.cpus, sent := r.sent)
    && (s.active.None? ==> r == s.(windowTo := to))
    && (s.active.Some? ==> Told(r) && QemuTimeOf(r) == QemuTimeOf(s))
    && forall j :: 0 <= j < |s.cpus| ==>
         r.cpus[j] == s.cpus[j].(status := if s.active == Some(j) && s.cpus[j].status == Paused && MayGo(r, j)
                                           then Running else s.cpus[j].status)
  }

  lemma WindowKeepsTime(s: State, to: real, maxTb: nat)
    requires Inv(s, maxTb) && s.started && to >= s.quantum && s.active.Some?
    ensures var w := s.(windowTo := to);
      Inv(w, maxTb) && Counted(w) && QemuTimeOf(w) == QemuNow(s) && Threshold(w) > 0.0 &&
      (MayGo(w, s.active.value) <==> QemuNow(s) <= Threshold(w))
  {
    var w := s.(windowTo := to);
    forall j | 0 <= j < |s.cpus| ensures CpuOk(w, j, maxTb) { assert CpuOk(s, j, maxTb); }
    Observed(w, maxTb);
    MayGoIff(w, s.active.value, maxTb);
  }

  lemma TakesWindow(s: State, to: real, maxTb: nat)
    requires Inv(s, maxTb) && s.started && to >= s.quantum
    ensures Inv(ReceiveWindow(s, to), maxTb) && Counted(s) && Counted(ReceiveWindow(s, to))
    ensures WindowEffect(s, ReceiveWindow(s, to), to)
  {
    Observed(s, maxTb);
    WindowKeepsInv(s, to, maxTb);
    Observed(ReceiveWindow(s, to), maxTb);
    if s.active.Some? { ResumesActive(s, to, maxTb); }
  }

  lemma ResumesActive(s: State, to: real, maxTb: nat)
    requires Inv(s, maxTb) && s.started && to >= s.quantum && s.active.Some? && Counted(s)
    requires Inv(ReceiveWindow(s, to), maxTb) && Counted(ReceiveWindow(s, to))
    ensures WindowEffect(s, ReceiveWindow(s, to), to)
  {
    var w, r, a := s.(windowTo := to), ReceiveWindow(s, to), s.active.value;
    WindowKeepsTime(s, to, maxTb);
    Observed(r, maxTb);
    WindowKeepsInv(s, to, maxTb);
    SameMayGo(w, r, a);
    assert forall j :: 0 <= j < |s.cpus| && j != a ==> r.cpus[j] == s.cpus[j];
  }

  /** The watchdog adds a quantum to QEMU time and to the active CPU exactly when QEMU time stood still. */
  ghost predicate TickEffect(s: State, r: State)
    requires Counted(s) && Counted(r)
  {
    if s.active.None? then r == s
    else
      var a := s.active.value;
      && |r.cpus| == |s.cpus| && r.active == s.active && r.lastTick == QemuTimeOf(s)
      && (forall j :: 0 <= j < |s.cpus| && j != a ==> r.cpus[j] == s.cpus[j])
      && (if QemuTimeOf(s) == s.lastTick
          then QemuTimeOf(r) == QemuTimeOf(s) + s.quantum && Told(r) &&
               r.cpus[a] == s.cpus[a].(time := s.cpus[a].time + s.quantum)
          else r == s.(lastTick := r.lastTick))
  }

  lemma Ticks(s: State, maxTb: nat)
    requires Inv(s, maxTb) && s.started
    ensures Inv(Tick(s), maxTb) && Counted(s) && Counted(Tick(s))
    ensures TickEffect(s, Tick(s))
  {
    Observed(s, maxTb);
    TickKeepsInv(s, maxTb);
    Observed(Tick(s), maxTb);
  }

  /** A CPU starts at time zero at its configured rate, a billion instructions per second when there is none. */
  ghost predicate InitEffect(s: State, r: State, i: nat)
    requires i < |s.cpus|
  {
    && r == s.(cpus := r.cpus, active := r.active) && r.active == (if s.active.Some? then s.active else Some(i))
    && |r.cpus| == |s.cpus| && (forall j :: 0 <= j < |s.cpus| && j != i ==> r.cpus[j] == s.cpus[j])
    && r.cpus[i] == VCpu(if s.cpus[i].ips == 0 then 1000000000 else s.cpus[i].ips, 0, 0.0, Running)
  }

  lemma Inits(s: State, i: nat)
    requires i < |s.cpus|
    ensures InitEffect(s, InitCpu(s, i), i)
  {
  }

  /** Executing n instructions takes n / rate of the CPU's time, and of QEMU time when it is the active one. */
  ghost predicate ExecEffect(s: State, r: State, i: nat, n: nat)
    requires Counted(s) && Counted(r) && i < |s.cpus| && s.cpus[i].ips > 0
  {
    && |r.cpus| == |s.cpus| && r == s.(cpus := r.cpus)
    && (forall j :: 0 <= j < |s.cpus| && j != i ==> r.cpus[j] == s.cpus[j])
    && r.cpus[i].status == s.cpus[i].status
    && TimeOf(r.cpus[i]) == TimeOf(s.cpus[i]) + n as real / s.cpus[i].ips as real
    && QemuTimeOf(r) == QemuTimeOf(s) + (if s.active == Some(i) then n as real / s.cpus[i].ips as real else 0.0)
  }

  lemma DivAdds(a: real, b: real, d: real)
    requires d > 0.0
    ensures (a + b) / d == a / d + b / d
  {
  }

  lemma Executes(s: State, i: nat, n: nat, maxTb: nat)
    requires Inv(s, maxTb) && Enabled(s, EExec(i, n), maxTb)
    ensures Counted(s) && Counted(Exec(s, i, n)) && s.cpus[i].ips > 0
    ensures ExecEffect(s, Exec(s, i, n), i, n)
  {
    Observed(s, maxTb);
    assert CpuOk(s, i, maxTb);
    var c, m := s.cpus[i], s.cpus[i].delta + n;
    DivAdds(c.delta as real, n as real, c.ips as real);
    assert m as real == c.delta as real + n as real;
    assert 0.0 / c.ips as real == 0.0;
  }

  // ---- Where QEMU time comes from -------------------------------------------------------

  /** What one event adds to QEMU time. */
  ghost function Gained(s: State, e: Event): real
    requires Counted(s)
  {
    match e
    case EExec(i, n) =>
      if s.active == Some(i) && s.cpus[i].ips > 0 then n as real / s.cpus[i].ips as real else 0.0
    case EResume(i) =>
      if s.active.None? && i < |s.cpus| && s.cpus[i].status == Idle && s.scNow > s.qemuTime
      then s.scNow - s.qemuTime else 0.0
    case ETick => if s.active.Some? && QemuTimeOf(s) == s.lastTick then s.quantum else 0.0
    case _ => 0.0
  }

  lemma StepGains(s: State, e: Event, maxTb: nat)
    requires Inv(s, maxTb) && Enabled(s, e, maxTb)
    ensures Counted(s) && Counted(Apply(s, e, maxTb))
    ensures QemuTimeOf(Apply(s, e, maxTb)) == QemuTimeOf(s) + Gained(s, e)
  {
    StepKeepsInv(s, e, maxTb);
    Observed(s, maxTb);
    Observed(Apply(s, e, maxTb), maxTb);
    match e
    case EExec(i, n) => Executes(s, i, n, maxTb);
    case EQuotaEnd(i) => EndsQuota(s, i, maxTb);
    case EIdle(i) => GoesIdle(s, i, maxTb);
    case EResume(i) => WakesUp(s, i, maxTb);
    case EWindow(to) => TakesWindow(s, to, maxTb);
    case ETick => Ticks(s, maxTb);
    case _ =>
  }

  ghost function TotalGained(run: seq<State>, events: seq<Event>, k: nat): real
    requires k <= |run| && k <= |events|
    requires forall j :: 0 <= j < k ==> Counted(run[j])
  {
    if k == 0 then 0.0 else TotalGained(run, events, k - 1) + Gained(run[k - 1], events[k - 1])
  }

  /**
   * QEMU time is accounted for. In every run, watchdog included, it is exactly
   * the sum of what its events added: instructions of the active CPU at that
   * CPU's rate, watchdog quanta, and SystemC's lead at a lone wake-up.
   */
  lemma {:induction false} TimeIsAccounted(run: seq<State>, events: seq<Event>, maxTb: nat, k: nat)
    requires IsRun(run, events, maxTb) && k < |run|
    ensures forall j :: 0 <= j <= k ==> Counted(run[j])
    ensures QemuTimeOf(run[k]) == TotalGained(run, events, k)
    decreases k
  {
    RunKeepsInv(run, events, maxTb, k);
    Observed(run[k], maxTb);
    if k > 0 {
      TimeIsAccounted(run, events, maxTb, k - 1);
      RunKeepsInv(run, events, maxTb, k - 1);
      assert IsStep(run[k - 1], events[k - 1], run[k - 1 + 1], maxTb);
      StepGains(run[k - 1], events[k - 1], maxTb);
    }
  }

  // ---- The clock ---------------------------------------------------------------------------

  /**
   * What the clock query reads, in nanoseconds. With an active CPU it is QEMU
   * time, short of it by less than two nanoseconds. With none it is the later of
   * QEMU time and SystemC time, each cut to a whole number, once QEMU time has
   * reached a nanosecond, and zero before that.
   */
  ghost predicate ClockReads(s: State, ns: int)
    requires Counted(s)
  {
    if s.active.Some? then ns as real <= QemuTimeOf(s) * 1000000000.0 < (ns + 2) as real
    else if s.qemuTime * 1000000000.0 < 1.0 then ns == 0
    else
      var qemu, systemc := (s.qemuTime * 1000000000.0).Floor, (s.scNow * 1000000000.0).Floor;
      ns == if systemc > qemu then systemc else qemu
  }

  lemma ClockIsTime(s: State, maxTb: nat)
    requires Inv(s, maxTb)
    ensures Counted(s) && ClockReads(s, Clock(s))
  {
    Observed(s, maxTb);
    if s.active.Some? {
      var d := DeltaTime(s.cpus[s.active.value]);
      assert (s.qemuTime + d) * NS_PER_SEC == s.qemuTime * NS_PER_SEC + d * NS_PER_SEC;
    } else {
      assert s.qemuTime * NS_PER_SEC >= 0.0;
    }
  }
}
