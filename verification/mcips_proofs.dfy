/** What every run of the MCIPS plugin keeps. */
module McipsProofs {
  import opened Basics
  import opened McipsModel

  // ---- Invariant -------------------------------------------------------------

  /** Most instructions a CPU can have in flight. */
  function MaxInFlight(s: State, maxTb: nat): nat
    requires s.quantum > 0.0
  {
    Quota(s.quantum) - 1 + maxTb
  }

  /** How far a CPU of rate ips may get ahead of QEMU time. */
  function MaxLead(s: State, ips: nat, maxTb: nat): real
    requires s.quantum > 0.0 && ips > 0
  {
    MaxInFlight(s, maxTb) as real / ips as real
  }

  ghost predicate ActiveOk(s: State) {
    && ActiveInRange(s)
    && (s.active.None? <==> forall i :: 0 <= i < |s.cpus| ==> s.cpus[i].status == Idle)
    && (s.active.Some? ==> s.cpus[s.active.value].status != Idle && s.cpus[s.active.value].time == s.qemuTime)
  }

  ghost predicate CpuOk(s: State, i: nat, maxTb: nat)
    requires s.quantum > 0.0 && ActiveInRange(s) && i < |s.cpus|
  {
    var c := s.cpus[i];
    && c.time >= 0.0
    && c.delta <= MaxInFlight(s, maxTb)
    && (c.status != Running ==> c.delta == 0)
    && (c.status != Idle ==> c.ips > 0)
    && (c.status == Running && s.active != Some(i) ==> c.time <= QemuNow(s))
    && (c.status == Paused && s.active != Some(i) ==> c.time <= QemuNow(s) + MaxLead(s, c.ips, maxTb))
  }

  ghost predicate NotStartedOk(s: State) {
    && s.qemuTime == 0.0 && s.attached
    && forall i :: 0 <= i < |s.cpus| ==> s.cpus[i].time == 0.0 && s.cpus[i].delta == 0 && s.cpus[i].status != Paused
  }

  ghost predicate Inv(s: State, maxTb: nat) {
    && s.quantum > 0.0
    && s.scNow >= 0.0
    && s.qemuTime >= 0.0
    && s.qemuTimeNs == ToNs(s.qemuTime)
    && s.windowTo >= s.quantum
    && ActiveOk(s)
    && (forall i :: 0 <= i < |s.cpus| ==> CpuOk(s, i, maxTb))
    && (s.started ==> (s.attached <==> s.active.Some?))
    && (!s.started ==> NotStartedOk(s))
  }

  lemma FloorOfSum(a: real, b: real)
    ensures a.Floor + b.Floor <= (a + b).Floor
  {
    var f := a.Floor + b.Floor;
    assert f as real <= a + b;
  }

  lemma ToNsMonotone(a: real, b: real)
    requires a <= b
    ensures ToNs(a) <= ToNs(b)
  {
    var x, y := a * NS_PER_SEC, b * NS_PER_SEC;
    assert x <= y;
  }

  lemma ToNsSuperadditive(a: real, b: real)
    ensures ToNs(a) + ToNs(b) <= ToNs(a + b)
  {
    assert (a + b) * NS_PER_SEC == a * NS_PER_SEC + b * NS_PER_SEC;
    FloorOfSum(a * NS_PER_SEC, b * NS_PER_SEC);
  }

  lemma DeltaWithinLead(s: State, c: VCpu, maxTb: nat)
    requires s.quantum > 0.0 && c.ips > 0 && c.delta <= MaxInFlight(s, maxTb)
    ensures DeltaTime(c) <= MaxLead(s, c.ips, maxTb)
  {
    DivMonotone(c.delta as real, MaxInFlight(s, maxTb) as real, c.ips as real);
  }

  lemma DivMonotone(a: real, b: real, d: real)
    requires a <= b && d > 0.0
    ensures a / d <= b / d
  {
    assert b / d - a / d == (b - a) / d;
  }

  /** With an active CPU the threshold is positive, so rebalancing is never skipped. */
  lemma ThresholdPositive(s: State)
    requires s.quantum > 0.0 && s.windowTo > 0.0 && ActiveOk(s) && s.active.Some?
    requires forall i :: 0 <= i < |s.cpus| ==> s.cpus[i].time >= 0.0
    ensures Threshold(s) > 0.0
  {
    assert SlowestTime(s.cpus).Some?;
  }

  // ---- Each step keeps the invariant -------------------------------------------

  lemma InitKeepsInv(s: State, i: nat, maxTb: nat)
    requires Inv(s, maxTb) && !s.started && i < |s.cpus|
    ensures Inv(InitCpu(s, i), maxTb)
  {
    var r := InitCpu(s, i);
    assert QemuNow(s) == 0.0 && QemuNow(r) == 0.0;
    forall j | 0 <= j < |s.cpus| ensures CpuOk(r, j, maxTb) { assert CpuOk(s, j, maxTb); }
  }

  lemma ExecKeepsInv(s: State, i: nat, n: nat, maxTb: nat)
    requires Inv(s, maxTb) && Enabled(s, EExec(i, n), maxTb)
    ensures Inv(Exec(s, i, n), maxTb)
    ensures QemuNow(s) <= QemuNow(Exec(s, i, n))
  {
    var r := Exec(s, i, n);
    assert CpuOk(s, i, maxTb);
    DivMonotone(s.cpus[i].delta as real, r.cpus[i].delta as real, s.cpus[i].ips as real);
    assert QemuNow(s) <= QemuNow(r);
    forall j | 0 <= j < |s.cpus| ensures CpuOk(r, j, maxTb) { assert CpuOk(s, j, maxTb); }
  }

  /** Invariant of CPU j while CPU `who` may be ahead of QEMU time by one quota. */
  ghost predicate NearInv(s: State, who: Option<nat>, maxTb: nat) {
    && s.quantum > 0.0
    && s.scNow >= 0.0
    && s.qemuTime >= 0.0
    && s.qemuTimeNs == ToNs(s.qemuTime)
    && s.windowTo >= s.quantum
    && ActiveOk(s)
    && s.started
    && (s.active.Some? ==> s.attached)
    && (who.Some? ==> who.value < |s.cpus|)
    && (forall i :: 0 <= i < |s.cpus| && who != Some(i) ==> CpuOk(s, i, maxTb))
    && (who.Some? ==>
          var c := s.cpus[who.value];
          c.status == Running && c.delta == 0 && c.ips > 0 && c.time >= 0.0 &&
          (s.active != who ==> c.time <= QemuNow(s) + MaxLead(s, c.ips, maxTb)))
  }

  /** CPU j after rebalancing, in terms of the state before. */
  lemma RebalancedCpu(s: State, who: Option<nat>, j: nat, maxTb: nat)
    requires NearInv(s, who, maxTb) && s.active.Some? && j < |s.cpus|
    ensures Threshold(s) > 0.0
    ensures var r := Rebalance(s, who);
      && |r.cpus| == |s.cpus|
      && r.cpus[j].(status := s.cpus[j].status) == s.cpus[j]
      && (r.cpus[j].status == Idle <==> s.cpus[j].status == Idle)
      && (r.cpus[j].status == Paused ==> !MayRun(s.cpus[j], s.active == Some(j), QemuNow(s), Threshold(s)))
      && (r.cpus[j].status == Running ==>
            MayRun(s.cpus[j], s.active == Some(j), QemuNow(s), Threshold(s)) ||
              (s.cpus[j].status == Running && who != Some(j)))
  {
    forall i | 0 <= i < |s.cpus| ensures s.cpus[i].time >= 0.0 {
      if who != Some(i) { assert CpuOk(s, i, maxTb); }
    }
    ThresholdPositive(s);
  }

  lemma RebalancedCpuOk(s: State, who: Option<nat>, j: nat, maxTb: nat)
    requires NearInv(s, who, maxTb) && s.active.Some? && j < |s.cpus| && QemuNow(Rebalance(s, who)) == QemuNow(s)
    ensures var r := Rebalance(s, who);
      r.quantum > 0.0 && j < |r.cpus| && CpuOk(r, j, maxTb) && (r.cpus[j].status == Idle <==> s.cpus[j].status == Idle)
  {
    RebalancedCpu(s, who, j, maxTb);
    if who != Some(j) { assert CpuOk(s, j, maxTb); }
  }

  lemma RebalanceRestoresInv(s: State, who: Option<nat>, maxTb: nat)
    requires NearInv(s, who, maxTb)
    requires who.Some? ==> s.active.Some?
    ensures Inv(Rebalance(s, who), maxTb)
    ensures QemuNow(Rebalance(s, who)) == QemuNow(s)
  {
    var r := Rebalance(s, who);
    if s.active.Some? {
      var a := s.active.value;
      RebalancedCpu(s, who, a, maxTb);
      assert QemuNow(r) == QemuNow(s);
      forall j: nat | j < |s.cpus|
        ensures CpuOk(r, j, maxTb) && (r.cpus[j].status == Idle <==> s.cpus[j].status == Idle)
      {
        RebalancedCpuOk(s, who, j, maxTb);
      }
    } else {
      forall j | 0 <= j < |s.cpus| ensures CpuOk(r, j, maxTb) { assert CpuOk(s, j, maxTb); }
    }
  }

  lemma FoldedNearInv(s: State, i: nat, maxTb: nat)
    requires Inv(s, maxTb) && s.started && i < |s.cpus| && s.cpus[i].status == Running
    ensures NearInv(Folded(s, i), Some(i), maxTb) && s.active.Some?
    ensures QemuNow(Folded(s, i)) == QemuNow(s)
  {
    var f := Folded(s, i);
    assert CpuOk(s, i, maxTb);
    DeltaWithinLead(s, s.cpus[i], maxTb);
    assert QemuNow(f) == QemuNow(s);
    forall j | 0 <= j < |s.cpus| && j != i ensures CpuOk(f, j, maxTb) { assert CpuOk(s, j, maxTb); }
  }

  /** State of vcpu_idle just before it rebalances. */
  function GoneIdle(s: State, i: nat): State
    requires ActiveInRange(s) && i < |s.cpus|
  {
    if s.active == Some(i) then HandOver(Parked(s, i)) else Parked(s, i)
  }

  lemma GoneIdleNearInv(s: State, i: nat, maxTb: nat)
    requires Inv(s, maxTb) && s.started && i < |s.cpus| && s.cpus[i].status == Running
    ensures NearInv(GoneIdle(s, i), None, maxTb)
    ensures QemuNow(GoneIdle(s, i)) == QemuNow(s)
  {
    assert CpuOk(s, i, maxTb);
    var h := GoneIdle(s, i);
    assert QemuNow(h) == QemuNow(s);
    forall j | 0 <= j < |s.cpus| ensures CpuOk(h, j, maxTb) { assert CpuOk(s, j, maxTb); }
    assert ActiveOk(h);
  }

  lemma QuotaEndKeepsInv(s: State, i: nat, maxTb: nat)
    requires Inv(s, maxTb) && s.started && i < |s.cpus|
    ensures Inv(QuotaEnd(s, i), maxTb)
    ensures QemuNow(QuotaEnd(s, i)) == QemuNow(s)
  {
    if s.cpus[i].status == Running {
      FoldedNearInv(s, i, maxTb);
      RebalanceRestoresInv(Folded(s, i), Some(i), maxTb);
    }
  }

  lemma IdleKeepsInv(s: State, i: nat, maxTb: nat)
    requires Inv(s, maxTb) && s.started && i < |s.cpus|
    ensures Inv(IdleCpu(s, i), maxTb)
    ensures QemuNow(IdleCpu(s, i)) == QemuNow(s)
  {
    if s.cpus[i].status == Running {
      GoneIdleNearInv(s, i, maxTb);
      RebalanceRestoresInv(GoneIdle(s, i), None, maxTb);
    }
  }

  lemma ResumeKeepsInv(s: State, i: nat, maxTb: nat)
    requires Inv(s, maxTb) && s.started && i < |s.cpus| && s.cpus[i].ips > 0
    ensures Inv(ResumeCpu(s, i), maxTb)
    ensures QemuNow(s) <= QemuNow(ResumeCpu(s, i))
  {
    var r := ResumeCpu(s, i);
    assert CpuOk(s, i, maxTb);
    assert QemuNow(s) <= QemuNow(r);
    forall j | 0 <= j < |s.cpus| ensures CpuOk(r, j, maxTb) { assert CpuOk(s, j, maxTb); }
  }

  lemma WindowKeepsInv(s: State, to: real, maxTb: nat)
    requires Inv(s, maxTb) && s.started && to >= s.quantum
    ensures Inv(ReceiveWindow(s, to), maxTb)
    ensures QemuNow(ReceiveWindow(s, to)) == QemuNow(s)
  {
    var r := ReceiveWindow(s, to);
    assert QemuNow(r) == QemuNow(s);
    forall j | 0 <= j < |s.cpus| ensures CpuOk(r, j, maxTb) { assert CpuOk(s, j, maxTb); }
  }

  lemma TickKeepsInv(s: State, maxTb: nat)
    requires Inv(s, maxTb) && s.started
    ensures Inv(Tick(s), maxTb)
    ensures QemuNow(s) <= QemuNow(Tick(s))
  {
    var r := Tick(s);
    assert QemuNow(s) <= QemuNow(r);
    forall j | 0 <= j < |s.cpus| ensures CpuOk(r, j, maxTb) { assert CpuOk(s, j, maxTb); }
  }

  lemma StepKeepsInv(s: State, e: Event, maxTb: nat)
    requires Inv(s, maxTb) && Enabled(s, e, maxTb)
    ensures Inv(Apply(s, e, maxTb), maxTb)
    ensures QemuNow(s) <= QemuNow(Apply(s, e, maxTb))
  {
    match e
    case EInit(i) => InitKeepsInv(s, i, maxTb);
    case EExec(i, n) => ExecKeepsInv(s, i, n, maxTb);
    case EQuotaEnd(i) => QuotaEndKeepsInv(s, i, maxTb);
    case EIdle(i) => IdleKeepsInv(s, i, maxTb);
    case EResume(i) => ResumeKeepsInv(s, i, maxTb);
    case EWindow(to) => WindowKeepsInv(s, to, maxTb);
    case ETick => TickKeepsInv(s, maxTb);
    case EStart =>
      forall j | 0 <= j < |s.cpus| ensures CpuOk(s.(started := true), j, maxTb) { assert CpuOk(s, j, maxTb); }
    case EScTime(t) =>
      forall j | 0 <= j < |s.cpus| ensures CpuOk(s.(scNow := t), j, maxTb) { assert CpuOk(s, j, maxTb); }
  }

  // ---- Waiting for SystemC -----------------------------------------------------

  /** Some CPU is awake but none is allowed to run. */
  ghost predicate Waiting(s: State) {
    s.started && s.active.Some? && forall i :: 0 <= i < |s.cpus| ==> s.cpus[i].status != Running
  }

  ghost predicate WaitOk(s: State)
    requires ActiveInRange(s)
  {
    Waiting(s) ==> QemuNow(s) > Threshold(s) && s.sent == Bounded(QemuNow(s), QemuNow(s) + s.quantum)
  }

  ghost predicate ActiveIsSlowest(s: State)
    requires ActiveInRange(s) && s.active.Some?
  {
    forall i :: 0 <= i < |s.cpus| && s.cpus[i].status != Idle ==> QemuNow(s) <= CpuNow(s.cpus[i])
  }

  ghost predicate SlowestOk(s: State)
    requires ActiveInRange(s)
  {
    Waiting(s) ==> ActiveIsSlowest(s)
  }

  lemma RebalanceWaits(s: State, who: Option<nat>, maxTb: nat)
    requires NearInv(s, who, maxTb)
    requires who.Some? ==> s.active.Some?
    ensures WaitOk(Rebalance(s, who)) && SlowestOk(Rebalance(s, who))
  {
    RebalanceRestoresInv(s, who, maxTb);
    if Waiting(Rebalance(s, who)) {
      WaitingIsActive(s, who);
      RebalanceSlowest(s, who, maxTb);
      RebalanceWindow(s, who, maxTb);
    }
  }

  lemma WaitingIsActive(s: State, who: Option<nat>)
    requires ActiveInRange(s) && (who.Some? ==> who.value < |s.cpus|) && Rebalance(s, who).active.Some?
    ensures s.active.Some?
  {
  }

  lemma RebalanceWindow(s: State, who: Option<nat>, maxTb: nat)
    requires NearInv(s, who, maxTb) && s.active.Some? && Waiting(Rebalance(s, who))
    requires Inv(Rebalance(s, who), maxTb) && QemuNow(Rebalance(s, who)) == QemuNow(s)
    ensures var r := Rebalance(s, who);
      QemuNow(r) > Threshold(r) && r.sent == Bounded(QemuNow(r), QemuNow(r) + r.quantum)
  {
    RebalancePastThreshold(s, who, maxTb);
    RebalanceThreshold(s, who, maxTb);
  }

  lemma RebalancePastThreshold(s: State, who: Option<nat>, maxTb: nat)
    requires NearInv(s, who, maxTb) && s.active.Some?
    requires Waiting(Rebalance(s, who))
    ensures QemuNow(s) > Threshold(s)
    ensures Rebalance(s, who).sent == Bounded(QemuNow(s), QemuNow(s) + s.quantum)
  {
    var a := s.active.value;
    RebalancedCpu(s, who, a, maxTb);
    var r := Rebalance(s, who);
    assert r.cpus[a].status == Paused;
    assert r.sent == Bounded(QemuNow(r), QemuNow(r) + r.quantum);
  }

  /** Rebalancing changes no CPU's time, hence not the threshold. */
  lemma RebalanceThreshold(s: State, who: Option<nat>, maxTb: nat)
    requires NearInv(s, who, maxTb) && s.active.Some?
    ensures Threshold(Rebalance(s, who)) == Threshold(s)
  {
    var r := Rebalance(s, who);
    forall j | 0 <= j < |s.cpus|
      ensures CpuNow(r.cpus[j]) == CpuNow(s.cpus[j]) && (r.cpus[j].status == Idle <==> s.cpus[j].status == Idle)
    {
      RebalancedCpu(s, who, j, maxTb);
    }
    RebalancedCpu(s, who, s.active.value, maxTb);
    SameSlowest(s.cpus, r.cpus);
  }

  lemma SameSlowest(cpus: seq<VCpu>, cpus': seq<VCpu>)
    requires |cpus| == |cpus'|
    requires forall j :: 0 <= j < |cpus| ==>
      CpuNow(cpus'[j]) == CpuNow(cpus[j]) && (cpus'[j].status == Idle <==> cpus[j].status == Idle)
    ensures SlowestTime(cpus) == SlowestTime(cpus')
  {
    if SlowestTime(cpus).Some? { SlowestNotAbove(cpus', cpus); }
    if SlowestTime(cpus').Some? { SlowestNotAbove(cpus, cpus'); }
  }

  lemma SlowestNotAbove(cpus: seq<VCpu>, cpus': seq<VCpu>)
    requires |cpus| == |cpus'| && SlowestTime(cpus').Some?
    requires forall j :: 0 <= j < |cpus| ==>
      CpuNow(cpus'[j]) == CpuNow(cpus[j]) && (cpus'[j].status == Idle <==> cpus[j].status == Idle)
    ensures SlowestTime(cpus).Some? && SlowestTime(cpus).value <= SlowestTime(cpus').value
  {
    var i :| 0 <= i < |cpus'| && cpus'[i].status != Idle && CpuNow(cpus'[i]) == SlowestTime(cpus').value;
    assert cpus[i].status != Idle;
  }

  lemma RebalanceSlowest(s: State, who: Option<nat>, maxTb: nat)
    requires NearInv(s, who, maxTb) && s.active.Some?
    requires Inv(Rebalance(s, who), maxTb) && QemuNow(Rebalance(s, who)) == QemuNow(s)
    requires Waiting(Rebalance(s, who))
    ensures ActiveIsSlowest(Rebalance(s, who))
  {
    var r := Rebalance(s, who);
    forall j | 0 <= j < |r.cpus| && r.cpus[j].status != Idle
      ensures QemuNow(r) <= CpuNow(r.cpus[j])
    {
      assert CpuOk(r, j, maxTb);
      RebalancedCpu(s, who, j, maxTb);
    }
  }

  lemma BumpWaits(s: State, maxTb: nat)
    requires Inv(s, maxTb) && s.started && WaitOk(s) && Bumps(s)
    ensures WaitOk(Tick(s))
  {
    var r := Tick(s);
    if Waiting(r) {
      var a := s.active.value;
      assert forall j :: 0 <= j < |s.cpus| && j != a ==> r.cpus[j] == s.cpus[j];
      assert Waiting(s) by {
        forall j | 0 <= j < |s.cpus|
          ensures s.cpus[j].status != Running
        {
          assert r.cpus[j].status == s.cpus[j].status;
        }
      }
      assert CpuNow(s.cpus[a]) == QemuNow(s) && CpuNow(r.cpus[a]) == QemuNow(r);
      if s.windowTo >= QemuNow(s) {
        var k :| 0 <= k < |s.cpus| && s.cpus[k].status != Idle && CpuNow(s.cpus[k]) == SlowestTime(s.cpus).value;
        assert CpuNow(r.cpus[k]) == CpuNow(s.cpus[k]);
      }
    }
  }

  lemma StepWaits(s: State, e: Event, maxTb: nat)
    requires Inv(s, maxTb) && Enabled(s, e, maxTb) && WaitOk(s)
    ensures Inv(Apply(s, e, maxTb), maxTb)
    ensures WaitOk(Apply(s, e, maxTb))
    ensures SlowestOk(s) && !(e.ETick? && Bumps(s)) ==> SlowestOk(Apply(s, e, maxTb))
  {
    StepKeepsInv(s, e, maxTb);
    match e
    case EQuotaEnd(i) =>
      if s.cpus[i].status == Running {
        FoldedNearInv(s, i, maxTb);
        RebalanceWaits(Folded(s, i), Some(i), maxTb);
      }
    case EIdle(i) =>
      if s.cpus[i].status == Running {
        GoneIdleNearInv(s, i, maxTb);
        RebalanceWaits(GoneIdle(s, i), None, maxTb);
      }
    case EWindow(to) => WindowWaits(s, to, maxTb);
    case ETick => if Bumps(s) { BumpWaits(s, maxTb); } else { SameCpusWait(s, Apply(s, e, maxTb)); }
    case _ => OtherStepWaits(s, e, maxTb);
  }

  /** The remaining steps either leave a CPU running or touch nothing that matters here. */
  lemma OtherStepWaits(s: State, e: Event, maxTb: nat)
    requires Inv(s, maxTb) && Enabled(s, e, maxTb) && WaitOk(s)
    requires Inv(Apply(s, e, maxTb), maxTb)
    requires e.EExec? || e.EResume? || e.EInit? || e.EStart? || e.EScTime?
    ensures WaitOk(Apply(s, e, maxTb))
    ensures SlowestOk(s) ==> SlowestOk(Apply(s, e, maxTb))
  {
    var r := Apply(s, e, maxTb);
    match e
    case EExec(i, n) => assert r.cpus[i].status == Running;
    case EResume(i) => assert r == s || r.cpus[i].status == Running;
    case EStart => assert CpuOk(s, s.active.value, maxTb); assert s.cpus[s.active.value].status == Running;
    case EInit(i) => assert !r.started;
    case EScTime(t) => SameCpusWait(s, r);
  }

  lemma SameCpusWait(s: State, r: State)
    requires ActiveInRange(s) && WaitOk(s)
    requires r == s.(scNow := r.scNow, lastTick := r.lastTick)
    ensures WaitOk(r) && (SlowestOk(s) ==> SlowestOk(r))
  {
  }

  lemma WindowWaits(s: State, to: real, maxTb: nat)
    requires Inv(s, maxTb) && s.started && to >= s.quantum && WaitOk(s)
    ensures var r := ReceiveWindow(s, to);
      ActiveInRange(r) && WaitOk(r) && (SlowestOk(s) ==> SlowestOk(r))
  {
    var r := ReceiveWindow(s, to);
    if Waiting(r) {
      var a := s.active.value;
      forall i | 0 <= i < |s.cpus| ensures s.cpus[i].time >= 0.0 { assert CpuOk(s, i, maxTb); }
      ThresholdPositive(s.(windowTo := to));
      assert r.cpus[a].status != Running;
      assert r.cpus == s.cpus;
    }
  }

  // ---- Theorems over whole runs ---------------------------------------------------

  lemma {:induction false} RunKeepsInv(run: seq<State>, events: seq<Event>, maxTb: nat, k: nat)
    requires IsRun(run, events, maxTb) && k < |run|
    ensures Inv(run[k], maxTb) && WaitOk(run[k])
    decreases k
  {
    if k == 0 {
      InitialInv(run[0], maxTb);
    } else {
      RunKeepsInv(run, events, maxTb, k - 1);
      assert IsStep(run[k - 1], events[k - 1], run[k - 1 + 1], maxTb);
      StepWaits(run[k - 1], events[k - 1], maxTb);
    }
  }

  lemma InitialInv(s: State, maxTb: nat)
    requires Initial(s)
    ensures Inv(s, maxTb)
  {
    assert 0.0 * NS_PER_SEC == 0.0;
    forall i | 0 <= i < |s.cpus| ensures CpuOk(s, i, maxTb) {}
  }

  /**
   * State invariant. Once started there is no active CPU exactly when all CPUs
   * are idle, and the SystemC window is attached exactly when there is one; the
   * active CPU's base time is QEMU time; an idle CPU has nothing in flight; and
   * whenever a quota callback finds its CPU running there is an active CPU.
   */
  lemma StateInvariant(run: seq<State>, events: seq<Event>, maxTb: nat, k: nat)
    requires IsRun(run, events, maxTb) && k < |run|
    ensures var s := run[k];
      && ActiveInRange(s)
      && (s.active.None? <==> forall i :: 0 <= i < |s.cpus| ==> s.cpus[i].status == Idle)
      && (s.active.Some? ==> s.cpus[s.active.value].status != Idle && s.cpus[s.active.value].time == s.qemuTime)
      && (s.started ==> (s.attached <==> s.active.Some?))
      && s.qemuTimeNs == ToNs(s.qemuTime)
      && (forall i :: 0 <= i < |s.cpus| && s.cpus[i].status == Idle ==> s.cpus[i].delta == 0)
      && (forall i :: 0 <= i < |s.cpus| && s.cpus[i].status != Idle ==> s.cpus[i].ips > 0 && s.active.Some?)
  {
    RunKeepsInv(run, events, maxTb, k);
    var s := run[k];
    forall i | 0 <= i < |s.cpus|
      ensures s.cpus[i].status == Idle ==> s.cpus[i].delta == 0
      ensures s.cpus[i].status != Idle ==> s.cpus[i].ips > 0
    {
      assert CpuOk(s, i, maxTb);
    }
  }

  /**
   * Skew bound. A CPU that is awake is never ahead of QEMU time by more than
   * the instructions of one quota and one block, at its own rate; and the base
   * time of a running CPU that is not the active one is never ahead at all.
   */
  lemma SkewBound(run: seq<State>, events: seq<Event>, maxTb: nat, k: nat, i: nat)
    requires IsRun(run, events, maxTb) && k < |run|
    requires i < |run[k].cpus| && run[k].cpus[i].status != Idle && run[k].active != Some(i)
    ensures var s := run[k]; var c := s.cpus[i];
      && s.quantum > 0.0 && ActiveInRange(s) && c.ips > 0
      && CpuNow(c) <= QemuNow(s) + (Quota(s.quantum) - 1 + maxTb) as real / c.ips as real
      && CpuNow(c) <= QemuNow(s) + (s.quantum * 1000000000.0 + maxTb as real) / c.ips as real
      && (c.status == Running ==> c.time <= QemuNow(s))
  {
    RunKeepsInv(run, events, maxTb, k);
    var s := run[k];
    assert CpuOk(s, i, maxTb);
    DeltaWithinLead(s, s.cpus[i], maxTb);
    assert s.quantum * 1000000000.0 >= 0.0;
    DivMonotone(MaxInFlight(s, maxTb) as real, s.quantum * 1000000000.0 + maxTb as real, s.cpus[i].ips as real);
  }

  /** No step moves the nanosecond clock backwards. */
  lemma ClockStep(s: State, e: Event, maxTb: nat)
    requires Inv(s, maxTb) && Enabled(s, e, maxTb)
    ensures Inv(Apply(s, e, maxTb), maxTb)
    ensures Clock(s) <= Clock(Apply(s, e, maxTb))
  {
    StepKeepsInv(s, e, maxTb);
    var r := Apply(s, e, maxTb);
    assert ToNs(0.0) == 0 by { assert 0.0 * NS_PER_SEC == 0.0; }
    if s.active.Some? {
      var a := s.active.value;
      var d := DeltaTime(s.cpus[a]);
      ToNsSuperadditive(s.qemuTime, d);
      if r.active == s.active {
        ClockWhileActive(s, e, maxTb);
      } else {
        assert e.EIdle?;
        IdleKeepsInv(s, e.i, maxTb);
        HandOverTime(s, e.i, maxTb);
      }
    } else {
      match e
      case EResume(i) => 
        assert CpuOk(s, i, maxTb);
        if s.scNow > s.qemuTime { ToNsMonotone(s.qemuTime, s.scNow); } else { ToNsMonotone(s.scNow, s.qemuTime); }
      case EScTime(t) => ToNsMonotone(s.scNow, t);
      case _ =>
    }
  }

  /**
   * Handing over keeps QEMU time exactly. Before it the clock adds two truncated
   * parts, after it there is one, so the clock may only catch up with the time.
   */
  lemma HandOverTime(s: State, i: nat, maxTb: nat)
    requires Inv(s, maxTb) && s.started && i < |s.cpus| && s.active == Some(i) && s.cpus[i].status == Running
    ensures ActiveInRange(IdleCpu(s, i)) && IdleCpu(s, i).active != Some(i)
    ensures QemuNow(IdleCpu(s, i)) == QemuNow(s)
    ensures Clock(s) == ToNs(s.qemuTime) + ToNs(DeltaTime(s.cpus[i])) <= ToNs(QemuNow(s)) <= Clock(IdleCpu(s, i))
    ensures IdleCpu(s, i).active.Some? ==> Clock(IdleCpu(s, i)) == ToNs(QemuNow(s))
  {
    ToNsSuperadditive(s.qemuTime, DeltaTime(s.cpus[i]));
    assert ToNs(0.0) == 0 by { assert 0.0 * NS_PER_SEC == 0.0; }
    var h := GoneIdle(s, i);
    GoneIdleNearInv(s, i, maxTb);
    if h.active.Some? {
      RebalancedCpu(h, None, h.active.value, maxTb);
    }
  }

  lemma ClockWhileActive(s: State, e: Event, maxTb: nat)
    requires Inv(s, maxTb) && Enabled(s, e, maxTb) && s.active.Some?
    requires Apply(s, e, maxTb).active == s.active
    requires Inv(Apply(s, e, maxTb), maxTb)
    ensures Clock(s) <= Clock(Apply(s, e, maxTb))
  {
    var a := s.active.value;
    var r := Apply(s, e, maxTb);
    match e
    case EExec(i, n) =>
      assert CpuOk(s, a, maxTb);
      DivMonotone(s.cpus[a].delta as real, r.cpus[a].delta as real, s.cpus[a].ips as real);
      ToNsMonotone(DeltaTime(s.cpus[a]), DeltaTime(r.cpus[a]));
    case EQuotaEnd(i) =>
      if s.cpus[i].status == Running {
        FoldedNearInv(s, i, maxTb);
        RebalancedCpu(Folded(s, i), Some(i), a, maxTb);
        ToNsSuperadditive(s.qemuTime, DeltaTime(s.cpus[a]));
        assert ToNs(0.0) == 0 by { assert 0.0 * NS_PER_SEC == 0.0; }
      }
    case EIdle(i) =>
      if s.cpus[i].status == Running {
        if i == a { HandOverTime(s, i, maxTb); }
        GoneIdleNearInv(s, i, maxTb);
        RebalancedCpu(GoneIdle(s, i), None, a, maxTb);
      }
    case ETick => ToNsMonotone(s.qemuTime, s.qemuTime + s.quantum);
    case EInit(i) =>
      assert s.cpus[a].delta == 0 && r.cpus[a].delta == 0;
    case _ =>
  }

  lemma StepGoesForward(s: State, e: Event, s': State, maxTb: nat)
    requires Inv(s, maxTb) && IsStep(s, e, s', maxTb)
    ensures ActiveInRange(s) && ActiveInRange(s') && QemuNow(s) <= QemuNow(s') && Clock(s) <= Clock(s')
  {
    StepKeepsInv(s, e, maxTb);
    ClockStep(s, e, maxTb);
  }

  /** No awake CPU is further ahead of QEMU time than the instructions of one quota and one block. */
  ghost predicate InStep(s: State, maxTb: nat) {
    && s.quantum > 0.0 && ActiveInRange(s)
    && forall i :: 0 <= i < |s.cpus| && s.cpus[i].status != Idle && s.active != Some(i) ==> LeadOk(s, i, maxTb)
  }

  ghost predicate LeadOk(s: State, i: nat, maxTb: nat)
    requires s.quantum > 0.0 && ActiveInRange(s) && i < |s.cpus|
  {
    var c := s.cpus[i];
    && c.ips > 0 && CpuNow(c) <= QemuNow(s) + MaxLead(s, c.ips, maxTb)
    && (c.status == Running ==> c.time <= QemuNow(s))
  }

  lemma InvGivesStep(s: State, maxTb: nat)
    requires Inv(s, maxTb)
    ensures InStep(s, maxTb)
  {
    forall i | 0 <= i < |s.cpus| && s.cpus[i].status != Idle && s.active != Some(i) ensures LeadOk(s, i, maxTb) {
      assert CpuOk(s, i, maxTb);
      DeltaWithinLead(s, s.cpus[i], maxTb);
    }
  }

  /** A running CPU that goes idle is idle, whatever the rebalancing that follows does to the others. */
  lemma SleeperIsIdle(s: State, i: nat, maxTb: nat)
    requires Inv(s, maxTb) && s.started && i < |s.cpus|
    ensures s.cpus[i].status == Running ==> IdleCpu(s, i).cpus[i].status == Idle && IdleCpu(s, i).cpus[i].delta == 0
  {
    if s.cpus[i].status == Running {
      var g := GoneIdle(s, i);
      GoneIdleNearInv(s, i, maxTb);
      assert g.cpus[i].status == Idle && g.cpus[i].delta == 0;
      if g.active.Some? { RebalancedCpu(g, None, i, maxTb); }
    }
  }

  /** A CPU that ends its quota has nothing in flight afterwards. */
  lemma QuotaClears(s: State, i: nat, maxTb: nat)
    requires Inv(s, maxTb) && s.started && i < |s.cpus|
    ensures s.cpus[i].status == Running ==> s.active.Some? && QuotaEnd(s, i).cpus[i].delta == 0
  {
    if s.cpus[i].status == Running {
      FoldedNearInv(s, i, maxTb);
      RebalancedCpu(Folded(s, i), Some(i), i, maxTb);
    }
  }

  /** What every step gives the one who made it. */
  lemma StepDone(s: State, e: Event, s': State, maxTb: nat)
    requires Inv(s, maxTb) && WaitOk(s) && IsStep(s, e, s', maxTb)
    ensures Inv(s', maxTb) && WaitOk(s') && InStep(s', maxTb)
    ensures QemuNow(s) <= QemuNow(s') && Clock(s) <= Clock(s')
  {
    StepWaits(s, e, maxTb);
    StepGoesForward(s, e, s', maxTb);
    InvGivesStep(s', maxTb);
  }

  /** Time never goes backwards, neither QEMU time nor the clock QEMU reads, watchdog included. */
  lemma {:induction false} TimeNeverGoesBack(run: seq<State>, events: seq<Event>, maxTb: nat, j: nat, k: nat)
    requires IsRun(run, events, maxTb) && j <= k < |run|
    ensures ActiveInRange(run[j]) && ActiveInRange(run[k])
    ensures QemuNow(run[j]) <= QemuNow(run[k])
    ensures Clock(run[j]) <= Clock(run[k])
    decreases k
  {
    RunKeepsInv(run, events, maxTb, k);
    if j < k {
      TimeNeverGoesBack(run, events, maxTb, j, k - 1);
      RunKeepsInv(run, events, maxTb, k - 1);
      assert IsStep(run[k - 1], events[k - 1], run[k - 1 + 1], maxTb);
      StepGoesForward(run[k - 1], events[k - 1], run[k], maxTb);
    }
  }

  /** No watchdog bump happens in the run. */
  ghost predicate BumpFree(run: seq<State>, events: seq<Event>)
    requires |run| == |events| + 1
  {
    forall k :: 0 <= k < |events| ==> ActiveInRange(run[k]) && !(events[k].ETick? && Bumps(run[k]))
  }

  lemma {:induction false} BumpFreeSlowest(run: seq<State>, events: seq<Event>, maxTb: nat, k: nat)
    requires IsRun(run, events, maxTb) && BumpFree(run, events) && k < |run|
    ensures ActiveInRange(run[k]) && SlowestOk(run[k])
    decreases k
  {
    RunKeepsInv(run, events, maxTb, k);
    if k > 0 {
      BumpFreeSlowest(run, events, maxTb, k - 1);
      RunKeepsInv(run, events, maxTb, k - 1);
      assert IsStep(run[k - 1], events[k - 1], run[k - 1 + 1], maxTb);
      StepWaits(run[k - 1], events[k - 1], maxTb);
    }
  }

  /**
   * Exactly which windows let a waiting CPU go on: those that reach QEMU time,
   * provided no CPU is more than a quantum behind.
   */
  lemma WindowResumesIff(s: State, to: real, maxTb: nat)
    requires Inv(s, maxTb) && Waiting(s) && to >= s.quantum
    ensures SlowestTime(s.cpus).Some?
    ensures ReceiveWindow(s, to).cpus[s.active.value].status == Running
            <==> QemuNow(s) <= to && QemuNow(s) <= SlowestTime(s.cpus).value + s.quantum
  {
    forall i | 0 <= i < |s.cpus| ensures s.cpus[i].time >= 0.0 { assert CpuOk(s, i, maxTb); }
    ThresholdPositive(s.(windowTo := to));
    assert s.cpus[s.active.value].status == Paused;
  }

  /** Without bumps a waiting plugin is exactly at its slowest CPU and past its window, and has told SystemC so. */
  lemma WaitingIsSlowest(s: State, maxTb: nat)
    requires Inv(s, maxTb) && WaitOk(s) && SlowestOk(s) && Waiting(s)
    ensures SlowestTime(s.cpus) == Some(QemuNow(s)) && QemuNow(s) > s.windowTo
    ensures s.sent == Bounded(QemuNow(s), QemuNow(s) + s.quantum)
  {
    var a := s.active.value;
    assert CpuOk(s, a, maxTb);
    assert CpuNow(s.cpus[a]) == QemuNow(s);
  }

  /** A window that does not reach QEMU time leaves it waiting, with nothing new for SystemC. */
  lemma UnservedWaits(s: State, to: real, maxTb: nat)
    requires Inv(s, maxTb) && WaitOk(s) && SlowestOk(s) && Waiting(s) && to >= s.quantum && to < QemuNow(s)
    ensures var r := ReceiveWindow(s, to);
      Waiting(r) && r.sent == s.sent && ActiveInRange(r) && QemuNow(r) == QemuNow(s)
  {
    WaitingIsSlowest(s, maxTb);
    WindowResumesIff(s, to, maxTb);
    assert s.cpus[s.active.value].status == Paused;
  }

  /**
   * No wedge. In a run without watchdog bumps, if no CPU is running although one
   * is awake, then the active CPU is the slowest one, QEMU time is strictly past
   * the SystemC window, SystemC has been told exactly that time, any window that
   * reaches QEMU time sets the active CPU running, and so does SystemC's answer
   * once it has swept up to the start of the window it was last told.
   */
  lemma NoWedge(run: seq<State>, events: seq<Event>, maxTb: nat, k: nat)
    requires IsRun(run, events, maxTb) && BumpFree(run, events) && k < |run|
    requires run[k].started && run[k].active.Some?
    ensures ActiveInRange(run[k])
    ensures
      || (exists i :: 0 <= i < |run[k].cpus| && run[k].cpus[i].status == Running)
      || (var s := run[k];
          && ActiveIsSlowest(s)
          && QemuNow(s) > s.windowTo
          && s.sent.from == QemuNow(s)
          && (forall to :: to >= s.quantum ==>
                (ReceiveWindow(s, to).cpus[s.active.value].status == Running <==> QemuNow(s) <= to))
          && ReceiveWindow(s, s.sent.from + s.quantum).cpus[s.active.value].status == Running)
  {
    RunKeepsInv(run, events, maxTb, k);
    BumpFreeSlowest(run, events, maxTb, k);
    var s := run[k];
    if Waiting(s) {
      var a := s.active.value;
      assert CpuOk(s, a, maxTb);
      assert CpuNow(s.cpus[a]) == QemuNow(s);
      assert SlowestTime(s.cpus) == Some(QemuNow(s));
      forall to | to >= s.quantum
        ensures ReceiveWindow(s, to).cpus[a].status == Running <==> QemuNow(s) <= to
      {
        WindowResumesIff(s, to, maxTb);
      }
    }
  }

  /**
   * With watchdog bumps the same can fail: a waiting state is deaf to every
   * window exactly when QEMU time is more than a quantum past the slowest CPU.
   */
  lemma DeafIff(run: seq<State>, events: seq<Event>, maxTb: nat, k: nat)
    requires IsRun(run, events, maxTb) && k < |run| && Waiting(run[k])
    ensures ActiveInRange(run[k]) && SlowestTime(run[k].cpus).Some?
    ensures (forall to :: to >= run[k].quantum ==>
      ReceiveWindow(run[k], to).cpus[run[k].active.value].status != Running)
            <==> QemuNow(run[k]) > SlowestTime(run[k].cpus).value + run[k].quantum
  {
    RunKeepsInv(run, events, maxTb, k);
    var s := run[k];
    var far := if QemuNow(s) > s.quantum then QemuNow(s) else s.quantum;
    forall to | to >= s.quantum
      ensures ReceiveWindow(s, to).cpus[s.active.value].status == Running
              <==> QemuNow(s) <= to && QemuNow(s) <= SlowestTime(s.cpus).value + s.quantum
    {
      WindowResumesIff(s, to, maxTb);
    }
    assert far >= s.quantum;
    WindowResumesIff(s, far, maxTb);
  }
}
