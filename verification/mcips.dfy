/**
 * Multi-CPU instructions-per-second time control: the vCPUs of one QEMU
 * instance share one QEMU time, driven by an elected "active" vCPU and kept
 * inside a window agreed with SystemC.
 *
 * Time is exact (`real` seconds). Every callback is one atomic step, since each
 * runs under one mutex.
 */
module McipsModel {
  import opened Basics

  datatype Status = Idle | Paused | Running

  datatype VCpu = VCpu(ips: nat, delta: nat, time: real, status: Status)

  /** A synchronisation window; `OpenEnded` ends at the largest SystemC time. */
  datatype Window = Bounded(from: real, to: real) | OpenEnded(from: real)

  datatype State = State(
    quantum: real, cpus: seq<VCpu>,
    active: Option<nat>, qemuTime: real,        // QEMU time without the active CPU's in-flight instructions
    qemuTimeNs: int,       // nanosecond shadow of qemuTime
    windowTo: real,        // end of the last window received from SystemC
    attached: bool,        // is the SystemC window attached?
    sent: Window,          // last window handed to SystemC
    scNow: real,           // SystemC time
    lastTick: real,        // QEMU time seen by the previous watchdog tick
    started: bool)         // have all vcpu_init calls been made?

  const NS_PER_SEC: real := 1000000000.0
  const DEFAULT_IPS: nat := 1000000000

  function ToNs(t: real): int { (t * NS_PER_SEC).Floor }

  /** Instruction count at which the quota callback fires; a quantum below one nanosecond acts as 1. */
  function Quota(quantum: real): (q: nat)
    requires quantum > 0.0
    ensures q >= 1
  {
    if ToNs(quantum) < 1 then 1 else ToNs(quantum)
  }

  // The source divides by a rate that vcpu_init makes positive; StateInvariant
  // shows that an awake CPU never reaches the other branch.
  function DeltaTime(c: VCpu): (t: real)
    ensures t >= 0.0 && (c.delta == 0 ==> t == 0.0)
  {
    if c.ips == 0 then 0.0 else c.delta as real / c.ips as real
  }

  function CpuNow(c: VCpu): real {
    if c.status == Idle then c.time else c.time + DeltaTime(c)
  }

  ghost predicate ActiveInRange(s: State) { s.active.Some? ==> s.active.value < |s.cpus| }

  function QemuNow(s: State): real
    requires ActiveInRange(s)
  {
    if s.active.None? then s.qemuTime else s.qemuTime + DeltaTime(s.cpus[s.active.value])
  }

  /** Least current time over the CPUs that are not idle. */
  function SlowestTime(cpus: seq<VCpu>): (r: Option<real>)
    ensures r.None? <==> forall i :: 0 <= i < |cpus| ==> cpus[i].status == Idle
    ensures r.Some? ==> forall i :: 0 <= i < |cpus| && cpus[i].status != Idle ==> r.value <= CpuNow(cpus[i])
    ensures r.Some? ==> exists i :: 0 <= i < |cpus| && cpus[i].status != Idle && CpuNow(cpus[i]) == r.value
  {
    if cpus == [] then None
    else
      var c := cpus[|cpus| - 1];
      var r := SlowestTime(cpus[..|cpus| - 1]);
      assert forall i :: 0 <= i < |cpus| - 1 ==> cpus[..|cpus| - 1][i] == cpus[i];
      if c.status == Idle then r
      else if r.None? || CpuNow(c) < r.value then Some(CpuNow(c))
      else r
  }

  /** First CPU that is not idle. */
  function FirstNonIdle(cpus: seq<VCpu>): (r: Option<nat>)
    ensures r.None? <==> forall i :: 0 <= i < |cpus| ==> cpus[i].status == Idle
    ensures r.Some? ==> r.value < |cpus| && cpus[r.value].status != Idle
    ensures r.Some? ==> forall i :: 0 <= i < r.value ==> cpus[i].status == Idle
  {
    if cpus == [] then None
    else
      var r := FirstNonIdle(cpus[..|cpus| - 1]);
      assert forall i :: 0 <= i < |cpus| - 1 ==> cpus[..|cpus| - 1][i] == cpus[i];
      if r.Some? then r
      else if cpus[|cpus| - 1].status != Idle then Some(|cpus| - 1)
      else None
  }

  function Threshold(s: State): real {
    match SlowestTime(s.cpus)
    case None => 0.0
    case Some(t) => Min(s.windowTo, t + s.quantum)
  }

  /** May CPU i run, given the QEMU time and the threshold? */
  predicate MayRun(c: VCpu, isActive: bool, now: real, threshold: real) {
    if isActive then now <= threshold else CpuNow(c) <= now
  }

  function PauseIfAhead(cpus: seq<VCpu>, i: nat, active: nat, now: real, threshold: real): seq<VCpu>
    requires i < |cpus|
  {
    if cpus[i].status == Running && !MayRun(cpus[i], i == active, now, threshold)
    then cpus[i := cpus[i].(status := Paused)]
    else cpus
  }

  function Resumed(c: VCpu, isActive: bool, now: real, threshold: real): VCpu {
    if c.status == Paused && MayRun(c, isActive, now, threshold) then c.(status := Running) else c
  }

  function ResumeIfBehind(cpus: seq<VCpu>, active: nat, now: real, threshold: real): (r: seq<VCpu>)
    ensures |r| == |cpus|
    ensures forall i :: 0 <= i < |cpus| ==> r[i] == Resumed(cpus[i], i == active, now, threshold)
  {
    seq(|cpus|, i requires 0 <= i < |cpus| => Resumed(cpus[i], i == active, now, threshold))
  }

  function Detached(s: State): State {
    if s.attached then s.(attached := false, sent := OpenEnded(s.qemuTime)) else s
  }

  function WindowSent(s: State): State
    requires ActiveInRange(s)
  {
    if s.attached then s.(sent := Bounded(QemuNow(s), QemuNow(s) + s.quantum)) else s
  }

  function Rebalance(s: State, who: Option<nat>): (r: State)
    requires ActiveInRange(s)
    requires who.Some? ==> who.value < |s.cpus|
    ensures ActiveInRange(r)
  {
    if s.active.None? then Detached(s)
    else
      var a := s.active.value;
      var threshold := Threshold(s);
      if threshold == 0.0 then s
      else
        var now := QemuNow(s);
        var cpus := if who.Some? then PauseIfAhead(s.cpus, who.value, a, now, threshold) else s.cpus;
        WindowSent(s.(cpus := ResumeIfBehind(cpus, a, now, threshold)))
  }

  // ---- The steps -------------------------------------------------------------

  function InitCpu(s: State, i: nat): State
    requires i < |s.cpus|
  {
    var c := s.cpus[i];
    s.(cpus := s.cpus[i := VCpu(if c.ips == 0 then DEFAULT_IPS else c.ips, 0, 0.0, Running)],
       active := if s.active.None? then Some(i) else s.active)
  }

  function Exec(s: State, i: nat, insns: nat): State
    requires i < |s.cpus|
  {
    s.(cpus := s.cpus[i := s.cpus[i].(delta := s.cpus[i].delta + insns)])
  }

  /** The CPU's in-flight time is folded into its base time, and into QEMU time if it is the active CPU. */
  function Folded(s: State, i: nat): State
    requires i < |s.cpus|
  {
    var c := s.cpus[i];
    var d := DeltaTime(c);
    var t := if s.active == Some(i) then s.qemuTime + d else s.qemuTime;
    s.(cpus := s.cpus[i := c.(time := c.time + d, delta := 0)],
       qemuTime := t,
       qemuTimeNs := if s.active == Some(i) then ToNs(t) else s.qemuTimeNs)
  }

  function QuotaEnd(s: State, i: nat): State
    requires ActiveInRange(s) && i < |s.cpus|
  {
    if s.cpus[i].status != Running then s else Rebalance(Folded(s, i), Some(i))
  }

  /** CPU i, which was the active one, is now idle: hand QEMU time to the first CPU that is not. */
  function HandOver(s: State): (r: State)
    ensures ActiveInRange(r)
  {
    match FirstNonIdle(s.cpus)
    case None => Detached(s.(active := None))
    case Some(k) =>
      s.(active := Some(k), cpus := s.cpus[k := s.cpus[k].(time := s.qemuTime, delta := 0, status := Running)])
  }

  /** CPU i stops being RUNNING; only an active CPU's in-flight time is accounted for. */
  function Parked(s: State, i: nat): State
    requires i < |s.cpus|
  {
    if s.active == Some(i)
    then var f := Folded(s, i); f.(cpus := f.cpus[i := f.cpus[i].(status := Idle)])
    else s.(cpus := s.cpus[i := s.cpus[i].(status := Idle, delta := 0)])
  }

  function IdleCpu(s: State, i: nat): State
    requires ActiveInRange(s) && i < |s.cpus|
  {
    if s.cpus[i].status != Running then s
    else
      var p := Parked(s, i);
      Rebalance(if s.active == Some(i) then HandOver(p) else p, None)
  }

  function ResumeCpu(s: State, i: nat): State
    requires ActiveInRange(s) && i < |s.cpus|
  {
    var c := s.cpus[i];
    match c.status
    case Running => s
    case Paused =>
      var threshold := Threshold(s);
      if threshold != 0.0 && MayRun(c, s.active == Some(i), QemuNow(s), threshold)
      then s.(cpus := s.cpus[i := c.(status := Running)])
      else s
    case Idle =>
      if s.active.Some? then s.(cpus := s.cpus[i := c.(status := Running, time := QemuNow(s))])
      else
        var t := if s.scNow > s.qemuTime then s.scNow else s.qemuTime;
        WindowSent(s.(cpus := s.cpus[i := c.(status := Running, time := t)],
                      qemuTime := t,
                      qemuTimeNs := if s.scNow > s.qemuTime then ToNs(t) else s.qemuTimeNs,
                      active := Some(i),
                      attached := true))
  }

  function ReceiveWindow(s: State, to: real): State
    requires ActiveInRange(s)
  {
    var w := s.(windowTo := to);
    if s.active.None? then Rebalance(w, None)
    else
      var a := s.active.value;
      var threshold := Threshold(w);
      if s.cpus[a].status == Paused && threshold != 0.0 && QemuNow(w) <= threshold
      then WindowSent(w.(cpus := s.cpus[a := s.cpus[a].(status := Running)]))
      else WindowSent(w)
  }

  predicate Bumps(s: State)
    requires ActiveInRange(s)
  {
    s.active.Some? && QemuNow(s) == s.lastTick && s.quantum > 0.0
  }

  function Tick(s: State): State
    requires ActiveInRange(s)
  {
    if s.active.None? then s
    else
      var a := s.active.value;
      var now := QemuNow(s);
      if Bumps(s)
      then
        var t := s.qemuTime + s.quantum;
        WindowSent(s.(qemuTime := t, qemuTimeNs := ToNs(t), lastTick := now,
                      cpus := s.cpus[a := s.cpus[a].(time := s.cpus[a].time + s.quantum)]))
      else s.(lastTick := now)
  }

  /** The nanosecond clock QEMU reads. */
  function Clock(s: State): int
    requires ActiveInRange(s)
  {
    if s.active.Some? then s.qemuTimeNs + ToNs(DeltaTime(s.cpus[s.active.value]))
    else if s.qemuTimeNs > 0 && ToNs(s.scNow) > s.qemuTimeNs then ToNs(s.scNow)
    else s.qemuTimeNs
  }

  // ---- Runs ------------------------------------------------------------------

  datatype Event =
    | EInit(i: nat)
    | EStart
    | EExec(i: nat, insns: nat)
    | EQuotaEnd(i: nat)
    | EIdle(i: nat)
    | EResume(i: nat)
    | EWindow(to: real)
    | ETick
    | EScTime(t: real)

  /**
   * What the environment may do: initialise every CPU before anything else, run
   * only CPUs that are RUNNING and below their quota, in blocks of at most
   * maxTb instructions, and let SystemC time grow.
   */
  predicate Enabled(s: State, e: Event, maxTb: nat)
    requires s.quantum > 0.0
  {
    match e
    case EInit(i) => !s.started && i < |s.cpus|
    case EStart => !s.started && s.active.Some?
    case EExec(i, n) =>
      s.started && i < |s.cpus| && s.cpus[i].status == Running && s.cpus[i].delta < Quota(s.quantum) && n <= maxTb
    case EQuotaEnd(i) => s.started && i < |s.cpus|
    case EIdle(i) => s.started && i < |s.cpus|
    case EResume(i) => s.started && i < |s.cpus| && s.cpus[i].ips > 0
    case EWindow(to) => s.started && to >= s.quantum
    case ETick => s.started
    case EScTime(t) => t >= s.scNow
  }

  function Apply(s: State, e: Event, maxTb: nat): State
    requires s.quantum > 0.0 && ActiveInRange(s) && Enabled(s, e, maxTb)
  {
    match e
    case EInit(i) => InitCpu(s, i)
    case EStart => s.(started := true)
    case EExec(i, n) => Exec(s, i, n)
    case EQuotaEnd(i) => QuotaEnd(s, i)
    case EIdle(i) => IdleCpu(s, i)
    case EResume(i) => ResumeCpu(s, i)
    case EWindow(to) => ReceiveWindow(s, to)
    case ETick => Tick(s)
    case EScTime(t) => s.(scNow := t)
  }

  /** State after end_of_elaboration: every scoreboard entry is zero except, perhaps, its rate. */
  ghost predicate Initial(s: State) {
    && s.quantum > 0.0
    && (forall i :: 0 <= i < |s.cpus| ==> s.cpus[i].status == Idle && s.cpus[i].delta == 0 && s.cpus[i].time == 0.0)
    && s.active == None
    && s.qemuTime == 0.0 && s.qemuTimeNs == 0
    && s.windowTo == s.quantum
    && s.attached
    && s.sent == Bounded(0.0, s.quantum)
    && s.scNow >= 0.0
    && s.lastTick == 0.0
    && !s.started
  }

  ghost predicate IsStep(s: State, e: Event, s': State, maxTb: nat) {
    s.quantum > 0.0 && ActiveInRange(s) && Enabled(s, e, maxTb) && s' == Apply(s, e, maxTb)
  }

  /** A finite run: run[k + 1] follows run[k] by events[k]. */
  ghost predicate IsRun(run: seq<State>, events: seq<Event>, maxTb: nat) {
    && |run| == |events| + 1
    && Initial(run[0])
    && forall k :: 0 <= k < |events| ==> IsStep(run[k], events[k], run[k + 1], maxTb)
  }
}
