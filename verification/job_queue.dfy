/**
 * Running jobs from any thread on the SystemC thread. Jobs are numbered in the
 * order in which they are accepted. A step is one critical section, one atomic
 * access, or one promise update; the handler and cancel_all both run on the
 * SystemC thread, so they alternate only where the handler waits.
 */
module JobQueueModel {
  import opened Basics

  datatype Promise = Unset | Value | Exception
  datatype Body = NotRun | InProgress | Completed | Threw

  datatype Job = Job(cancelled: bool, promise: Promise, body: Body)

  /** Where the handler thread is. */
  datatype Pc =
    | Idle                       // at the head of its loop, or waiting for the event
    | Popped(job: nat)           // about to call the job object
    | InBody(job: nat)
    | Settling(job: nat)         // about to set the promise
    | Settled(job: nat)          // waiting one delta cycle before releasing the job
    | Stopped

  datatype State = State(
    running: bool, queue: seq<nat>,
    current: Option<nat>,        // running_job
    jobs: seq<Job>, pc: Pc,
    popped: nat,                 // ghost of the queue: jobs 0..popped have been popped
    started: seq<nat>,           // jobs whose body was entered, in order
    ended: bool)                 // end_of_simulation has run

  const NEW_JOB: Job := Job(false, Unset, NotRun)

  const INITIAL: State := State(true, [], None, [], Idle, 0, [], false)

  function Set(p: Promise, v: Promise): Promise { if p == Unset then v else p }

  function Cancelled(j: Job): Job { j.(cancelled := true, promise := Set(j.promise, Value)) }

  function CancelJobs(jobs: seq<Job>, queue: seq<nat>): (r: seq<Job>)
    requires forall k :: 0 <= k < |queue| ==> queue[k] < |jobs|
    ensures |r| == |jobs|
    ensures forall i :: 0 <= i < |jobs| ==>
      r[i] == if i in queue then Cancelled(jobs[i]) else jobs[i]
  {
    seq(|jobs|, i requires 0 <= i < |jobs| => if i in queue then Cancelled(jobs[i]) else jobs[i])
  }

  datatype Event =
    | Submit                     // run_on_sysc from another thread, up to the notification
    | Pop
    | Begin
    | End(threw: bool)
    | Settle
    | Release
    | Leave                      // the handler notices it must stop
    | Stop                       // running := false
    | CancelAll                  // second half of end_of_simulation

  ghost predicate IdsInRange(s: State) {
    && (forall k :: 0 <= k < |s.queue| ==> s.queue[k] < |s.jobs|)
    && (s.current.Some? ==> s.current.value < |s.jobs|)
    && (s.pc.Popped? || s.pc.InBody? || s.pc.Settling? || s.pc.Settled? ==> s.pc.job < |s.jobs|)
  }

  predicate Enabled(s: State, e: Event) {
    match e
    case Submit => true
    case Pop => s.pc == Idle && s.running && s.queue != []
    case Begin => s.pc.Popped?
    case End(_) => s.pc.InBody?
    case Settle => s.pc.Settling?
    case Release => s.pc.Settled?
    case Leave => s.pc == Idle && !s.running
    case Stop => true
    case CancelAll => !s.running && !s.pc.Popped? && !s.pc.Settling?
  }

  function CancelAllJobs(s: State): State
    requires IdsInRange(s)
  {
    var jobs := CancelJobs(s.jobs, s.queue);
    s.(queue := [], current := None, ended := true,
       jobs := if s.current.None? then jobs else jobs[s.current.value := Cancelled(jobs[s.current.value])])
  }

  function Apply(s: State, e: Event): State
    requires IdsInRange(s) && Enabled(s, e)
  {
    match e
    case Submit => if s.running then s.(queue := s.queue + [|s.jobs|], jobs := s.jobs + [NEW_JOB]) else s
    case Pop => s.(current := Some(s.queue[0]), queue := s.queue[1..], pc := Popped(s.queue[0]), popped := s.popped + 1)
    case Begin =>
      var j := s.pc.job;
      if s.jobs[j].cancelled then s.(pc := Settling(j))
      else s.(pc := InBody(j), jobs := s.jobs[j := s.jobs[j].(body := InProgress)], started := s.started + [j])
    case End(threw) =>
      var j := s.pc.job;
      s.(pc := Settling(j), jobs := s.jobs[j := s.jobs[j].(body := if threw then Threw else Completed)])
    case Settle =>
      var j := s.pc.job;
      s.(pc := Settled(j),
         jobs := s.jobs[j := s.jobs[j].(promise :=
           Set(s.jobs[j].promise, if s.jobs[j].body == Threw then Exception else Value))])
    case Release => s.(pc := Idle, current := None)
    case Leave => s.(pc := Stopped)
    case Stop => s.(running := false)
    case CancelAll => CancelAllJobs(s)
  }

  /** May a thread waiting for job i return, and with what? */
  predicate WaiterReturns(s: State, i: nat) requires i < |s.jobs| { s.jobs[i].promise != Unset }
  predicate WaiterResult(s: State, i: nat) requires i < |s.jobs| { s.jobs[i].promise == Value && !s.jobs[i].cancelled }

  ghost predicate IsStep(s: State, e: Event, s': State) { IdsInRange(s) && Enabled(s, e) && s' == Apply(s, e) }

  ghost predicate IsRun(run: seq<State>, events: seq<Event>) {
    && |run| == |events| + 1
    && run[0] == INITIAL
    && forall k :: 0 <= k < |events| ==> IsStep(run[k], events[k], run[k + 1])
  }

  /** The job the handler is working on, if any. */
  ghost function Handled(s: State): Option<nat> {
    if s.pc.Popped? || s.pc.InBody? || s.pc.Settling? || s.pc.Settled? then Some(s.pc.job) else None
  }

  /** The handler has taken job i and is through with it. */
  ghost predicate Done(s: State, i: nat) { i < s.popped && (Handled(s) != Some(i) || s.pc.Settled?) }

  ghost predicate JobOk(s: State, i: nat)
    requires i < |s.jobs|
  {
    var j := s.jobs[i];
    && (Done(s, i) ==> j.body == Completed || j.body == Threw)
    && (!j.cancelled ==> (j.promise == Value <==> Done(s, i) && j.body == Completed))
    && (!j.cancelled ==> (j.promise == Exception <==> Done(s, i) && j.body == Threw))
    && (j.promise == Exception ==> j.body == Threw)
    && (j.cancelled ==> s.ended && j.promise != Unset)
    && (j.body == InProgress ==> s.pc == InBody(i))
    && (j.body != NotRun <==> i in s.started)
    && (i >= s.popped ==> j.body == NotRun && (j == NEW_JOB || s.ended))
    && (i < s.popped && j.promise == Unset ==> s.current == Some(i) && Handled(s) == Some(i) && !s.pc.Settled?)
    && (s.ended ==> j.promise != Unset)
  }

  ghost predicate QueueOk(s: State) {
    && s.popped <= |s.jobs|
    && (if s.ended then s.queue == [] && s.current == None && !s.running
        else |s.queue| == |s.jobs| - s.popped && forall k :: 0 <= k < |s.queue| ==> s.queue[k] == s.popped + k)
  }

  ghost predicate HandlerOk(s: State)
    requires IdsInRange(s)
  {
    && (Handled(s).Some? ==> Handled(s).value < s.popped && (s.ended || s.current == Handled(s)))
    && (Handled(s).None? ==> s.current == None)
    && (s.pc.Popped? ==> Handled(s).value !in s.started && !s.ended)
    && (s.pc.InBody? ==> s.jobs[s.pc.job].body == InProgress)
    && (s.pc.Settling? ==> s.jobs[s.pc.job].body == Completed || s.jobs[s.pc.job].body == Threw)
    && (s.pc.Settled? ==> s.jobs[s.pc.job].promise != Unset)
    && (Handled(s).Some? ==> Handled(s).value == s.popped - 1)
    && |s.started| == s.popped - (if s.pc.Popped? then 1 else 0)
    && forall k :: 0 <= k < |s.started| ==> s.started[k] == k
  }

  ghost predicate Inv(s: State) {
    && IdsInRange(s)
    && QueueOk(s)
    && HandlerOk(s)
    && forall i :: 0 <= i < |s.jobs| ==> JobOk(s, i)
  }

  lemma SubmitKeepsInv(s: State)
    requires Inv(s)
    ensures Inv(Apply(s, Submit))
  {
    var r := Apply(s, Submit);
    forall i | 0 <= i < |r.jobs| ensures JobOk(r, i) { if i < |s.jobs| { assert JobOk(s, i); } }
  }

  lemma PopKeepsInv(s: State)
    requires Inv(s) && Enabled(s, Pop)
    ensures Inv(Apply(s, Pop))
  {
    var r := Apply(s, Pop);
    assert s.queue[0] == s.popped;
    assert JobOk(s, s.popped);
    forall i | 0 <= i < |r.jobs| ensures JobOk(r, i) { assert JobOk(s, i); }
  }

  lemma BeginKeepsInv(s: State)
    requires Inv(s) && Enabled(s, Begin)
    ensures Inv(Apply(s, Begin))
  {
    var r := Apply(s, Begin);
    var j := s.pc.job;
    assert JobOk(s, j);
    forall i | 0 <= i < |r.jobs| ensures JobOk(r, i) { assert JobOk(s, i); }
  }

  lemma EndKeepsInv(s: State, threw: bool)
    requires Inv(s) && Enabled(s, End(threw))
    ensures Inv(Apply(s, End(threw)))
  {
    var r := Apply(s, End(threw));
    assert JobOk(s, s.pc.job);
    forall i | 0 <= i < |r.jobs| ensures JobOk(r, i) { assert JobOk(s, i); }
  }

  lemma SettleKeepsInv(s: State)
    requires Inv(s) && Enabled(s, Settle)
    ensures Inv(Apply(s, Settle))
  {
    var r := Apply(s, Settle);
    assert JobOk(s, s.pc.job);
    forall i | 0 <= i < |r.jobs| ensures JobOk(r, i) { assert JobOk(s, i); }
  }

  lemma CancelAllKeepsInv(s: State)
    requires Inv(s) && Enabled(s, CancelAll)
    ensures Inv(Apply(s, CancelAll))
  {
    var r := Apply(s, CancelAll);
    forall i | 0 <= i < |r.jobs| ensures JobOk(r, i) {
      assert JobOk(s, i);
      if !s.ended && i >= s.popped { assert s.queue[i - s.popped] == i; }
    }
  }

  lemma OtherKeepsInv(s: State, e: Event)
    requires Inv(s) && Enabled(s, e) && (e.Release? || e.Leave? || e.Stop?)
    ensures Inv(Apply(s, e))
  {
    var r := Apply(s, e);
    forall i | 0 <= i < |r.jobs| ensures JobOk(r, i) { assert JobOk(s, i); }
  }

  lemma StepKeepsInv(s: State, e: Event)
    requires Inv(s) && Enabled(s, e)
    ensures Inv(Apply(s, e))
  {
    match e
    case Submit => SubmitKeepsInv(s);
    case Pop => PopKeepsInv(s);
    case Begin => BeginKeepsInv(s);
    case End(threw) => EndKeepsInv(s, threw);
    case Settle => SettleKeepsInv(s);
    case CancelAll => CancelAllKeepsInv(s);
    case _ => OtherKeepsInv(s, e);
  }

  lemma {:induction false} RunKeepsInv(run: seq<State>, events: seq<Event>, k: nat)
    requires IsRun(run, events) && k < |run|
    ensures Inv(run[k])
    decreases k
  {
    if k > 0 {
      RunKeepsInv(run, events, k - 1);
      assert IsStep(run[k - 1], events[k - 1], run[k - 1 + 1]);
      StepKeepsInv(run[k - 1], events[k - 1]);
    }
  }

  /**
   * Jobs start in the order in which they were accepted, each exactly once, and
   * none is left out: those begun are the first ones, all that were taken.
   */
  lemma FifoOnce(run: seq<State>, events: seq<Event>, k: nat)
    requires IsRun(run, events) && k < |run|
    ensures var s := run[k];
      && |s.started| == s.popped - (if s.pc.Popped? then 1 else 0)
      && (forall i :: 0 <= i < |s.started| ==> s.started[i] == i)
      && (forall i :: 0 <= i < |s.jobs| ==> (s.jobs[i].body != NotRun <==> i < |s.started|))
      && (!s.ended ==>
            s.popped + |s.queue| == |s.jobs| && forall q :: 0 <= q < |s.queue| ==> s.queue[q] == s.popped + q)
  {
    RunKeepsInv(run, events, k);
    forall i | 0 <= i < |run[k].jobs| ensures run[k].jobs[i].body != NotRun <==> i < |run[k].started| {
      assert JobOk(run[k], i);
    }
  }

  lemma StepCancelsNothing(s: State, e: Event, s': State, i: nat)
    requires IsStep(s, e, s') && e != CancelAll && i < |s'.jobs| && s'.jobs[i].cancelled
    ensures i < |s.jobs| && s.jobs[i].cancelled
  {
  }

  /** A job is cancelled only once end_of_simulation has cancelled everything. */
  lemma {:induction false} CancelledOnlyAtEnd(run: seq<State>, events: seq<Event>, k: nat, i: nat) returns (j: nat)
    requires IsRun(run, events) && k < |run| && i < |run[k].jobs| && run[k].jobs[i].cancelled
    ensures j < k && events[j] == CancelAll
    decreases k
  {
    if k > 0 {
      assert IsStep(run[k - 1], events[k - 1], run[k - 1 + 1]);
      if events[k - 1] == CancelAll { return k - 1; }
      StepCancelsNothing(run[k - 1], events[k - 1], run[k], i);
      j := CancelledOnlyAtEnd(run, events, k - 1, i);
    }
  }

  /**
   * What a waiting call gets. A job the handler is through with has run its body
   * to the end. A waiter whose job was not cancelled is released exactly when the
   * handler is through with it, with true if the body completed and with the
   * exception if it threw. Before the end of simulation no job is cancelled.
   */
  lemma WaiterGetsResult(run: seq<State>, events: seq<Event>, k: nat, i: nat)
    requires IsRun(run, events) && k < |run| && i < |run[k].jobs|
    ensures var s := run[k];
      && (Done(s, i) ==> s.jobs[i].body == Completed || s.jobs[i].body == Threw)
      && (WaiterReturns(s, i) && WaiterResult(s, i) ==> s.jobs[i].body == Completed)
      && (!s.jobs[i].cancelled ==>
            && (WaiterReturns(s, i) <==> Done(s, i))
            && (WaiterReturns(s, i) ==> (WaiterResult(s, i) <==> s.jobs[i].body == Completed))
            && (s.jobs[i].promise == Exception <==> Done(s, i) && s.jobs[i].body == Threw))
      && (!s.ended ==> !s.jobs[i].cancelled)
  {
    RunKeepsInv(run, events, k);
    assert JobOk(run[k], i);
  }

  // ---- Every accepted job is run --------------------------------------------------------

  /** Events of the handler thread. */
  predicate OfHandler(e: Event) { e.Pop? || e.Begin? || e.End? || e.Settle? || e.Release? }

  /** The handler's next event, with job bodies that complete. */
  function Next(s: State): Event {
    match s.pc
    case Popped(_) => Begin
    case InBody(_) => End(false)
    case Settling(_) => Settle
    case Settled(_) => Release
    case _ => Pop
  }

  /** Handler events until it is through with job i. */
  function Remaining(s: State, i: nat): nat
    requires i >= s.popped || Handled(s) == Some(i)
  {
    (if i >= s.popped then 5 * (i + 1 - s.popped) else 0)
      + (match s.pc case Popped(_) => 4 case InBody(_) => 3 case Settling(_) => 2 case Settled(_) => 1 case _ => 0)
  }

  /**
   * Every accepted job gets its turn: while the queue is running, events of the
   * handler alone lead from every reachable state to one in which the job has
   * been run and its waiter released with true, unless its body already threw.
   */
  lemma {:induction false} EveryJobRuns(run: seq<State>, events: seq<Event>, i: nat)
    returns (run': seq<State>, events': seq<Event>)
    requires IsRun(run, events) && run[|run| - 1].running && run[|run| - 1].pc != Stopped
    requires !run[|run| - 1].ended && i < |run[|run| - 1].jobs|
    ensures IsRun(run', events') && run <= run' && events <= events'
    ensures forall k :: |events| <= k < |events'| ==> OfHandler(events'[k])
    ensures var s := run'[|run'| - 1];
      i < |s.jobs| && WaiterReturns(s, i) && (WaiterResult(s, i) || s.jobs[i].body == Threw)
    decreases var s := run[|run| - 1]; if Done(s, i) then 0 else 1 + Remaining(s, i)
  {
    var s := run[|run| - 1];
    RunKeepsInv(run, events, |run| - 1);
    assert JobOk(s, i);
    run', events' := run, events;
    if !Done(s, i) {
      var e := Next(s);
      var r := Apply(s, e);
      Extended(run, events, e);
      run', events' := run + [r], events + [e];
      run', events' := EveryJobRuns(run', events', i);
    }
  }

  lemma Extended(run: seq<State>, events: seq<Event>, e: Event)
    requires IsRun(run, events) && IdsInRange(run[|run| - 1]) && Enabled(run[|run| - 1], e)
    ensures IsRun(run + [Apply(run[|run| - 1], e)], events + [e])
  {
    var run', events' := run + [Apply(run[|run| - 1], e)], events + [e];
    forall k | 0 <= k < |events'|
      ensures IsStep(run'[k], events'[k], run'[k + 1])
    {
      if k < |events| { assert IsStep(run[k], events[k], run[k + 1]); }
    }
  }

  lemma {:induction false} EndedForever(run: seq<State>, events: seq<Event>, j: nat, k: nat)
    requires IsRun(run, events) && j <= k < |run| && run[j].ended
    ensures run[k].ended
    decreases k
  {
    if j < k {
      EndedForever(run, events, j, k - 1);
      assert IsStep(run[k - 1], events[k - 1], run[k - 1 + 1]);
    }
  }

  /** Wherever the handler waits, end_of_simulation can do its work: it stops the queue and cancels everything. */
  lemma EndOfSimulation(run: seq<State>, events: seq<Event>) returns (run': seq<State>, events': seq<Event>)
    requires IsRun(run, events) && !run[|run| - 1].pc.Popped? && !run[|run| - 1].pc.Settling?
    ensures IsRun(run', events') && run <= run' && events' == events + [Stop, CancelAll]
    ensures var s := run'[|run'| - 1]; s.ended && !s.running && s.queue == [] && s.pc == run[|run| - 1].pc
  {
    RunKeepsInv(run, events, |run| - 1);
    var s := run[|run| - 1];
    Extended(run, events, Stop);
    var mid, stopped := run + [Apply(s, Stop)], Apply(s, Stop);
    RunKeepsInv(mid, events + [Stop], |mid| - 1);
    Extended(mid, events + [Stop], CancelAll);
    run', events' := mid + [Apply(stopped, CancelAll)], events + [Stop] + [CancelAll];
  }

  /**
   * From the end of end_of_simulation on, the queue is empty, no thread waiting
   * for an accepted job is blocked, and no further job is accepted.
   */
  lemma NobodyLeftWaiting(run: seq<State>, events: seq<Event>, j: nat, k: nat)
    requires IsRun(run, events) && j < k < |run| && events[j] == CancelAll
    ensures run[k].queue == [] && !run[k].running
    ensures forall i :: 0 <= i < |run[k].jobs| ==> WaiterReturns(run[k], i)
    ensures k < |events| ==> |run[k + 1].jobs| == |run[k].jobs|
  {
    assert IsStep(run[j], events[j], run[j + 1]);
    EndedForever(run, events, j + 1, k);
    RunKeepsInv(run, events, k);
    forall i | 0 <= i < |run[k].jobs| ensures WaiterReturns(run[k], i) { assert JobOk(run[k], i); }
    if k < |events| { assert IsStep(run[k], events[k], run[k + 1]); }
  }
}

/** The lock-protected parts of runonsysc. */
module RunOnSysc {
  import opened Basics
  import M = JobQueueModel

  class Core {
    var running: bool
    var queue: seq<nat>
    var current: Option<nat>
    var jobs: seq<M.Job>
    ghost var pc: M.Pc
    ghost var popped: nat
    ghost var started: seq<nat>
    ghost var ended: bool

    ghost function View(): M.State
      reads this
    {
      M.State(running, queue, current, jobs, pc, popped, started, ended)
    }

    ghost predicate Valid()
      reads this
    {
      M.Inv(View())
    }

    constructor ()
      ensures Valid() && View() == M.INITIAL
    {
      running, queue, current, jobs := true, [], None, [];
      pc, popped, started, ended := M.Idle, 0, [], false;
    }

    /**
     * run_on_sysc up to the point where it waits; `accepted` is the job to wait
     * for, accepted exactly while running, behind every job accepted before.
     */
    method Push() returns (accepted: Option<nat>)
      requires Valid()
      modifies this`queue, this`jobs
      ensures Valid() && View() == M.Apply(old(View()), M.Submit)
      ensures accepted.Some? <==> running
      ensures accepted.Some? ==>
        queue == old(queue) + [accepted.value] && forall j :: j in old(queue) ==> j < accepted.value
    {
      M.StepKeepsInv(View(), M.Submit);
      if !running { return None; }
      accepted := Some(|jobs|);
      queue := queue + [|jobs|];
      jobs := jobs + [M.NEW_JOB];
    }

    /** The handler takes the oldest job; it has never run, and everything that has run is older. */
    method PopFront() returns (job: nat)
      requires Valid() && M.Enabled(View(), M.Pop)
      modifies this`queue, this`current, this`pc, this`popped
      ensures Valid() && View() == M.Apply(old(View()), M.Pop)
      ensures old(queue) == [job] + queue && jobs[job].body == M.NotRun
      ensures (forall j :: j in queue ==> job < j) && forall j :: j in started ==> j < job
    {
      M.StepKeepsInv(View(), M.Pop);
      job := queue[0];
      current := Some(job);
      queue := queue[1..];
      pc, popped := M.Popped(job), popped + 1;
      assert M.JobOk(View(), job);
    }

    /** Afterwards the queue is empty and nobody waits for an accepted job. */
    method CancelAll()
      requires Valid() && M.Enabled(View(), M.CancelAll)
      modifies this`queue, this`current, this`jobs, this`ended
      ensures Valid() && View() == M.Apply(old(View()), M.CancelAll)
      ensures queue == [] && forall i :: 0 <= i < |jobs| ==> jobs[i].promise != M.Unset
    {
      M.StepKeepsInv(View(), M.CancelAll);
      DropAll();
      forall i | 0 <= i < |jobs| ensures jobs[i].promise != M.Unset { assert M.JobOk(View(), i); }
    }

    method DropAll()
      requires M.IdsInRange(View()) && M.Enabled(View(), M.CancelAll)
      modifies this`queue, this`current, this`jobs, this`ended
      ensures View() == M.Apply(old(View()), M.CancelAll)
    {
      ghost var n := 0;
      while queue != []
        invariant n <= |old(queue)| && queue == old(queue)[n..]
        invariant current == old(current) && |jobs| == |old(jobs)|
        invariant jobs == M.CancelJobs(old(jobs), old(queue)[..n])
        decreases |queue|
      {
        var front := queue[0];
        CancelOneMore(old(jobs), old(queue), n);
        jobs := jobs[front := M.Cancelled(jobs[front])];
        queue := queue[1..];
        n := n + 1;
      }
      assert old(queue)[..n] == old(queue);
      if current.Some? {
        jobs := jobs[current.value := M.Cancelled(jobs[current.value])];
        current := None;
      }
      ended := true;
    }
  }

  lemma CancelOneMore(jobs: seq<M.Job>, queue: seq<nat>, n: nat)
    requires n < |queue| && forall k :: 0 <= k < |queue| ==> queue[k] < |jobs|
    ensures var r := M.CancelJobs(jobs, queue[..n]);
      M.CancelJobs(jobs, queue[..n + 1]) == r[queue[n] := M.Cancelled(r[queue[n]])]
  {
    assert queue[..n + 1] == queue[..n] + [queue[n]];
  }
}
