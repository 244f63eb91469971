/**
 * Shutdown handshake between QEMU threads entering plugin callbacks and the
 * thread tearing the plugin down. Any number of threads; every atomic load,
 * exchange or counter update is one step, in any interleaving.
 */
module PluginShutdown {

  type Thread = nat

  datatype Pc =
    | Outside
    | Admitted     // saw alive, has not counted itself yet
    | Counted      // counted, has not looked again yet
    | InBody       // running the callback on the plugin object
    | Leaving      // about to uncount itself
    | Draining     // flipped alive and waits for the count to reach zero

  /** Handle shared by all threads; a thread not in `pcs` is outside. */
  datatype State = State(alive: bool, refcount: int, pcs: map<Thread, Pc>, returned: bool) {
    function At(t: Thread): Pc { if t in pcs then pcs[t] else Outside }
    function To(t: Thread, pc: Pc): State { this.(pcs := pcs[t := pc]) }
  }

  datatype Event =
    | FirstLoad(t: Thread) | Count(t: Thread) | SecondLoad(t: Thread) | BodyEnds(t: Thread) | Uncount(t: Thread)
    | Exchange(t: Thread) | Poll(t: Thread)

  predicate Enabled(s: State, e: Event) {
    s.At(e.t) == match e
                 case FirstLoad(_) => Outside
                 case Count(_) => Admitted
                 case SecondLoad(_) => Counted
                 case BodyEnds(_) => InBody
                 case Uncount(_) => Leaving
                 case Exchange(_) => Outside
                 case Poll(_) => Draining
  }

  /** `returned` becomes true when the shutdown call that flipped `alive` returns. */
  function Apply(s: State, e: Event): State {
    match e
    case FirstLoad(t) => if s.alive then s.To(t, Admitted) else s
    case Count(t) => s.To(t, Counted).(refcount := s.refcount + 1)
    case SecondLoad(t) => s.To(t, if s.alive then InBody else Leaving)
    case BodyEnds(t) => s.To(t, Leaving)
    case Uncount(t) => s.To(t, Outside).(refcount := s.refcount - 1)
    case Exchange(t) => if s.alive then s.To(t, Draining).(alive := false) else s
    case Poll(t) => if s.refcount > 0 then s else s.To(t, Outside).(returned := true)
  }

  const FRESH: State := State(true, 0, map[], false)

  ghost predicate IsRun(run: seq<State>, events: seq<Event>) {
    && |run| == |events| + 1
    && run[0] == FRESH
    && forall k :: 0 <= k < |events| ==> Enabled(run[k], events[k]) && run[k + 1] == Apply(run[k], events[k])
  }

  /** Between the increment and the decrement. */
  predicate Flying(pc: Pc) { pc == Counted || pc == InBody || pc == Leaving }

  ghost function InFlight(s: State): set<Thread> { set t | t in s.pcs && Flying(s.pcs[t]) }

  ghost predicate Inv(s: State) {
    && s.refcount == |InFlight(s)|
    && (s.returned ==> !s.alive && forall t :: s.At(t) != InBody)
    && (forall t :: s.At(t) == Draining ==> !s.alive)
  }

  lemma FlightAfter(s: State, t: Thread, pc: Pc)
    ensures InFlight(s.To(t, pc)) == if Flying(pc) then InFlight(s) + {t} else InFlight(s) - {t}
    ensures t in InFlight(s) <==> Flying(s.At(t))
  {
  }

  /** The counter stays the number of threads in flight. */
  lemma StepCounts(s: State, e: Event)
    requires s.refcount == |InFlight(s)| && Enabled(s, e)
    ensures Apply(s, e).refcount == |InFlight(Apply(s, e))|
  {
    var r, t := Apply(s, e), e.t;
    FlightAfter(s, t, r.At(t));
    assert InFlight(r) == InFlight(s.To(t, r.At(t)));
    if Flying(s.At(t)) && Flying(r.At(t)) { assert InFlight(s) + {t} == InFlight(s); }
    if !Flying(s.At(t)) && !Flying(r.At(t)) { assert InFlight(s) - {t} == InFlight(s); }
  }

  lemma StepKeepsInv(s: State, e: Event)
    requires Inv(s) && Enabled(s, e)
    ensures Inv(Apply(s, e))
  {
    StepCounts(s, e);
    var r := Apply(s, e);
    assert forall u :: u != e.t ==> r.At(u) == s.At(u);
    if e.Poll? && s.refcount <= 0 {
      forall u ensures r.At(u) != InBody { FlightAfter(s, u, Outside); }
    }
  }

  lemma {:induction false} RunKeepsInv(run: seq<State>, events: seq<Event>, k: nat)
    requires IsRun(run, events) && k < |run|
    ensures Inv(run[k])
    decreases k
  {
    if k > 0 {
      RunKeepsInv(run, events, k - 1);
      assert Enabled(run[k - 1], events[k - 1]) && run[k - 1 + 1] == Apply(run[k - 1], events[k - 1]);
      StepKeepsInv(run[k - 1], events[k - 1]);
    }
  }

  lemma {:induction false} ReturnedForever(run: seq<State>, events: seq<Event>, j: nat, k: nat)
    requires IsRun(run, events) && j <= k < |run| && run[j].returned
    ensures run[k].returned
    decreases k
  {
    if j < k {
      ReturnedForever(run, events, j, k - 1);
      assert run[k - 1 + 1] == Apply(run[k - 1], events[k - 1]);
    }
  }

  /**
   * Shutdown safety. From the moment the shutdown call that flipped `alive` has
   * returned, no thread is inside a callback body and none ever enters one; at
   * every moment the counter is the number of threads in flight.
   */
  lemma ShutdownIsSafe(run: seq<State>, events: seq<Event>, j: nat, k: nat, t: Thread)
    requires IsRun(run, events) && j <= k < |run|
    ensures run[k].refcount == |InFlight(run[k])|
    ensures run[j].returned ==> run[k].At(t) != InBody
    ensures run[j].returned && k < |events| ==> !(events[k] == SecondLoad(t) && run[k + 1].At(t) == InBody)
  {
    RunKeepsInv(run, events, k);
    if run[j].returned {
      ReturnedForever(run, events, j, k);
      if k < |events| {
        ReturnedForever(run, events, j, k + 1);
        RunKeepsInv(run, events, k + 1);
      }
    }
  }

  /** Once `alive` is false no callback body starts any more. */
  lemma {:induction false} NoBodyStartsOnceDead(run: seq<State>, events: seq<Event>, j: nat, k: nat, t: Thread)
    requires IsRun(run, events) && j <= k < |run| && !run[j].alive
    ensures !run[k].alive && (run[k].At(t) == InBody ==> run[j].At(t) == InBody)
    decreases k
  {
    if j < k {
      NoBodyStartsOnceDead(run, events, j, k - 1, t);
      assert Enabled(run[k - 1], events[k - 1]) && run[k - 1 + 1] == Apply(run[k - 1], events[k - 1]);
    }
  }

  lemma Extend(run: seq<State>, events: seq<Event>, e: Event, s: State) returns (run': seq<State>, events': seq<Event>)
    requires IsRun(run, events) && Enabled(run[|run| - 1], e) && s == Apply(run[|run| - 1], e)
    ensures IsRun(run', events') && run'[|run'| - 1] == s && run' == run + [s] && events' == events + [e]
  {
    run', events' := run + [s], events + [e];
    forall k | 0 <= k < |events'| ensures Enabled(run'[k], events'[k]) && run'[k + 1] == Apply(run'[k], events'[k]) {
      if k < |events| { assert Enabled(run[k], events[k]) && run[k + 1] == Apply(run[k], events[k]); }
    }
  }

  // ---- The shutdown call returns ---------------------------------------------------------

  /** With nobody counted the next look at the counter is the last. */
  lemma LastPoll(s: State, d: Thread)
    requires Inv(s) && s.At(d) == Draining && s.refcount == 0
    ensures Enabled(s, Poll(d)) && Apply(s, Poll(d)).returned && Apply(s, Poll(d)).At(d) == Outside
  {
  }

  /** A thread in flight gets out of it in at most two steps of its own. */
  lemma Lands(run: seq<State>, events: seq<Event>, t: Thread) returns (run': seq<State>, events': seq<Event>)
    requires IsRun(run, events) && !run[|run| - 1].alive && Flying(run[|run| - 1].At(t))
    ensures IsRun(run', events') && run <= run' && events <= events'
    ensures forall k :: |events| <= k < |events'| ==> events'[k].t == t
    ensures var s, r := run[|run| - 1], run'[|run'| - 1];
      && !r.alive && r.refcount == s.refcount - 1 && r.At(t) == Outside
      && forall u :: u != t ==> r.At(u) == s.At(u)
  {
    run', events' := run, events;
    var s := run[|run| - 1];
    if s.At(t) != Leaving {
      var e := if s.At(t) == InBody then BodyEnds(t) else SecondLoad(t);
      run', events' := Extend(run, events, e, Apply(s, e));
    }
    var s' := run'[|run'| - 1];
    run', events' := Extend(run', events', Uncount(t), Apply(s', Uncount(t)));
  }

  /**
   * The shutdown call that flipped `alive` returns: from every reachable state in
   * which it is draining, steps of the threads in flight, to the end of their
   * bodies, and its own last look at the counter make it return.
   */
  lemma {:induction false} ShutdownReturns(run: seq<State>, events: seq<Event>, d: Thread)
    returns (run': seq<State>, events': seq<Event>)
    requires IsRun(run, events) && run[|run| - 1].At(d) == Draining
    ensures IsRun(run', events') && run <= run' && events <= events'
    ensures forall k :: |events| <= k < |events'| ==> events'[k] == Poll(d) || events'[k].t in InFlight(run[|run| - 1])
    ensures run'[|run'| - 1].returned && run'[|run'| - 1].At(d) == Outside
    decreases run[|run| - 1].refcount
  {
    var s := run[|run| - 1];
    RunKeepsInv(run, events, |run| - 1);
    if InFlight(s) == {} {
      LastPoll(s, d);
      run', events' := Extend(run, events, Poll(d), Apply(s, Poll(d)));
    } else {
      var t :| t in InFlight(s);
      run', events' := Lands(run, events, t);
      var r := run'[|run'| - 1];
      assert InFlight(r) <= InFlight(s) by {
        forall u | u in InFlight(r) ensures u in InFlight(s) { assert r.At(u) == r.pcs[u]; }
      }
      run', events' := ShutdownReturns(run', events', d);
    }
  }

  // ---- A shutdown call that loses the exchange ---------------------------------------------------

  /** A shutdown call that finds the handle already dead returns at once. */
  predicate ReturnsAtOnce(s: State, t: Thread) { Enabled(s, Exchange(t)) && !s.alive }

  /** From state j on no callback body runs. */
  ghost predicate SafeFrom(run: seq<State>, j: nat) {
    forall k: nat, t: Thread :: j <= k < |run| ==> run[k].At(t) != InBody
  }

  /** State with threads 0, ..., n - 1 inside their bodies. */
  function Crowd(n: nat): State {
    if n == 0 then FRESH else Crowd(n - 1).To(n - 1, InBody).(refcount := n)
  }

  lemma {:induction false} CrowdAt(n: nat, t: Thread)
    ensures Crowd(n).alive && Crowd(n).refcount == n && !Crowd(n).returned
    ensures Crowd(n).At(t) == if t < n then InBody else Outside
    decreases n
  {
    if n > 0 { CrowdAt(n - 1, t); }
  }

  /** Any number of threads can be in their bodies at the same time. */
  lemma {:induction false} CrowdRun(n: nat) returns (run: seq<State>, events: seq<Event>)
    ensures IsRun(run, events) && run[|run| - 1] == Crowd(n)
    decreases n
  {
    if n == 0 {
      run, events := [FRESH], [];
    } else {
      run, events := CrowdRun(n - 1);
      var s, t := Crowd(n - 1), n - 1;
      CrowdAt(n - 1, t);
      var admitted := s.To(t, Admitted);
      var counted := admitted.To(t, Counted).(refcount := n);
      var inBody := counted.To(t, InBody);
      run, events := Extend(run, events, FirstLoad(t), admitted);
      run, events := Extend(run, events, Count(t), counted);
      run, events := Extend(run, events, SecondLoad(t), inBody);
      assert inBody.pcs == s.pcs[t := InBody];
    }
  }

  /** With r threads counted, a shutdown call can lose while a body runs, for every r > 0. */
  lemma LoserReturnsEarly(r: nat) returns (run: seq<State>, events: seq<Event>, loser: Thread)
    requires r > 0
    ensures IsRun(run, events)
    ensures var s := run[|run| - 1]; ReturnsAtOnce(s, loser) && s.refcount == r && s.At(0) == InBody
  {
    run, events := CrowdRun(r);
    CrowdAt(r, 0);
    CrowdAt(r, r);
    CrowdAt(r, r + 1);
    run, events := Extend(run, events, Exchange(r), Apply(Crowd(r), Exchange(r)));
    loser := r + 1;
  }

  lemma ZeroIsSafe(run: seq<State>, events: seq<Event>, j: nat)
    requires IsRun(run, events) && j < |run| && !run[j].alive && run[j].refcount == 0
    ensures SafeFrom(run, j)
  {
    RunKeepsInv(run, events, j);
    assert InFlight(run[j]) == {};
    forall k: nat, t: Thread | j <= k < |run| ensures run[k].At(t) != InBody {
      NoBodyStartsOnceDead(run, events, j, k, t);
      assert t !in InFlight(run[j]);
    }
  }

  /**
   * What a shutdown call that lost the exchange may conclude from the counter it
   * can read: that no body runs from then on, in every run, if and only if the
   * counter is zero.
   */
  lemma LoserIsSafeIff(r: nat)
    ensures r == 0 <==>
      forall run: seq<State>, events: seq<Event>, j: nat, t: Thread ::
        IsRun(run, events) && j < |run| && ReturnsAtOnce(run[j], t) && run[j].refcount == r ==> SafeFrom(run, j)
  {
    if r == 0 {
      forall run: seq<State>, events: seq<Event>, j: nat, t: Thread
        | IsRun(run, events) && j < |run| && ReturnsAtOnce(run[j], t) && run[j].refcount == r
        ensures SafeFrom(run, j)
      {
        ZeroIsSafe(run, events, j);
      }
    } else {
      var run, events, loser := LoserReturnsEarly(r);
      var last: nat := |run| - 1;
      assert ReturnsAtOnce(run[last], loser) && !SafeFrom(run, last);
    }
  }
}
