// One worker fed through a queue and a condition variable that is signalled only when a
// post finds the queue empty. Any number of threads post; the signal is given while the
// lock is held; the stop flag is set without it.
module LogicQueue {

  // ---- What the threads share -----------------------------------------------------------

  class LogicSystem<M> {
    var msgQue: seq<M>
    var stop: bool
    ghost var dispatched: seq<M>

    constructor ()
      ensures msgQue == [] && !stop && dispatched == []
    {
      msgQue, stop, dispatched := [], false, [];
    }

    // The section under the lock; says whether to signal.
    method PostMsgToQue(msg: M) returns (signal: bool)
      modifies `msgQue
      ensures msgQue == old(msgQue) + [msg] && signal == (old(msgQue) == [])
    {
      msgQue := msgQue + [msg];
      signal := |msgQue| == 1;
    }

    // Takes the front message and runs its callback.
    method Dispatch()
      requires msgQue != []
      modifies `msgQue, `dispatched
      ensures dispatched == old(dispatched) + [old(msgQue)[0]] && msgQue == old(msgQue)[1..]
    {
      dispatched := dispatched + [msgQue[0]];
      msgQue := msgQue[1..];
    }

    // The worker with no other thread about, up to where it waits or exits.
    method DealMsg() returns (exits: bool)
      modifies `msgQue, `dispatched
      ensures dispatched == old(dispatched) + old(msgQue) && msgQue == [] && exits == stop
    {
      ghost var all := dispatched + msgQue;
      while true
        invariant dispatched + msgQue == all
        decreases |msgQue|
      {
        if msgQue == [] && !stop {
          return false;
        }
        if stop {
          while msgQue != []
            invariant dispatched + msgQue == all
          {
            Dispatch();
          }
          return true;
        }
        Dispatch();
      }
    }
  }

  predicate Signals<M>(queue: seq<M>) { |queue| == 1 }

  // ---- The threads ------------------------------------------------------------------------

  datatype Lock = Free | ByWorker | ByPoster

  // Where the worker is. TestWait, TestStop, Drain and Committed hold the lock; Committed
  // has found nothing to do and is about to wait, which releases it. Woken has to get the
  // lock back; Busy runs a callback, inside the draining loop or not.
  datatype Place = TestWait | Committed | Asleep | Woken | TestStop | Drain | Busy(draining: bool) | Exited

  // told: the destructor has signalled, after setting the stop flag.
  datatype State<M> = State(
    queue: seq<M>, stop: bool, told: bool, lock: Lock, worker: Place, posted: seq<M>, dispatched: seq<M>)

  datatype Step<M> =
    | Push(msg: M)
    | SignalAndUnlock
    | SetStop
    | TellStop
    | Spurious
    | GetLock
    | Test
    | Wait

  predicate Enabled<M>(s: State<M>, e: Step<M>) {
    match e
    case Push(_) => s.lock == Free
    case SignalAndUnlock => s.lock == ByPoster
    case SetStop => true
    case TellStop => s.stop && !s.told
    case Spurious => s.worker == Asleep
    case GetLock => s.lock == Free && (s.worker == Woken || s.worker.Busy?)
    case Test => s.worker in {TestWait, TestStop, Drain} && (s.worker == TestStop && !s.stop ==> s.queue != [])
    case Wait => s.worker == Committed
  }

  function Roused(w: Place): Place {
    if w == Asleep then Woken else w
  }

  // Takes the front message and leaves the lock to run it.
  function Taken<M>(s: State<M>, draining: bool): State<M>
    requires s.queue != []
  {
    s.(queue := s.queue[1..], dispatched := s.dispatched + [s.queue[0]], worker := Busy(draining), lock := Free)
  }

  function Apply<M>(s: State<M>, e: Step<M>): State<M>
    requires Enabled(s, e)
  {
    match e
    case Push(msg) => s.(queue := s.queue + [msg], posted := s.posted + [msg], lock := ByPoster)
    case SignalAndUnlock => s.(worker := if Signals(s.queue) then Roused(s.worker) else s.worker, lock := Free)
    case SetStop => s.(stop := true)
    case TellStop => s.(worker := Roused(s.worker), told := true)
    case Spurious => s.(worker := Woken)
    case GetLock => s.(worker := if s.worker == Busy(true) then Drain else TestWait, lock := ByWorker)
    case Test =>
      if s.worker == TestWait then s.(worker := if s.queue == [] && !s.stop then Committed else TestStop)
      else if s.worker == TestStop then
        if s.stop then s.(worker := Drain) else Taken(s, false)
      else if s.queue != [] then Taken(s, true) else s.(worker := Exited, lock := Free)
    case Wait => s.(worker := Asleep, lock := Free)
  }

  // The worker starts by getting the lock.
  function Start<M>(): State<M> {
    State([], false, false, Free, Woken, [], [])
  }

  // ---- What every step keeps -----------------------------------------------------------------

  predicate Good<M(==)>(s: State<M>) {
    // Exactly once and in order.
    && s.dispatched + s.queue == s.posted
    && (s.lock == ByWorker <==> s.worker in {TestWait, Committed, TestStop, Drain})
    && (s.lock == ByPoster ==> s.queue != [])
    // Asleep with something queued only while a poster is about to signal it.
    && (s.worker == Asleep ==> if s.lock == ByPoster then |s.queue| == 1 else s.queue == [])
    && (s.worker == Committed ==> s.queue == [])
    && (s.worker == TestStop ==> s.queue != [] || s.stop)
    && (s.worker in {Drain, Busy(true), Exited} ==> s.stop)
    && (s.told ==> s.stop)
  }

  lemma StartGood<M>()
    ensures Good(Start<M>())
  {
  }

  lemma StepGood<M>(s: State<M>, e: Step<M>)
    requires Good(s) && Enabled(s, e)
    ensures Good(Apply(s, e))
  {
    match e
    case Push(msg) =>
      assert s.dispatched + (s.queue + [msg]) == s.dispatched + s.queue + [msg];
    case Test =>
      if s.queue != [] {
        assert s.dispatched + [s.queue[0]] + s.queue[1..] == s.dispatched + s.queue;
      }
    case _ =>
  }

  // ---- Whole runs ---------------------------------------------------------------------------------

  predicate Next<M(==)>(s: State<M>, e: Step<M>, t: State<M>) {
    Enabled(s, e) && t == Apply(s, e)
  }

  ghost predicate IsRun<M>(states: seq<State<M>>, steps: seq<Step<M>>) {
    && |states| == |steps| + 1 && states[0] == Start<M>()
    && forall i :: 0 <= i < |steps| ==> Next(states[i], steps[i], states[i + 1])
  }

  // In every state of every run what was dispatched is a prefix of what was posted, and
  // the rest is queued in order.
  lemma {:induction false} RunGood<M>(states: seq<State<M>>, steps: seq<Step<M>>, i: nat)
    requires IsRun(states, steps) && i < |states|
    ensures Good(states[i]) && states[i].dispatched <= states[i].posted
  {
    if i == 0 {
      StartGood<M>();
    } else {
      RunGood(states, steps, i - 1);
      assert Next(states[i - 1], steps[i - 1], states[i]);
      StepGood(states[i - 1], steps[i - 1]);
    }
  }

  // The machine signals as the code does: for the post that found the queue empty.
  lemma SignalsExactly<M>(queue: seq<M>, msg: M)
    ensures Signals(queue + [msg]) <==> queue == []
  {
  }

  // The worker takes from the queue unasked after its tests; there is always a message.
  lemma FrontIsThere<M>(s: State<M>)
    requires Good(s) && s.worker in {TestWait, TestStop, Drain}
    ensures Enabled(s, Test)
  {
  }

  // ---- No wakeup is lost ------------------------------------------------------------------------------

  // With a message queued, no poster at work and the worker not gone, the worker goes on
  // by itself: it holds the lock or can have it, and needs no stray wakeup.
  lemma NoLostWakeup<M>(s: State<M>) returns (e: Step<M>)
    requires Good(s) && s.queue != [] && s.lock != ByPoster && s.worker != Exited
    ensures (e == GetLock || e == Test) && Enabled(s, e)
  {
    return if s.lock == Free then GetLock else Test;
  }

  // Each test or lock the worker passes brings the front message nearer to its callback:
  // four steps of its own at most.
  function Distance(w: Place): nat {
    match w
    case Woken | Busy(_) => 4
    case TestWait => 3
    case TestStop => 2
    case _ => 1
  }

  lemma WorkerSteps<M>(s: State<M>, e: Step<M>)
    requires Good(s) && s.queue != [] && (e == GetLock || e == Test) && Enabled(s, e)
    ensures var t := Apply(s, e);
            t.dispatched == s.dispatched + [s.queue[0]] || (t.queue == s.queue && Distance(t.worker) < Distance(s.worker))
  {
  }

  // ---- Stopping -------------------------------------------------------------------------------------------

  // The worker exits only when stopped, with an empty queue and everything posted before
  // that moment dispatched.
  lemma ExitIsClean<M>(s: State<M>, e: Step<M>)
    requires Good(s) && Enabled(s, e) && s.worker != Exited && Apply(s, e).worker == Exited
    ensures s.stop && s.queue == [] && s.dispatched == s.posted == Apply(s, e).dispatched
  {
  }

  // Once stopped and not asleep, the worker by its own steps comes to exit, with
  // everything posted so far dispatched.
  lemma {:induction false} ExitIsReached<M>(s: State<M>) returns (steps: seq<Step<M>>, t: State<M>)
    requires Good(s) && s.stop && s.lock != ByPoster && s.worker !in {Asleep, Committed}
    ensures Leads(s, steps, t) && (forall e :: e in steps ==> e == GetLock || e == Test)
    ensures t.worker == Exited && t.posted == s.posted && (s.worker != Exited ==> t.dispatched == s.posted)
    decreases |s.queue|, Distance(s.worker)
  {
    if s.worker == Exited {
      return [], s;
    }
    var e: Step<M> := if s.lock == Free then GetLock else Test;
    var u := Apply(s, e);
    StepGood(s, e);
    if s.worker == Drain && s.queue == [] {
      steps, t := [], u;
      assert s.dispatched + [] == s.dispatched;
    } else {
      steps, t := ExitIsReached(u);
    }
    steps := [e] + steps;
    assert Leads(u, steps[1..], t);
  }

  // After that it dispatches nothing more.
  lemma {:induction false} ExitIsFinal<M>(states: seq<State<M>>, steps: seq<Step<M>>, i: nat, j: nat)
    requires IsRun(states, steps) && i <= j < |states| && states[i].worker == Exited
    ensures states[j].worker == Exited && states[j].dispatched == states[i].dispatched
  {
    if i < j {
      ExitIsFinal(states, steps, i, j - 1);
      assert Next(states[j - 1], steps[j - 1], states[j]);
    }
  }

  // ---- Whether the stop is heard ------------------------------------------------------------------------

  // t comes of s by these steps.
  ghost predicate Leads<M>(s: State<M>, steps: seq<Step<M>>, t: State<M>)
    decreases |steps|
  {
    if steps == [] then t == s else Enabled(s, steps[0]) && Leads(Apply(s, steps[0]), steps[1..], t)
  }

  // Nobody posts and the worker is not woken by chance.
  predicate Quiet<M(==)>(steps: seq<Step<M>>) {
    forall e :: e in steps ==> !e.Push? && e != Spurious
  }

  // The destructor has done its part, and the worker sleeps until someone posts or it
  // wakes by chance.
  ghost predicate Lost<M(!new)>(s: State<M>) {
    s.told && forall steps, t :: Leads(s, steps, t) && Quiet(steps) ==> t.worker == Asleep
  }

  lemma StoppedAwake<M>(s: State<M>, e: Step<M>)
    requires Enabled(s, e) && s.stop && s.worker != Committed && s.worker != Asleep
    ensures Apply(s, e).stop && Apply(s, e).worker != Committed && Apply(s, e).worker != Asleep
  {
  }

  lemma {:induction false} StopHeard<M>(s: State<M>, steps: seq<Step<M>>, t: State<M>)
    requires s.stop && s.worker != Committed && s.worker != Asleep && Leads(s, steps, t)
    ensures t.worker != Committed && t.worker != Asleep
    decreases |steps|
  {
    if steps != [] {
      StoppedAwake(s, steps[0]);
      StopHeard(Apply(s, steps[0]), steps[1..], t);
    }
  }

  lemma {:induction false} SleepsOn<M>(s: State<M>, steps: seq<Step<M>>, t: State<M>)
    requires s.told && s.worker == Asleep && s.lock == Free && Leads(s, steps, t) && Quiet(steps)
    ensures t.worker == Asleep
    decreases |steps|
  {
    if steps != [] {
      var e := steps[0];
      assert e in steps && forall d :: d in steps[1..] ==> d in steps;
      SleepsOn(Apply(s, e), steps[1..], t);
    }
  }

  // Some way on from s leads to a worker that has missed the stop.
  ghost predicate CanLose<M(!new)>(s: State<M>) {
    exists steps, t :: Leads(s, steps, t) && Lost(t)
  }

  // When the destructor signals, some way on from there leads to a worker that has missed
  // it for good if and only if the signal falls between the worker's test and its wait:
  // the flag is set without the lock.
  lemma StopLostExact<M(!new)>(states: seq<State<M>>, steps: seq<Step<M>>)
    requires IsRun(states, steps) && Enabled(states[|steps|], TellStop)
    ensures CanLose(Apply(states[|steps|], TellStop)) <==> states[|steps|].worker == Committed
  {
    var s := states[|steps|];
    var u := Apply(s, TellStop);
    RunGood(states, steps, |steps|);
    if s.worker == Committed {
      var t := Apply(u, Wait);
      assert Leads(t, [], t);
      var wait: seq<Step<M>> := [Wait];
      assert wait[1..] == [] && Leads(u, wait, t);
      forall more, v | Leads(t, more, v) && Quiet(more) ensures v.worker == Asleep {
        SleepsOn(t, more, v);
      }
      assert Leads(u, wait, t) && Lost(t);
    } else {
      forall more, t | Leads(u, more, t) ensures !Lost(t) {
        StopHeard(u, more, t);
        assert Leads(t, [], t) && Quiet<M>([]);
      }
    }
  }

  // A signal that is heard in time keeps the worker from ever sleeping again.
  lemma StopHeardInTime<M>(s: State<M>, steps: seq<Step<M>>, t: State<M>)
    requires Enabled(s, TellStop) && s.worker != Committed && Leads(Apply(s, TellStop), steps, t)
    ensures t.worker != Asleep && t.worker != Committed
  {
    StopHeard(Apply(s, TellStop), steps, t);
  }

  // And one can be lost: the worker tests the flag, the destructor sets it and signals,
  // the worker waits.
  lemma StopCanBeLost<M(!new)>() returns (states: seq<State<M>>, steps: seq<Step<M>>)
    ensures IsRun(states, steps) && Lost(states[|steps|])
  {
    steps := [GetLock, Test, SetStop, TellStop, Wait];
    var s0 := Start<M>();
    var s1 := Apply(s0, GetLock);
    var s2 := Apply(s1, Test);
    var s3 := Apply(s2, SetStop);
    var s4 := Apply(s3, TellStop);
    var s5 := Apply(s4, Wait);
    states := [s0, s1, s2, s3, s4, s5];
    forall more, t | Leads(s5, more, t) && Quiet(more) ensures t.worker == Asleep {
      SleepsOn(s5, more, t);
    }
  }
}
