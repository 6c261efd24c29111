// The worker pool: a bounded queue behind a mutex and a counting semaphore, with any
// number of appenders and workers. A step is what a thread does between two points
// where others can be seen to act: a section under the mutex, a post, a wait.
module WorkerPool {

  import opened Options

  // ---- What the threads share ---------------------------------------------------------

  class ThreadPool<T> {
    const maxRequest: nat
    var workQueue: seq<T>
    var permits: nat

    constructor (max: nat)
      ensures maxRequest == max && workQueue == [] && permits == 0
    {
      maxRequest, workQueue, permits := max, [], 0;
    }

    // The section of append under the mutex. The test lets one more in than the limit.
    method Enqueue(request: T) returns (ok: bool)
      modifies `workQueue
      ensures ok == (|old(workQueue)| <= maxRequest)
      ensures workQueue == if ok then old(workQueue) + [request] else old(workQueue)
    {
      if |workQueue| > maxRequest {
        return false;
      }
      workQueue := workQueue + [request];
      return true;
    }

    method Post()
      modifies `permits
      ensures permits == old(permits) + 1
    {
      permits := permits + 1;
    }

    // With no other thread about: what an append does in the end.
    method Append(request: T) returns (ok: bool)
      modifies this
      ensures ok == (|old(workQueue)| <= maxRequest)
      ensures workQueue == (if ok then old(workQueue) + [request] else old(workQueue))
      ensures permits == old(permits) + if ok then 1 else 0
    {
      ok := Enqueue(request);
      if !ok {
        return false;
      }
      Post();
    }

    // Returns when there is a permit to take.
    method Wait()
      requires permits > 0
      modifies `permits
      ensures permits == old(permits) - 1
    {
      permits := permits - 1;
    }

    // The section of run under the mutex; an empty queue sends the worker back to wait.
    method TakeFront() returns (r: Option<T>)
      modifies `workQueue
      ensures r == Front(old(workQueue)) && workQueue == Rest(old(workQueue))
    {
      if workQueue == [] {
        return None;
      }
      r := Some(workQueue[0]);
      workQueue := workQueue[1..];
    }
  }

  predicate HasRoom<T>(queue: seq<T>, max: nat) { |queue| <= max }

  function Front<T>(queue: seq<T>): Option<T> {
    if queue == [] then None else Some(queue[0])
  }

  function Rest<T>(queue: seq<T>): seq<T> {
    if queue == [] then [] else queue[1..]
  }

  // ---- The threads ------------------------------------------------------------------------

  // Outside append, or between the push and the post.
  datatype Appender = Outside | Pushed
  // At the semaphore, between the semaphore and the queue, or working on a job.
  datatype Worker<T> = Waiting | Woken | Running(job: T)

  datatype Pool<T> = Pool(
    max: nat, queue: seq<T>, permits: nat,
    appenders: seq<Appender>, workers: seq<Worker<T>>,
    accepted: seq<T>, handedOut: seq<T>)

  datatype Step<T> =
    | Push(a: nat, job: T)
    | Refuse(a: nat, job: T)
    | Post(a: nat)
    | Wake(w: nat)
    | Take(w: nat)
    | Finish(w: nat)

  predicate Enabled<T>(p: Pool<T>, s: Step<T>) {
    match s
    case Push(a, job) => a < |p.appenders| && p.appenders[a] == Outside && HasRoom(p.queue, p.max)
    case Refuse(a, job) => a < |p.appenders| && p.appenders[a] == Outside && !HasRoom(p.queue, p.max)
    case Post(a) => a < |p.appenders| && p.appenders[a] == Pushed
    case Wake(w) => w < |p.workers| && p.workers[w].Waiting? && p.permits > 0
    case Take(w) => w < |p.workers| && p.workers[w].Woken?
    case Finish(w) => w < |p.workers| && p.workers[w].Running?
  }

  function Apply<T>(p: Pool<T>, s: Step<T>): (q: Pool<T>)
    requires Enabled(p, s)
  {
    match s
    case Push(a, job) =>
      p.(queue := p.queue + [job], appenders := p.appenders[a := Pushed], accepted := p.accepted + [job])
    case Refuse(_, _) => p
    case Post(a) => p.(permits := p.permits + 1, appenders := p.appenders[a := Outside])
    case Wake(w) => p.(permits := p.permits - 1, workers := p.workers[w := Woken])
    case Take(w) => (
      match Front(p.queue)
      case None => p.(workers := p.workers[w := Waiting])
      case Some(job) =>
        p.(queue := Rest(p.queue), workers := p.workers[w := Running(job)], handedOut := p.handedOut + [job]))
    case Finish(w) => p.(workers := p.workers[w := Waiting])
  }

  function Start<T>(max: nat, appenders: nat, workers: nat): Pool<T> {
    Pool(max, [], 0, seq(appenders, _ => Outside), seq(workers, _ => Waiting), [], [])
  }

  // ---- Accounting ------------------------------------------------------------------------------

  function PushedCount(as_: seq<Appender>): nat {
    if as_ == [] then 0 else (if as_[0].Pushed? then 1 else 0) + PushedCount(as_[1..])
  }

  function WokenCount<T>(ws: seq<Worker<T>>): nat {
    if ws == [] then 0 else (if ws[0].Woken? then 1 else 0) + WokenCount(ws[1..])
  }

  // How many workers are on this job.
  function JobCount<T(==)>(ws: seq<Worker<T>>, job: T): nat {
    if ws == [] then 0 else (if ws[0] == Running(job) then 1 else 0) + JobCount(ws[1..], job)
  }

  lemma {:induction false} PushedUpdate(as_: seq<Appender>, i: nat, x: Appender)
    requires i < |as_|
    ensures PushedCount(as_[i := x]) + (if as_[i].Pushed? then 1 else 0) == PushedCount(as_) + if x.Pushed? then 1 else 0
  {
    if i > 0 {
      assert as_[i := x][1..] == as_[1..][i - 1 := x];
      PushedUpdate(as_[1..], i - 1, x);
    } else {
      assert as_[i := x][1..] == as_[1..];
    }
  }

  lemma {:induction false} WokenUpdate<T>(ws: seq<Worker<T>>, i: nat, x: Worker<T>)
    requires i < |ws|
    ensures WokenCount(ws[i := x]) + (if ws[i].Woken? then 1 else 0) == WokenCount(ws) + if x.Woken? then 1 else 0
  {
    if i > 0 {
      assert ws[i := x][1..] == ws[1..][i - 1 := x];
      WokenUpdate(ws[1..], i - 1, x);
    } else {
      assert ws[i := x][1..] == ws[1..];
    }
  }

  lemma {:induction false} JobUpdate<T>(ws: seq<Worker<T>>, i: nat, x: Worker<T>, job: T)
    requires i < |ws|
    ensures JobCount(ws[i := x], job) + (if ws[i] == Running(job) then 1 else 0)
         == JobCount(ws, job) + if x == Running(job) then 1 else 0
  {
    if i > 0 {
      assert ws[i := x][1..] == ws[1..][i - 1 := x];
      JobUpdate(ws[1..], i - 1, x, job);
    } else {
      assert ws[i := x][1..] == ws[1..];
    }
  }

  lemma {:induction false} WokenThere<T>(ws: seq<Worker<T>>, w: nat)
    requires w < |ws| && ws[w].Woken?
    ensures WokenCount(ws) > 0
  {
    if w > 0 {
      WokenThere(ws[1..], w - 1);
    }
  }

  lemma {:induction false} NonePushed(n: nat)
    ensures PushedCount(seq(n, _ => Outside)) == 0
  {
    if n > 0 {
      assert seq(n, _ => Outside)[1..] == seq(n - 1, _ => Outside);
      NonePushed(n - 1);
    }
  }

  lemma {:induction false} NoneWoken<T>(n: nat)
    ensures WokenCount<T>(seq(n, _ => Waiting)) == 0
  {
    if n > 0 {
      var rest: seq<Worker<T>> := seq(n - 1, _ => Waiting);
      assert seq(n, _ => Waiting)[1..] == rest;
      NoneWoken<T>(n - 1);
    }
  }

  lemma {:induction false} NoneRunning<T>(n: nat, job: T)
    ensures JobCount(seq(n, _ => Waiting), job) == 0
  {
    if n > 0 {
      var rest: seq<Worker<T>> := seq(n - 1, _ => Waiting);
      assert seq(n, _ => Waiting)[1..] == rest;
      NoneRunning(n - 1, job);
    }
  }

  // Every queued job is covered by a permit, by an appender that has still to post one,
  // or by a worker that took one and has still to fetch it.
  predicate Inv<T(==)>(p: Pool<T>) {
    && |p.queue| == p.permits + PushedCount(p.appenders) + WokenCount(p.workers)
    && p.handedOut + p.queue == p.accepted
    && |p.queue| <= p.max + 1
  }

  lemma StartInv<T>(max: nat, appenders: nat, workers: nat)
    ensures Inv(Start<T>(max, appenders, workers))
  {
    NonePushed(appenders);
    NoneWoken<T>(workers);
  }

  lemma StepInv<T>(p: Pool<T>, s: Step<T>)
    requires Inv(p) && Enabled(p, s)
    ensures Inv(Apply(p, s))
    ensures s.Take? ==> p.queue != []
    ensures (s.Push? ==> |p.queue| <= p.max) && (s.Refuse? ==> |p.queue| == p.max + 1)
  {
    hide PushedCount, WokenCount;
    match s
    case Push(a, job) =>
      PushedUpdate(p.appenders, a, Pushed);
      assert p.handedOut + (p.queue + [job]) == p.handedOut + p.queue + [job];
    case Refuse(_, _) =>
    case Post(a) =>
      PushedUpdate(p.appenders, a, Outside);
    case Wake(w) =>
      WokenUpdate(p.workers, w, Woken);
    case Take(w) =>
      WokenThere(p.workers, w);
      WokenUpdate(p.workers, w, Running(p.queue[0]));
      assert p.handedOut + [p.queue[0]] + p.queue[1..] == p.handedOut + p.queue;
    case Finish(w) =>
      WokenUpdate(p.workers, w, Waiting);
  }

  // ---- Whole runs --------------------------------------------------------------------------------

  predicate Next<T(==)>(p: Pool<T>, s: Step<T>, q: Pool<T>) {
    Enabled(p, s) && q == Apply(p, s)
  }

  ghost predicate IsRun<T>(states: seq<Pool<T>>, steps: seq<Step<T>>, max: nat, appenders: nat, workers: nat) {
    && |states| == |steps| + 1
    && states[0] == Start(max, appenders, workers)
    && forall i :: 0 <= i < |steps| ==> Next(states[i], steps[i], states[i + 1])
  }

  // In every state of every run the accounting holds, what was handed out is a prefix of
  // what was accepted, in that order, and the queue holds at most one job above the
  // limit; and no worker that got a permit finds the queue empty.
  lemma {:induction false} RunInv<T>(
    states: seq<Pool<T>>, steps: seq<Step<T>>, max: nat, appenders: nat, workers: nat, i: nat)
    requires IsRun(states, steps, max, appenders, workers) && i < |states|
    ensures Inv(states[i]) && states[i].handedOut <= states[i].accepted && states[i].max == max
    ensures |states[i].queue| <= max + 1
    ensures i < |steps| && steps[i].Take? ==> states[i].queue != []
  {
    hide PushedCount, WokenCount;
    if i == 0 {
      StartInv<T>(max, appenders, workers);
    } else {
      RunInv(states, steps, max, appenders, workers, i - 1);
      assert Next(states[i - 1], steps[i - 1], states[i]);
      StepInv(states[i - 1], steps[i - 1]);
    }
    if i < |steps| {
      assert Next(states[i], steps[i], states[i + 1]);
      StepInv(states[i], steps[i]);
    }
  }

  // Once every push has been posted and every woken worker has fetched its job, a
  // non-empty queue lets any waiting worker go on.
  lemma SettledQueueWakes<T>(p: Pool<T>, w: nat)
    requires Inv(p) && PushedCount(p.appenders) == 0 && WokenCount(p.workers) == 0
    requires p.queue != [] && w < |p.workers| && p.workers[w].Waiting?
    ensures Enabled(p, Wake(w))
  {
  }
}
