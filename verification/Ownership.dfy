// Who holds a connection: the kernel's one-shot event set, the main thread's event loop,
// the queue, or a worker. Threads take turns in any order; a move is what one of them
// does before another can be seen to act.
module Ownership {
  import opened Options
  import opened HttpResponse
  import opened HttpConn
  import opened WorkerPool

  const MAX_FD: nat := 65535

  // A connection is known by its descriptor, which is also its place in the array of
  // connection objects.
  type Conn = nat

  // armed: what the event set waits for; an event delivered disarms its connection.
  // dropped: read from, then turned away by a full queue.
  // written: a response lies in the write buffer.
  // sock: the descriptor each object holds, if it holds one.
  datatype Table = Table(
    open: set<Conn>, users: int, armed: map<Conn, Interest>, dropped: set<Conn>, written: set<Conn>,
    sock: map<Conn, Conn>)

  datatype Event = NewClient | Hangup(conn: Conn) | Readable(conn: Conn) | Writable(conn: Conn)

  datatype Sent = Again | Failed | Done

  // What the system calls made for one event return.
  datatype Reply = Reply(accepted: Conn, readOk: bool, sent: Sent, linger: bool)

  // ---- The main thread --------------------------------------------------------------------

  function Descriptor(t: Table, c: Conn): Option<Conn> {
    if c in t.sock then Some(t.sock[c]) else None
  }

  // Arms the descriptor that the object of c holds.
  function Watched(t: Table, c: Conn, i: Interest): Table {
    match Descriptor(t, c)
    case None => t
    case Some(d) => if d in t.open then t.(armed := t.armed[d := i]) else t
  }

  // Clearing the write buffer runs past the object, and zeroes the descriptor of the next.
  function Reset(t: Table, c: Conn): Table {
    t.(written := t.written - {c}, sock := t.sock[c + 1 := 0])
  }

  function Opened(t: Table, c: Conn): Table {
    Reset(t.(open := t.open + {c}, users := t.users + 1, armed := t.armed[c := In], sock := t.sock[c := c]), c)
  }

  function Closed(t: Table, c: Conn): Table {
    match Descriptor(t, c)
    case None => t
    case Some(d) => t.(open := t.open - {d}, users := t.users - 1, armed := t.armed - {d}, sock := t.sock - {c})
  }

  function Sending(t: Table, c: Conn, reply: Reply): Table {
    if c !in t.written then Reset(Watched(t, c, In), c)
    else match reply.sent
      case Again => Watched(t, c, Out)
      case Failed => Closed(t, c)
      case Done => if reply.linger then Watched(Reset(t, c), c, In) else Closed(t, c)
  }

  function Handled(t: Table, e: Event, reply: Reply, room: bool): Table {
    match e
    case NewClient => if t.users >= MAX_FD then t else Opened(t, reply.accepted)
    case Hangup(c) => Closed(t, c)
    case Readable(c) => if !reply.readOk then Closed(t, c) else if room then t else t.(dropped := t.dropped + {c})
    case Writable(c) => Sending(t, c, reply)
  }

  class EventLoop {
    const pool: ThreadPool<Conn>
    var open: set<Conn>
    var users: int
    var armed: map<Conn, Interest>
    var dropped: set<Conn>
    var written: set<Conn>
    var sock: map<Conn, Conn>

    constructor (pool: ThreadPool<Conn>)
      ensures View() == EMPTY && this.pool == pool
    {
      this.pool := pool;
      open, users, armed, dropped, written, sock := {}, 0, map[], {}, {}, map[];
    }

    function View(): Table
      reads this
    {
      Table(open, users, armed, dropped, written, sock)
    }

    predicate Holds(c: Conn)
      reads this
    {
      c in open && c in sock && sock[c] == c
    }

    method ModifyFd(c: Conn, i: Interest)
      modifies `armed
      ensures View() == Watched(old(View()), c, i)
    {
      if c in sock && sock[c] in open {
        armed := armed[sock[c] := i];
      }
    }

    method Init(c: Conn)
      modifies `written, `sock
      ensures View() == Reset(old(View()), c)
    {
      written := written - {c};
      sock := sock[c + 1 := 0];
    }

    method CloseConn(c: Conn)
      modifies this
      ensures View() == Closed(old(View()), c)
    {
      if c in sock {
        var d := sock[c];
        open, armed, users, sock := open - {d}, armed - {d}, users - 1, sock - {c};
      }
    }

    // False when the connection is to be closed.
    method Write(c: Conn, reply: Reply) returns (ok: bool)
      modifies `armed, `written, `sock
      ensures (if ok then View() else Closed(View(), c)) == Sending(old(View()), c, reply)
      ensures ok == (c !in old(written) || reply.sent == Again || (reply.sent == Done && reply.linger))
    {
      if c !in written {
        ModifyFd(c, In);
        Init(c);
        return true;
      }
      match reply.sent {
        case Again =>
          ModifyFd(c, Out);
          return true;
        case Failed =>
          return false;
        case Done =>
          if reply.linger {
            Init(c);
            ModifyFd(c, In);
            return true;
          }
          ModifyFd(c, In);
          assert c in sock ==> armed - {sock[c]} == old(armed) - {sock[c]};
          return false;
      }
    }

    // One pass of the loop over the delivered events. Of a connection whose object holds
    // its descriptor, and that has a response if it is to be written: it is closed exactly
    // when the event ends it.
    method HandleEvent(e: Event, reply: Reply)
      modifies this, pool
      ensures !e.NewClient? && old(Holds(e.conn)) && (e.Writable? ==> e.conn in old(written)) ==>
        && (if Ends(e, reply)
            then open == old(open) - {e.conn} && users == old(users) - 1 && e.conn !in armed
            else open == old(open) && users == old(users))
        && (e.Writable? && !Ends(e, reply) ==>
              e.conn in armed && armed[e.conn] == (if reply.sent == Again then Out else In)
              && (e.conn in written <==> reply.sent == Again))
      ensures View() == Handled(old(View()), e, reply, HasRoom(old(pool.workQueue), pool.maxRequest))
      ensures var pushed := e.Readable? && reply.readOk && HasRoom(old(pool.workQueue), pool.maxRequest);
              && pool.workQueue == (if pushed then old(pool.workQueue) + [e.conn] else old(pool.workQueue))
              && pool.permits == old(pool.permits) + if pushed then 1 else 0
    {
      match e {
        case NewClient =>
          var c := reply.accepted;
          if users >= MAX_FD {
            return;
          }
          sock := sock[c := c];
          open, armed, users := open + {c}, armed[c := In], users + 1;
          Init(c);
        case Hangup(c) =>
          CloseConn(c);
        case Readable(c) =>
          if reply.readOk {
            var ok := pool.Append(c);
            if !ok {
              dropped := dropped + {c};
            }
          } else {
            CloseConn(c);
          }
        case Writable(c) =>
          var ok := Write(c, reply);
          if !ok {
            CloseConn(c);
          }
      }
    }
  }

  const EMPTY := Table({}, 0, map[], {}, {}, map[])

  // ---- A worker on a connection -----------------------------------------------------------------

  datatype Result = NeedMore | Answered | WriteRefused

  function Finished(t: Table, c: Conn, result: Result): Table {
    match result
    case NeedMore => Watched(t, c, In)
    case Answered => Watched(t.(written := t.written + {c}), c, Out)
    case WriteRefused => Closed(t, c)
  }

  // The results a connection object can give, and what each does to it: a refusal needs
  // a response that was there before.
  method WorkOn(conn: Connection, fs: FileSystem) returns (result: Result)
    requires conn.Valid() && conn.readIdx < READ_BUFFER_SIZE && conn.Writable() && conn.sockfd != -1
    modifies conn, conn.readBuf, conn.writeBuf
    ensures result == WriteRefused ==> old(conn.writeIdx) != 0 && conn.sockfd == -1
    ensures result != WriteRefused ==> conn.sockfd == old(conn.sockfd)
    ensures result == NeedMore ==> conn.Valid() && conn.writeIdx == old(conn.writeIdx)
    ensures result == Answered && old(conn.writeIdx) == 0 ==> conn.writeIdx != 0
  {
    hide *;
    var next := conn.Process(fs);
    if next == In {
      return NeedMore;
    }
    if conn.sockfd == -1 {
      return WriteRefused;
    }
    return Answered;
  }

  // ---- All threads together ------------------------------------------------------------------------

  // batch: the delivered events the main thread has still to handle.
  datatype Server = Server(table: Table, batch: seq<Event>, pool: Pool<Conn>)

  datatype Move =
    | Deliver(events: seq<Event>)
    | Handle(reply: Reply)
    | PostJob
    | WakeWorker(w: nat)
    | TakeJob(w: nat)
    | FinishJob(w: nat, result: Result)

  predicate MainFree(s: Server) {
    |s.pool.appenders| == 1 && s.pool.appenders[0] == Outside
  }

  // The kernel reports each armed connection at most once, and only what it waits for.
  predicate CanDeliver(armed: map<Conn, Interest>, events: seq<Event>) {
    events == [] ||
    match events[0]
    case NewClient => CanDeliver(armed, events[1..])
    case Hangup(c) => c in armed && CanDeliver(armed - {c}, events[1..])
    case Readable(c) => c in armed && armed[c] == In && CanDeliver(armed - {c}, events[1..])
    case Writable(c) => c in armed && armed[c] == Out && CanDeliver(armed - {c}, events[1..])
  }

  function Disarmed(armed: map<Conn, Interest>, events: seq<Event>): map<Conn, Interest> {
    if events == [] then armed
    else Disarmed(if events[0].NewClient? then armed else armed - {events[0].conn}, events[1..])
  }

  predicate Possible(s: Server, m: Move) {
    match m
    case Deliver(events) => MainFree(s) && s.batch == [] && CanDeliver(s.table.armed, events)
    case Handle(reply) => MainFree(s) && s.batch != [] && (s.batch[0].NewClient? ==> reply.accepted !in s.table.open)
    case PostJob => Enabled(s.pool, Post(0))
    case WakeWorker(w) => Enabled(s.pool, Wake(w))
    case TakeJob(w) => Enabled(s.pool, Take(w))
    case FinishJob(w, result) =>
      Enabled(s.pool, Finish(w)) && (result == WriteRefused ==> s.pool.workers[w].job in s.table.written)
  }

  function PoolAfter(p: Pool<Conn>, e: Event, reply: Reply): Pool<Conn>
    requires |p.appenders| == 1 && p.appenders[0] == Outside
  {
    if !(e.Readable? && reply.readOk) then p
    else Apply(p, if HasRoom(p.queue, p.max) then Push(0, e.conn) else Refuse(0, e.conn))
  }

  function After(s: Server, m: Move): Server
    requires Possible(s, m)
  {
    match m
    case Deliver(events) => s.(table := s.table.(armed := Disarmed(s.table.armed, events)), batch := events)
    case Handle(reply) =>
      Server(Handled(s.table, s.batch[0], reply, HasRoom(s.pool.queue, s.pool.max)),
             s.batch[1..], PoolAfter(s.pool, s.batch[0], reply))
    case PostJob => s.(pool := Apply(s.pool, Post(0)))
    case WakeWorker(w) => s.(pool := Apply(s.pool, Wake(w)))
    case TakeJob(w) => s.(pool := Apply(s.pool, Take(w)))
    case FinishJob(w, result) =>
      s.(table := Finished(s.table, s.pool.workers[w].job, result), pool := Apply(s.pool, Finish(w)))
  }

  // ---- One holder each ---------------------------------------------------------------------------------

  function EventCount(events: seq<Event>, c: Conn): nat {
    if events == [] then 0
    else (if !events[0].NewClient? && events[0].conn == c then 1 else 0) + EventCount(events[1..], c)
  }

  function QueueCount(queue: seq<Conn>, c: Conn): nat {
    if queue == [] then 0 else (if queue[0] == c then 1 else 0) + QueueCount(queue[1..], c)
  }

  // How many places hold the connection.
  function Holders(s: Server, c: Conn): nat {
    (if c in s.table.armed then 1 else 0) + EventCount(s.batch, c) + QueueCount(s.pool.queue, c)
    + JobCount(s.pool.workers, c) + (if c in s.table.dropped then 1 else 0)
  }

  // Reported writable only with a response, readable only without.
  predicate Matches(events: seq<Event>, c: Conn, responds: bool) {
    (Readable(c) in events ==> !responds) && (Writable(c) in events ==> responds)
  }

  // The object of an open connection holds its descriptor.
  predicate Intact(t: Table, c: Conn) {
    c in t.open ==> Descriptor(t, c) == Some(c)
  }

  predicate Owned(s: Server, c: Conn) {
    && Intact(s.table, c)
    && Holders(s, c) == (if c in s.table.open then 1 else 0)
    && (c in s.table.armed ==> (s.table.armed[c] == Out <==> c in s.table.written))
    && Matches(s.batch, c, c in s.table.written)
    && (c in s.table.written ==>
          QueueCount(s.pool.queue, c) == 0 && JobCount(s.pool.workers, c) == 0 && c !in s.table.dropped)
  }

  predicate Counted(t: Table) {
    t.users == |t.open| <= MAX_FD
  }

  ghost predicate Safe(s: Server) {
    && Inv(s.pool) && |s.pool.appenders| == 1
    && Counted(s.table)
    && forall c :: Owned(s, c)
  }

  lemma {:induction false} DeliverCounts(armed: map<Conn, Interest>, events: seq<Event>, c: Conn, responds: bool)
    requires CanDeliver(armed, events) && (c in armed ==> (armed[c] == Out <==> responds))
    ensures var left := Disarmed(armed, events);
            && (if c in left then 1 else 0) + EventCount(events, c) == (if c in armed then 1 else 0)
            && (c in left ==> c in armed && left[c] == armed[c])
    ensures Matches(events, c, responds)
  {
    if events != [] {
      DeliverCounts(if events[0].NewClient? then armed else armed - {events[0].conn}, events[1..], c, responds);
      assert events == [events[0]] + events[1..];
    }
  }

  lemma DeliverOwned(s: Server, events: seq<Event>, c: Conn)
    requires Owned(s, c) && Possible(s, Deliver(events))
    ensures Owned(After(s, Deliver(events)), c)
  {
    DeliverCounts(s.table.armed, events, c, c in s.table.written);
  }

  lemma {:induction false} CountedIfThere(events: seq<Event>, c: Conn)
    requires EventCount(events, c) == 0
    ensures Readable(c) !in events && Writable(c) !in events && Hangup(c) !in events
  {
    if events != [] {
      CountedIfThere(events[1..], c);
      assert events == [events[0]] + events[1..];
    }
  }

  lemma {:induction false} QueuePush(queue: seq<Conn>, d: Conn, c: Conn)
    ensures QueueCount(queue + [d], c) == QueueCount(queue, c) + if d == c then 1 else 0
  {
    if queue == [] {
      assert queue + [d] == [d];
    } else {
      assert (queue + [d])[1..] == queue[1..] + [d];
      QueuePush(queue[1..], d, c);
    }
  }

  // The connection a move clears, if any.
  function Cleared(s: Server, m: Move): Option<Conn> {
    if !m.Handle? || s.batch == [] then None
    else match s.batch[0]
      case NewClient => if s.table.users >= MAX_FD then None else Some(m.reply.accepted)
      case Writable(c) =>
        if c !in s.table.written || (m.reply.sent == Done && m.reply.linger) then Some(c) else None
      case _ => None
  }

  // The move clears a connection whose neighbour is open.
  predicate Overruns(s: Server, m: Move) {
    match Cleared(s, m)
    case None => false
    case Some(c) => c + 1 in s.table.open
  }

  // An event's connection is open and its object holds its descriptor.
  lemma EventIntact(s: Server)
    requires s.batch != [] && !s.batch[0].NewClient? && Owned(s, s.batch[0].conn)
    ensures s.batch[0].conn in s.table.open && Descriptor(s.table, s.batch[0].conn) == Some(s.batch[0].conn)
  {
  }

  lemma HandleOwned(s: Server, reply: Reply, c: Conn)
    requires Owned(s, c) && Possible(s, Handle(reply)) && !Overruns(s, Handle(reply))
    requires !s.batch[0].NewClient? ==> Owned(s, s.batch[0].conn)
    ensures Owned(After(s, Handle(reply)), c)
  {
    hide JobCount, QueueCount;
    var e := s.batch[0];
    assert s.batch == [e] + s.batch[1..];
    if !e.NewClient? {
      EventIntact(s);
      QueuePush(s.pool.queue, e.conn, c);
    }
    if (!e.NewClient? && e.conn == c) || (e.NewClient? && reply.accepted == c) {
      CountedIfThere(s.batch[1..], c);
    }
  }

  lemma {:induction false} RunningCounts(ws: seq<Worker<Conn>>, w: nat)
    requires w < |ws| && ws[w].Running?
    ensures JobCount(ws, ws[w].job) > 0
  {
    if w > 0 {
      RunningCounts(ws[1..], w - 1);
    }
  }

  lemma QueueOwned(s: Server, m: Move, c: Conn)
    requires Owned(s, c) && Possible(s, m) && (m.PostJob? || m.WakeWorker? || m.TakeJob?)
    requires m.TakeJob? ==> s.pool.queue != []
    ensures Owned(After(s, m), c)
  {
    hide EventCount, JobCount, Matches;
    match m
    case PostJob =>
    case WakeWorker(w) =>
      JobUpdate(s.pool.workers, w, Woken, c);
    case TakeJob(w) =>
      JobUpdate(s.pool.workers, w, Running(s.pool.queue[0]), c);
  }

  lemma FinishOwned(s: Server, w: nat, result: Result, c: Conn)
    requires Possible(s, FinishJob(w, result)) && Owned(s, c) && Owned(s, s.pool.workers[w].job)
    ensures Owned(After(s, FinishJob(w, result)), c)
    ensures result != WriteRefused
  {
    hide EventCount, JobCount, QueueCount;
    var job := s.pool.workers[w].job;
    RunningCounts(s.pool.workers, w);
    JobUpdate(s.pool.workers, w, Waiting, c);
    if c == job {
      CountedIfThere(s.batch, c);
    }
  }

  // The pool only ever takes a step of its own kind.
  lemma PoolSafe(s: Server, m: Move)
    requires Inv(s.pool) && |s.pool.appenders| == 1 && Possible(s, m)
    ensures Inv(After(s, m).pool) && |After(s, m).pool.appenders| == 1
    ensures m.TakeJob? ==> s.pool.queue != []
  {
    hide Inv, Handled, Finished, Disarmed, CanDeliver;
    match m
    case Deliver(_) =>
    case Handle(reply) =>
      var e := s.batch[0];
      if e.Readable? && reply.readOk {
        StepInv(s.pool, if HasRoom(s.pool.queue, s.pool.max) then Push(0, e.conn) else Refuse(0, e.conn));
      }
    case PostJob => StepInv(s.pool, Post(0));
    case WakeWorker(w) => StepInv(s.pool, Wake(w));
    case TakeJob(w) => StepInv(s.pool, Take(w));
    case FinishJob(w, _) => StepInv(s.pool, Finish(w));
  }

  lemma ClosedCounted(t: Table, c: Conn)
    requires Counted(t) && c in t.open && Intact(t, c)
    ensures Counted(Closed(t, c))
  {
  }

  lemma HandledCounted(t: Table, e: Event, reply: Reply, room: bool)
    requires Counted(t)
    requires if e.NewClient? then reply.accepted !in t.open else e.conn in t.open && Intact(t, e.conn)
    ensures Counted(Handled(t, e, reply, room))
  {
    hide Closed;
    if !e.NewClient? {
      ClosedCounted(t, e.conn);
    }
  }

  lemma FinishedCounted(t: Table, c: Conn, result: Result)
    requires Counted(t) && c in t.open && Intact(t, c)
    ensures Counted(Finished(t, c, result))
  {
    ClosedCounted(t, c);
  }

  lemma UsersSafe(s: Server, m: Move)
    requires Safe(s) && Possible(s, m)
    ensures Counted(After(s, m).table)
  {
    hide Disarmed, CanDeliver, Apply, HasRoom, Handled, Finished, Inv;
    match m
    case Handle(reply) =>
      if !s.batch[0].NewClient? {
        assert Owned(s, s.batch[0].conn);
        EventIntact(s);
      }
      HandledCounted(s.table, s.batch[0], reply, HasRoom(s.pool.queue, s.pool.max));
    case FinishJob(w, result) =>
      assert Owned(s, s.pool.workers[w].job);
      RunningCounts(s.pool.workers, w);
      FinishedCounted(s.table, s.pool.workers[w].job, result);
    case _ =>
  }

  lemma MoveSafe(s: Server, m: Move)
    requires Safe(s) && Possible(s, m) && !Overruns(s, m)
    ensures Safe(After(s, m))
  {
    hide Inv, Owned, After, Overruns;
    PoolSafe(s, m);
    UsersSafe(s, m);
    forall c ensures Owned(After(s, m), c) {
      assert Owned(s, c);
      match m
      case Deliver(events) => DeliverOwned(s, events, c);
      case Handle(reply) =>
        assert !s.batch[0].NewClient? ==> Owned(s, s.batch[0].conn);
        HandleOwned(s, reply, c);
      case FinishJob(w, result) =>
        assert Owned(s, s.pool.workers[w].job);
        FinishOwned(s, w, result, c);
      case _ => QueueOwned(s, m, c);
    }
  }

  // Clearing a connection whose neighbour is open leaves the neighbour's object with
  // another descriptor.
  lemma OverrunBreaks(s: Server, m: Move)
    requires Possible(s, m) && Overruns(s, m)
    ensures var c := Cleared(s, m).value + 1;
            c in After(s, m).table.open && Descriptor(After(s, m).table, c) == Some(0) && !Intact(After(s, m).table, c)
  {
    hide Apply, CanDeliver, Disarmed;
  }

  lemma NotIntact(s: Server, c: Conn)
    requires !Intact(s.table, c)
    ensures !Safe(s)
  {
    hide Inv;
    assert !Owned(s, c);
  }

  // A move keeps everything in order if and only if it does not clear a connection whose
  // neighbour is open.
  lemma MoveSafeExact(s: Server, m: Move)
    requires Safe(s) && Possible(s, m)
    ensures Safe(After(s, m)) <==> !Overruns(s, m)
  {
    hide Inv, Counted, Owned, After, Possible;
    if Overruns(s, m) {
      OverrunBreaks(s, m);
      NotIntact(After(s, m), Cleared(s, m).value + 1);
    } else {
      MoveSafe(s, m);
    }
  }

  // ---- Whole runs ---------------------------------------------------------------------------------------------

  function Boot(max: nat, workers: nat): Server {
    Server(EMPTY, [], Start(max, 1, workers))
  }

  predicate Moves(s: Server, m: Move, t: Server) {
    Possible(s, m) && t == After(s, m)
  }

  ghost predicate IsRun(states: seq<Server>, moves: seq<Move>, max: nat, workers: nat) {
    && |states| == |moves| + 1 && states[0] == Boot(max, workers)
    && forall i :: 0 <= i < |moves| ==> Moves(states[i], moves[i], states[i + 1])
  }

  lemma BootSafe(max: nat, workers: nat)
    ensures Safe(Boot(max, workers))
  {
    StartInv<Conn>(max, 1, workers);
    forall c ensures Owned(Boot(max, workers), c) {
      NoneRunning(workers, c);
    }
  }

  ghost predicate Clean(states: seq<Server>, moves: seq<Move>, n: nat)
    requires n <= |moves| < |states|
  {
    forall i :: 0 <= i < n ==> !Overruns(states[i], moves[i])
  }

  // As long as no move clears a connection whose neighbour is open, every state is safe:
  // each open connection has exactly one holder.
  lemma {:induction false} RunSafe(states: seq<Server>, moves: seq<Move>, max: nat, workers: nat, i: nat)
    requires IsRun(states, moves, max, workers) && i < |states| && Clean(states, moves, i)
    ensures Safe(states[i])
  {
    hide Safe, Possible, After, Overruns;
    if i == 0 {
      BootSafe(max, workers);
    } else {
      RunSafe(states, moves, max, workers, i - 1);
      assert Moves(states[i - 1], moves[i - 1], states[i]);
      MoveSafe(states[i - 1], moves[i - 1]);
    }
  }

  // And only that long.
  lemma {:induction false} RunSafeExact(states: seq<Server>, moves: seq<Move>, max: nat, workers: nat)
    requires IsRun(states, moves, max, workers)
    ensures (forall i :: 0 <= i < |states| ==> Safe(states[i])) <==> Clean(states, moves, |moves|)
  {
    hide Safe, Possible, After, Overruns;
    if Clean(states, moves, |moves|) {
      forall i | 0 <= i < |states| ensures Safe(states[i]) {
        RunSafe(states, moves, max, workers, i);
      }
    }
    if forall i :: 0 <= i < |states| ==> Safe(states[i]) {
      forall i | 0 <= i < |moves| ensures !Overruns(states[i], moves[i]) {
        assert Moves(states[i], moves[i], states[i + 1]);
        MoveSafeExact(states[i], moves[i]);
      }
    }
  }

  // ---- What safety gives ------------------------------------------------------------------------------------------

  lemma {:induction false} RunningTwice(ws: seq<Worker<Conn>>, v: nat, w: nat)
    requires v < w < |ws| && ws[v].Running? && ws[w] == ws[v]
    ensures JobCount(ws, ws[v].job) >= 2
  {
    if v > 0 {
      RunningTwice(ws[1..], v - 1, w - 1);
    } else {
      RunningCounts(ws[1..], w - 1);
    }
  }

  lemma {:induction false} QueuedCounts(queue: seq<Conn>, i: nat)
    requires i < |queue|
    ensures QueueCount(queue, queue[i]) > 0
  {
    if i > 0 {
      QueuedCounts(queue[1..], i - 1);
    }
  }

  lemma {:induction false} QueuedTwice(queue: seq<Conn>, i: nat, j: nat)
    requires i < j < |queue| && queue[i] == queue[j]
    ensures QueueCount(queue, queue[i]) >= 2
  {
    if i > 0 {
      QueuedTwice(queue[1..], i - 1, j - 1);
    } else {
      QueuedCounts(queue[1..], j - 1);
    }
  }

  // No connection is worked on by two workers, or queued twice, or queued while worked
  // on; and while any of that happens the kernel reports nothing about it.
  lemma Exclusive(s: Server, v: nat)
    requires Safe(s) && v < |s.pool.workers| && s.pool.workers[v].Running?
    ensures var c := s.pool.workers[v].job;
            && c in s.table.open && c !in s.table.armed && c !in s.pool.queue && c !in s.table.dropped
            && Readable(c) !in s.batch && Writable(c) !in s.batch && Hangup(c) !in s.batch
            && forall w :: 0 <= w < |s.pool.workers| && w != v ==> s.pool.workers[w] != s.pool.workers[v]
  {
    hide Inv;
    var ws, c := s.pool.workers, s.pool.workers[v].job;
    assert Owned(s, c);
    RunningCounts(ws, v);
    CountedIfThere(s.batch, c);
    forall i | 0 <= i < |s.pool.queue| ensures s.pool.queue[i] != c {
      QueuedCounts(s.pool.queue, i);
    }
    forall w | 0 <= w < |ws| && w != v ensures ws[w] != ws[v] {
      if ws[w] == ws[v] {
        RunningTwice(ws, if v < w then v else w, if v < w then w else v);
      }
    }
  }

  lemma QueuedOnce(s: Server, i: nat, j: nat)
    requires Safe(s) && i < j < |s.pool.queue|
    ensures s.pool.queue[i] != s.pool.queue[j] && s.pool.queue[i] in s.table.open
  {
    hide Inv, JobCount, EventCount;
    assert Owned(s, s.pool.queue[i]);
    QueuedCounts(s.pool.queue, i);
    if s.pool.queue[i] == s.pool.queue[j] {
      QueuedTwice(s.pool.queue, i, j);
    }
  }

  // Workers always start from an empty write buffer, so a refused response, the one case
  // in which a worker would close a connection, does not occur.
  lemma WorkersNeverClose(s: Server, w: nat)
    requires Safe(s) && w < |s.pool.workers| && s.pool.workers[w].Running?
    ensures s.pool.workers[w].job !in s.table.written
    ensures !Possible(s, FinishJob(w, WriteRefused))
  {
    assert Owned(s, s.pool.workers[w].job);
    RunningCounts(s.pool.workers, w);
  }

  // Only the main thread opens and closes, so the user count needs no lock.
  lemma OnlyMainCloses(s: Server, m: Move)
    requires Safe(s) && Possible(s, m) && !m.Handle?
    ensures After(s, m).table.open == s.table.open && After(s, m).table.users == s.table.users
  {
    hide Safe, CanDeliver, Disarmed;
    if m.FinishJob? {
      WorkersNeverClose(s, m.w);
    }
  }

  lemma {:induction false} ThereCounts(events: seq<Event>, e: Event)
    requires e in events && !e.NewClient?
    ensures EventCount(events, e.conn) > 0
  {
    if events[0] != e {
      ThereCounts(events[1..], e);
    }
  }

  // An event belongs to an open connection, and a connection reported writable has a
  // response to send: the branch of write for nothing to send is never taken.
  lemma EventsAreLive(s: Server, e: Event)
    requires Safe(s) && e in s.batch && !e.NewClient?
    ensures e.conn in s.table.open && (e.Writable? ==> e.conn in s.table.written)
  {
    assert Owned(s, e.conn);
    ThereCounts(s.batch, e);
  }

  // ---- What each event leads to ------------------------------------------------------------------------------------

  // The reply to the event calls for closing its connection.
  predicate Ends(e: Event, reply: Reply) {
    match e
    case NewClient => false
    case Hangup(_) => true
    case Readable(_) => !reply.readOk
    case Writable(_) => reply.sent == Failed || (reply.sent == Done && !reply.linger)
  }

  // A connection that hangs up, cannot be read from, cannot be written to, or has had its
  // whole response without being kept is closed and counted out, and that is all.
  lemma EndsClosed(s: Server, reply: Reply)
    requires Safe(s) && Possible(s, Handle(reply))
    requires match s.batch[0]
             case NewClient => false
             case Hangup(_) => true
             case Readable(_) => !reply.readOk
             case Writable(_) => reply.sent == Failed || (reply.sent == Done && !reply.linger)
    ensures var (c, t) := (s.batch[0].conn, After(s, Handle(reply)).table);
            && c in s.table.open && c !in t.open && c !in t.armed && t.users == s.table.users - 1
            && t.open == s.table.open - {c} && t.armed == s.table.armed
            && t.dropped == s.table.dropped && t.written == s.table.written
            && (forall d :: d != c ==> (d in t.sock <==> d in s.table.sock))
            && (forall d :: d in t.sock ==> t.sock[d] == s.table.sock[d])
            && After(s, Handle(reply)).pool == s.pool
  {
    hide Inv;
    var e := s.batch[0];
    assert Owned(s, e.conn);
    EventIntact(s);
    EventsAreLive(s, e);
    ThereCounts(s.batch, e);
    assert s.table.armed - {e.conn} == s.table.armed;
  }

  // A response that could not be sent yet waits for the next chance, and one that was
  // sent on a connection to be kept makes way for the next request.
  lemma WriteGoesOn(s: Server, reply: Reply)
    requires Safe(s) && Possible(s, Handle(reply)) && s.batch[0].Writable?
    requires reply.sent == Again || (reply.sent == Done && reply.linger)
    ensures var (c, t) := (s.batch[0].conn, After(s, Handle(reply)).table);
            && c in t.open && t.open == s.table.open && t.users == s.table.users && t.dropped == s.table.dropped
            && (if reply.sent == Again
                then t.armed == s.table.armed[c := Out] && c in t.written && t.written == s.table.written
                     && t.sock == s.table.sock
                else t.armed == s.table.armed[c := In] && t.written == s.table.written - {c}
                     && t.sock == s.table.sock[c + 1 := 0])
            && After(s, Handle(reply)).pool == s.pool
  {
    hide Inv;
    var e := s.batch[0];
    assert Owned(s, e.conn);
    EventIntact(s);
    EventsAreLive(s, e);
  }

  // What was read is queued, with its connection changed in nothing, unless the queue is
  // full; then the connection is let go of.
  lemma ReadGoesOn(s: Server, reply: Reply)
    requires Safe(s) && Possible(s, Handle(reply)) && s.batch[0].Readable? && reply.readOk
    ensures var (c, t) := (s.batch[0].conn, After(s, Handle(reply)));
            if |s.pool.queue| <= s.pool.max
            then t.table == s.table && t.pool.queue == s.pool.queue + [c] && t.pool.appenders == [Pushed]
            else t.table == s.table.(dropped := s.table.dropped + {c}) && t.pool == s.pool
  {
  }

  // A new client is watched for its request, with nothing to write, unless there are too
  // many already.
  lemma ClientComesIn(s: Server, reply: Reply)
    requires Safe(s) && Possible(s, Handle(reply)) && s.batch[0].NewClient?
    ensures var (c, t) := (reply.accepted, After(s, Handle(reply)).table);
            if s.table.users >= 65535 then t == s.table
            else
              && t.open == s.table.open + {c} && t.users == s.table.users + 1 && t.armed == s.table.armed[c := In]
              && t.written == s.table.written - {c} && t.dropped == s.table.dropped
              && t.sock == s.table.sock[c := c][c + 1 := 0]
  {
  }

  // A worker hands its connection back to be watched, for more of the request or for a
  // chance to write the response.
  lemma WorkerHandsBack(s: Server, w: nat, result: Result)
    requires Safe(s) && Possible(s, FinishJob(w, result))
    ensures result != WriteRefused
    ensures var (c, t) := (s.pool.workers[w].job, After(s, FinishJob(w, result)).table);
            && t.open == s.table.open && t.users == s.table.users && t.dropped == s.table.dropped && t.sock == s.table.sock
            && (if result == NeedMore then t.armed == s.table.armed[c := In] && t.written == s.table.written
                else t.armed == s.table.armed[c := Out] && t.written == s.table.written + {c})
  {
    var c := s.pool.workers[w].job;
    assert Owned(s, c);
    RunningCounts(s.pool.workers, w);
  }

  lemma DroppedStays(s: Server, m: Move, c: Conn)
    requires Possible(s, m) && c in s.table.dropped
    ensures c in After(s, m).table.dropped
  {
  }

  // A connection turned away by a full queue stays open and is never heard of again.
  lemma {:induction false} DroppedForGood(
    states: seq<Server>, moves: seq<Move>, max: nat, workers: nat, i: nat, j: nat, c: Conn)
    requires IsRun(states, moves, max, workers) && i <= j < |states| && Clean(states, moves, j)
    requires c in states[i].table.dropped
    ensures c in states[j].table.dropped && c in states[j].table.open && c !in states[j].table.armed
    ensures c !in states[j].pool.queue
    ensures forall w :: 0 <= w < |states[j].pool.workers| ==> states[j].pool.workers[w] != Running(c)
  {
    if i < j {
      DroppedForGood(states, moves, max, workers, i, j - 1, c);
      assert Moves(states[j - 1], moves[j - 1], states[j]);
      DroppedStays(states[j - 1], moves[j - 1], c);
    }
    RunSafe(states, moves, max, workers, j);
    DroppedAlone(states[j], c);
  }

  lemma DroppedAlone(s: Server, c: Conn)
    requires Safe(s) && c in s.table.dropped
    ensures c in s.table.open && c !in s.table.armed && c !in s.pool.queue
    ensures forall w :: 0 <= w < |s.pool.workers| ==> s.pool.workers[w] != Running(c)
  {
    assert Owned(s, c);
    forall i | 0 <= i < |s.pool.queue| ensures s.pool.queue[i] != c {
      QueuedCounts(s.pool.queue, i);
    }
    forall w | 0 <= w < |s.pool.workers| ensures s.pool.workers[w] != Running(c) {
      if s.pool.workers[w].Running? {
        RunningCounts(s.pool.workers, w);
      }
    }
  }

  lemma {:induction false} FindWoken(ws: seq<Worker<Conn>>) returns (w: nat)
    requires WokenCount(ws) > 0
    ensures w < |ws| && ws[w].Woken?
  {
    w := 0;
    if !ws[0].Woken? {
      w := FindWoken(ws[1..]);
      w := w + 1;
    }
  }

  lemma {:induction false} FindRunning(ws: seq<Worker<Conn>>, c: Conn) returns (w: nat)
    requires JobCount(ws, c) > 0
    ensures w < |ws| && ws[w] == Running(c)
  {
    w := 0;
    if ws[0] != Running(c) {
      w := FindRunning(ws[1..], c);
      w := w + 1;
    }
  }

  // A queue that no appender is still posting for lets some worker go on.
  lemma QueueGoesOn(p: Pool<Conn>) returns (m: Move)
    requires Inv(p) && |p.appenders| == 1 && p.appenders[0] == Outside && p.queue != [] && |p.workers| > 0
    ensures m.WakeWorker? || m.TakeJob? || m.FinishJob?
    ensures m.WakeWorker? ==> Enabled(p, Wake(m.w))
    ensures m.TakeJob? ==> Enabled(p, Take(m.w))
    ensures m.FinishJob? ==> Enabled(p, Finish(m.w)) && m.result == NeedMore
  {
    assert PushedCount(p.appenders[1..]) == 0;
    match p.workers[0]
    case Waiting =>
      if p.permits > 0 {
        return WakeWorker(0);
      }
      var w := FindWoken(p.workers);
      return TakeJob(w);
    case Woken => return TakeJob(0);
    case Running(_) => return FinishJob(0, NeedMore);
  }

  // ---- No connection is forgotten ------------------------------------------------------------------------------------

  // t comes of s by these moves, none of which clears a connection whose neighbour is open.
  ghost predicate Reaches(s: Server, moves: seq<Move>, t: Server)
    decreases |moves|
  {
    if moves == [] then t == s
    else Possible(s, moves[0]) && !Overruns(s, moves[0]) && Reaches(After(s, moves[0]), moves[1..], t)
  }

  function Load(ws: seq<Worker<Conn>>): nat {
    if ws == [] then 0
    else (match ws[0] case Woken => 0 case Waiting => 1 case Running(_) => 2) + Load(ws[1..])
  }

  // What there is to do without the kernel.
  function Todo(s: Server): nat {
    4 * |s.batch| + (if MainFree(s) then 0 else 1) + 3 * |s.pool.queue| + Load(s.pool.workers)
  }

  lemma {:induction false} LoadUpdate(ws: seq<Worker<Conn>>, i: nat, x: Worker<Conn>)
    requires i < |ws|
    ensures Load(ws[i := x]) + (match ws[i] case Woken => 0 case Waiting => 1 case Running(_) => 2)
         == Load(ws) + match x case Woken => 0 case Waiting => 1 case Running(_) => 2
  {
    if i > 0 {
      assert ws[i := x][1..] == ws[1..][i - 1 := x];
      LoadUpdate(ws[1..], i - 1, x);
    } else {
      assert ws[i := x][1..] == ws[1..];
    }
  }

  lemma Unused(open: set<Conn>) returns (d: Conn)
    ensures forall c :: c in open ==> c < d
  {
    d := 0;
    var rest := open;
    while rest != {}
      invariant rest <= open && forall c :: c in open && c !in rest ==> c < d
      decreases rest
    {
      var c :| c in rest;
      rest := rest - {c};
      d := if c < d then d else c + 1;
    }
  }

  // A move of the main thread or a worker that leaves less to do.
  ghost predicate Helps(s: Server, m: Move, c: Conn) {
    && Possible(s, m) && !m.Deliver? && !Overruns(s, m)
    && Todo(After(s, m)) < Todo(s) && |After(s, m).pool.workers| == |s.pool.workers|
    && c !in After(s, m).table.dropped
  }

  lemma HandleHelps(s: Server, c: Conn) returns (m: Move)
    requires Safe(s) && MainFree(s) && s.batch != [] && c !in s.table.dropped
    ensures Helps(s, m, c)
  {
    hide Inv, Load;
    var d := Unused(s.table.open);
    m := Handle(Reply(d, false, Again, false));
    if !s.batch[0].NewClient? {
      EventsAreLive(s, s.batch[0]);
    }
  }

  lemma WorkerHelps(s: Server, c: Conn, m: Move)
    requires Possible(s, m) && c !in s.table.dropped
    requires m.WakeWorker? || (m.TakeJob? && s.pool.queue != []) || (m.FinishJob? && m.result == NeedMore)
    ensures Helps(s, m, c)
  {
    hide CanDeliver;
    match m
    case WakeWorker(w) => LoadUpdate(s.pool.workers, w, Woken);
    case TakeJob(w) => LoadUpdate(s.pool.workers, w, Running(s.pool.queue[0]));
    case FinishJob(w, _) => LoadUpdate(s.pool.workers, w, Waiting);
  }

  lemma SomeMoveHelps(s: Server, c: Conn) returns (m: Move)
    requires Safe(s) && |s.pool.workers| > 0 && c in s.table.open && c !in s.table.armed && c !in s.table.dropped
    ensures Helps(s, m, c)
  {
    hide HasRoom, CanDeliver, PushedCount, WokenCount, Load, Helps;
    assert Owned(s, c);
    if s.pool.appenders[0] == Pushed {
      m := PostJob;
      PostHelps(s, c);
    } else if s.batch != [] {
      m := HandleHelps(s, c);
    } else if JobCount(s.pool.workers, c) > 0 {
      var w := FindRunning(s.pool.workers, c);
      m := FinishJob(w, NeedMore);
      WorkerHelps(s, c, m);
    } else {
      assert s.pool.queue != [];
      m := QueueGoesOn(s.pool);
      WorkerHelps(s, c, m);
    }
  }

  lemma PostHelps(s: Server, c: Conn)
    requires |s.pool.appenders| == 1 && s.pool.appenders[0] == Pushed && c !in s.table.dropped
    ensures Helps(s, PostJob, c)
  {
    hide Load;
  }

  // From any safe state the main thread and the workers can by themselves come to where
  // an open connection that was not turned away is watched by the kernel or closed; and
  // the longest way there is what there is to do.
  lemma {:induction false} NotForgotten(s: Server, c: Conn) returns (moves: seq<Move>, t: Server)
    requires Safe(s) && |s.pool.workers| > 0 && c in s.table.open && c !in s.table.dropped
    ensures Reaches(s, moves, t) && Safe(t) && (c in t.table.armed || c !in t.table.open)
    ensures (forall m :: m in moves ==> !m.Deliver?) && |moves| <= Todo(s)
    decreases Todo(s)
  {
    hide Safe, Possible, After, Overruns, Todo;
    moves, t := [], s;
    if c !in s.table.armed {
      var m := SomeMoveHelps(s, c);
      MoveSafe(s, m);
      var u := After(s, m);
      var rest := [];
      t := u;
      if c in u.table.open {
        rest, t := NotForgotten(u, c);
      }
      moves := [m] + rest;
      assert moves[0] == m && moves[1..] == rest;
      assert Reaches(u, rest, t);
    }
  }

  // ---- What can happen -----------------------------------------------------------------------------------------------

  lemma OneDelivered(armed: map<Conn, Interest>, e: Event)
    requires e.NewClient? || (e.Readable? && e.conn in armed && armed[e.conn] == In)
    ensures CanDeliver(armed, [e])
    ensures Disarmed(armed, [e]) == if e.NewClient? then armed else armed - {e.conn}
  {
    assert [e][1..] == [];
    var left := if e.NewClient? then armed else armed - {e.conn};
    assert CanDeliver(left, []) && Disarmed(left, []) == left;
  }

  // The kernel reports one event and the main thread handles it.
  lemma Reported(s: Server, e: Event, reply: Reply) returns (states: seq<Server>, moves: seq<Move>)
    requires MainFree(s) && s.batch == []
    requires e.NewClient? || (e.Readable? && e.conn in s.table.armed && s.table.armed[e.conn] == In)
    requires e.NewClient? ==> reply.accepted !in s.table.open
    ensures |states| == 2 && moves == [Deliver([e]), Handle(reply)]
    ensures Moves(s, moves[0], states[0]) && Moves(states[0], moves[1], states[1])
    ensures states[0].batch == [e] && states[0].table.open == s.table.open
    ensures states[0].table.users == s.table.users && states[0].table.written == s.table.written
    ensures var t := if e.NewClient? then s.table else s.table.(armed := s.table.armed - {e.conn});
            states[1] == Server(Handled(t, e, reply, HasRoom(s.pool.queue, s.pool.max)), [], PoolAfter(s.pool, e, reply))
  {
    hide CanDeliver, Disarmed, Handled, PoolAfter;
    OneDelivered(s.table.armed, e);
    moves := [Deliver([e]), Handle(reply)];
    var t := After(s, Deliver([e]));
    states := [t, After(t, Handle(reply))];
    assert t.batch[1..] == [];
  }

  const SIX := Table({6}, 1, map[6 := In], {}, {}, map[6 := 6, 7 := 0])
  const FIVE_AND_SIX := Table({5, 6}, 2, map[5 := In, 6 := In], {}, {}, map[5 := 5, 6 := 0, 7 := 0])
  const SIX_LOST := Table({5, 6}, 1, map[5 := In], {}, {}, map[5 := 5, 7 := 0])

  lemma OverrunTables(room: bool)
    ensures Handled(EMPTY, NewClient, Reply(6, true, Again, true), room) == SIX
    ensures Handled(SIX, NewClient, Reply(5, true, Again, true), room) == FIVE_AND_SIX
  {
  }

  lemma LostTable(room: bool)
    ensures Handled(FIVE_AND_SIX.(armed := FIVE_AND_SIX.armed - {6}), Readable(6), Reply(0, false, Again, false), room)
         == SIX_LOST
  {
    assert FIVE_AND_SIX.armed - {6} == map[5 := In];
  }

  // Two connections come in, the second on the descriptor below the first; the first then
  // sends something. Its object, told to close, closes descriptor 0 instead and is never
  // heard of again.
  lemma OverrunHappens(max: nat, workers: nat) returns (states: seq<Server>, moves: seq<Move>)
    ensures IsRun(states, moves, max, workers) && |moves| == 6 && Overruns(states[3], moves[3])
    ensures Forgotten(states[6], 6) && states[6].table == SIX_LOST
  {
    hide Possible, After, Start, PoolAfter, Handled, JobCount;
    var s0 := Boot(max, workers);
    StartFree(max, workers, 6);
    OverrunTables(true);
    LostTable(true);
    var a, ma := Reported(s0, NewClient, Reply(6, true, Again, true));
    PoolKept(s0.pool, NewClient, ma[1].reply);
    var b, mb := Reported(a[1], NewClient, Reply(5, true, Again, true));
    PoolKept(a[1].pool, NewClient, mb[1].reply);
    var c, mc := Reported(b[1], Readable(6), Reply(0, false, Again, false));
    PoolKept(b[1].pool, Readable(6), mc[1].reply);
    states := [s0, a[0], a[1], b[0], b[1], c[0], c[1]];
    moves := [ma[0], ma[1], mb[0], mb[1], mc[0], mc[1]];
  }

  lemma StartFree(max: nat, workers: nat, c: Conn)
    ensures var s := Boot(max, workers);
            && MainFree(s) && s.pool.queue == [] && s.pool.max == max && s.pool.permits == 0
            && JobCount(s.pool.workers, c) == 0
  {
    NoneRunning(workers, c);
  }

  lemma PoolKept(p: Pool<Conn>, e: Event, reply: Reply)
    requires |p.appenders| == 1 && p.appenders[0] == Outside && !(e.Readable? && reply.readOk)
    ensures PoolAfter(p, e, reply) == p
  {
  }

  // Open, but nowhere, and no object has its descriptor.
  predicate Forgotten(s: Server, c: Conn) {
    c in s.table.open && c > 0 && Holders(s, c) == 0 && forall d :: d in s.table.sock ==> s.table.sock[d] != c
  }

  lemma {:induction false} DisarmedLess(armed: map<Conn, Interest>, events: seq<Event>, c: Conn)
    requires CanDeliver(armed, events) && c !in armed
    ensures c !in Disarmed(armed, events) && EventCount(events, c) == 0
  {
    if events != [] {
      DisarmedLess(if events[0].NewClient? then armed else armed - {events[0].conn}, events[1..], c);
    }
  }

  lemma ForgottenHandle(s: Server, reply: Reply, c: Conn)
    requires Forgotten(s, c) && Possible(s, Handle(reply))
    ensures Forgotten(After(s, Handle(reply)), c)
  {
    hide JobCount, QueueCount;
    assert s.batch == [s.batch[0]] + s.batch[1..];
    if !s.batch[0].NewClient? {
      QueuePush(s.pool.queue, s.batch[0].conn, c);
    }
  }

  // It stays so, whatever happens.
  lemma ForgottenStays(s: Server, m: Move, c: Conn)
    requires Forgotten(s, c) && Possible(s, m)
    ensures Forgotten(After(s, m), c)
  {
    hide JobCount, QueueCount, Handled;
    match m
    case Deliver(events) => DisarmedLess(s.table.armed, events, c);
    case Handle(reply) => ForgottenHandle(s, reply, c);
    case PostJob =>
    case WakeWorker(w) => JobUpdate(s.pool.workers, w, Woken, c);
    case TakeJob(w) =>
      if s.pool.queue != [] {
        QueueRest(s.pool.queue, c);
        JobUpdate(s.pool.workers, w, Running(s.pool.queue[0]), c);
      } else {
        JobUpdate(s.pool.workers, w, Waiting, c);
      }
    case FinishJob(w, _) => JobUpdate(s.pool.workers, w, Waiting, c);
  }

  lemma {:induction false} ReachesJoin(s: Server, a: seq<Move>, t: Server, b: seq<Move>, u: Server)
    requires Reaches(s, a, t) && Reaches(t, b, u)
    ensures Reaches(s, a + b, u)
    decreases |a|
  {
    hide Possible, After, Overruns;
    if a == [] {
      assert a + b == b;
    } else {
      assert (a + b)[0] == a[0] && (a + b)[1..] == a[1..] + b;
      ReachesJoin(After(s, a[0]), a[1..], t, b, u);
    }
  }

  lemma {:induction false} ReachesStates(s: Server, moves: seq<Move>, t: Server) returns (states: seq<Server>)
    requires Reaches(s, moves, t)
    ensures |states| == |moves| + 1 && states[0] == s && states[|moves|] == t && Clean(states, moves, |moves|)
    ensures forall i :: 0 <= i < |moves| ==> Moves(states[i], moves[i], states[i + 1])
    decreases |moves|
  {
    hide Possible, After, Overruns;
    states := [s];
    if moves != [] {
      var rest := ReachesStates(After(s, moves[0]), moves[1..], t);
      states := [s] + rest;
      forall i | 0 <= i < |moves|
        ensures Moves(states[i], moves[i], states[i + 1]) && !Overruns(states[i], moves[i])
      {
        if i > 0 {
          assert moves[i] == moves[1..][i - 1] && states[i] == rest[i - 1] && states[i + 1] == rest[i];
        }
      }
    }
  }

  // A client comes in, on a descriptor whose neighbour is not open.
  lemma ComesIn(s: Server, c: Conn) returns (moves: seq<Move>, t: Server)
    requires MainFree(s) && s.batch == [] && c !in s.table.open && c + 1 !in s.table.open && s.table.users < MAX_FD
    ensures Reaches(s, moves, t) && t == s.(table := Opened(s.table, c))
  {
    hide CanDeliver, Disarmed, Opened;
    var reply := Reply(c, true, Again, true);
    var a, m := Reported(s, NewClient, reply);
    moves, t := m, a[1];
    assert moves[1..] == [moves[1]] && moves[1..][1..] == [];
    assert Reaches(a[0], moves[1..], t);
  }

  const READ := Reply(0, true, Again, false)

  // There is something to read, and the queue has room ...
  lemma ReadIn(s: Server, c: Conn) returns (moves: seq<Move>, t: Server)
    requires MainFree(s) && s.batch == [] && HasRoom(s.pool.queue, s.pool.max)
    requires c in s.table.armed && s.table.armed[c] == In
    ensures Reaches(s, moves, t) && MainFree(t) && t.batch == [] && t.table == s.table.(armed := s.table.armed - {c})
    ensures t.pool.queue == s.pool.queue + [c] && t.pool.max == s.pool.max
  {
    hide CanDeliver, Disarmed, HasRoom;
    var a, m := Reported(s, Readable(c), READ);
    moves, t := m + [PostJob], After(a[1], PostJob);
    assert moves[1..] == [m[1], PostJob] && moves[1..][1..] == [PostJob] && moves[1..][1..][1..] == [];
    assert Reaches(a[1], [PostJob], t);
    assert Reaches(a[0], moves[1..], t);
  }

  // ... or has not.
  lemma ReadRefused(s: Server, c: Conn) returns (moves: seq<Move>, t: Server)
    requires MainFree(s) && s.batch == [] && !HasRoom(s.pool.queue, s.pool.max)
    requires c in s.table.armed && s.table.armed[c] == In
    ensures Reaches(s, moves, t) && t.table == s.table.(armed := s.table.armed - {c}, dropped := s.table.dropped + {c})
  {
    hide CanDeliver, Disarmed, HasRoom;
    var a, m := Reported(s, Readable(c), READ);
    moves, t := m, a[1];
    assert moves[1..] == [moves[1]] && moves[1..][1..] == [];
    assert Reaches(a[0], moves[1..], t);
  }

  const THREE := Table({3, 5, 7}, 3, map[3 := In, 5 := In, 7 := In], {}, {},
                       map[3 := 3, 4 := 0, 5 := 5, 6 := 0, 7 := 7, 8 := 0])

  lemma ThreeOpened()
    ensures Opened(Opened(Opened(EMPTY, 3), 5), 7) == THREE
  {
  }

  lemma ThreeComeIn(workers: nat) returns (moves: seq<Move>, t: Server)
    ensures Reaches(Boot(1, workers), moves, t) && t == Boot(1, workers).(table := THREE)
  {
    hide Reaches, Start;
    StartFree(1, workers, 7);
    ThreeOpened();
    var s := Boot(1, workers);
    var a, ta := ComesIn(s, 3);
    var b, tb := ComesIn(ta, 5);
    var c, tc := ComesIn(tb, 7);
    ReachesJoin(s, a, ta, b, tb);
    ReachesJoin(s, a + b, tb, c, tc);
    moves, t := a + b + c, tc;
  }

  // With a limit of one request and no worker at work yet, the third of three connections
  // that send something is turned away.
  lemma DropHappens(workers: nat) returns (states: seq<Server>, moves: seq<Move>)
    ensures IsRun(states, moves, 1, workers) && Clean(states, moves, |moves|)
    ensures 7 in states[|moves|].table.dropped
  {
    hide Reaches, Start, Possible, After, Overruns;
    StartFree(1, workers, 7);
    var s := Boot(1, workers);
    var a, ta := ThreeComeIn(workers);
    var b, tb := ReadIn(ta, 3);
    var c, tc := ReadIn(tb, 5);
    var d, td := ReadRefused(tc, 7);
    ReachesJoin(s, a, ta, b, tb);
    ReachesJoin(s, a + b, tb, c, tc);
    ReachesJoin(s, a + b + c, tc, d, td);
    moves := a + b + c + d;
    states := ReachesStates(s, moves, td);
  }

  lemma QueueRest(queue: seq<Conn>, c: Conn)
    requires queue != []
    ensures QueueCount(queue, c) == (if queue[0] == c then 1 else 0) + QueueCount(queue[1..], c)
  {
  }
}
