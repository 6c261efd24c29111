// A session that sends through a queue with writes that may stop short: each completion
// either goes on with the message in front or turns to the next one.
module PartialSend {
  import opened Joining

  datatype Node = Node(msg: string, cur: nat)

  // flight: the buffers of the writes outstanding; wire: the bytes put on the socket so
  // far; done and submitted: the messages popped and all those handed in; failed: a
  // write has completed with an error.
  datatype Sender = Sender(
    queue: seq<Node>, pending: bool, flight: seq<string>,
    wire: string, done: seq<string>, submitted: seq<string>, failed: bool)

  const IDLE := Sender([], false, [], "", [], [], false)

  predicate Fits(queue: seq<Node>) {
    forall i :: 0 <= i < |queue| ==> queue[i].cur <= |queue[i].msg|
  }

  function Rest(n: Node): string
    requires n.cur <= |n.msg|
  {
    n.msg[n.cur..]
  }

  function Submit(s: Sender, buf: string): Sender {
    var t := s.(queue := s.queue + [Node(buf, 0)], submitted := s.submitted + [buf]);
    if s.pending then t else t.(flight := t.flight + [buf], pending := true)
  }

  // The socket takes some bytes of an outstanding write.
  function Transfer(s: Sender, i: nat, k: nat): Sender
    requires i < |s.flight| && k <= |s.flight[i]|
  {
    s.(wire := s.wire + s.flight[i][..k], flight := s.flight[..i] + s.flight[i + 1..])
  }

  function CallBack(s: Sender, error: bool, k: nat): Sender
    requires Fits(s.queue) && (error || s.queue != [])
  {
    if error then s.(failed := true)
    else
      var front := Node(s.queue[0].msg, s.queue[0].cur + k);
      if front.cur < |front.msg| then
        s.(queue := s.queue[0 := front], flight := s.flight + [Rest(front)])
      else
        var t := s.(queue := s.queue[1..], done := s.done + [front.msg]);
        if t.queue == [] then t.(pending := false) else t.(flight := t.flight + [Rest(t.queue[0])])
  }

  // ---- The session --------------------------------------------------------------------

  class MsgNode {
    const msg: string
    const totalLen: nat := |msg|
    var curLen: nat

    constructor (msg: string)
      ensures this.msg == msg && curLen == 0
    {
      this.msg, curLen := msg, 0;
    }
  }

  class Socket {
    ghost var flight: seq<string>

    method AsyncWriteSome(buf: string)
      modifies this
      ensures flight == old(flight) + [buf]
    {
      flight := flight + [buf];
    }
  }

  function Nodes(queue: seq<MsgNode>): (r: seq<Node>)
    reads queue
    ensures |r| == |queue|
  {
    if queue == [] then [] else [Node(queue[0].msg, queue[0].curLen)] + Nodes(queue[1..])
  }

  predicate Distinct(queue: seq<MsgNode>) {
    queue == [] || (queue[0] !in queue[1..] && Distinct(queue[1..]))
  }

  lemma {:induction false} NodesAppend(queue: seq<MsgNode>, n: MsgNode)
    requires Distinct(queue) && n !in queue
    ensures Nodes(queue + [n]) == Nodes(queue) + [Node(n.msg, n.curLen)]
    ensures Distinct(queue + [n])
  {
    if queue == [] {
      assert queue + [n] == [n];
    } else {
      assert (queue + [n])[1..] == queue[1..] + [n];
      NodesAppend(queue[1..], n);
    }
  }

  lemma FitsAppend(queue: seq<Node>, msg: string)
    requires Fits(queue)
    ensures Fits(queue + [Node(msg, 0)])
  {
  }

  lemma NodesFront(queue: seq<MsgNode>)
    requires queue != []
    ensures Nodes(queue) != [] && Nodes(queue)[0] == Node(queue[0].msg, queue[0].curLen)
    ensures Nodes(queue)[1..] == Nodes(queue[1..])
    ensures Distinct(queue) ==> queue[0] !in queue[1..] && Distinct(queue[1..])
  {
  }

  lemma SameTail(queue: seq<Node>, changed: seq<Node>)
    requires queue != [] && changed != [] && queue[1..] == changed[1..]
    ensures changed == queue[0 := changed[0]]
  {
    assert queue == [queue[0]] + queue[1..] && changed == [changed[0]] + changed[1..];
  }

  lemma FitsFront(queue: seq<Node>, cur: nat)
    requires Fits(queue) && queue != []
    ensures cur <= |queue[0].msg| ==> Fits(queue[0 := Node(queue[0].msg, cur)])
    ensures Fits(queue[1..]) && (|queue| > 1 ==> queue[1].cur <= |queue[1].msg|)
  {
  }

  class Session {
    const socket: Socket
    var sendQueue: seq<MsgNode>
    var sendPending: bool
    ghost var wire: string
    ghost var done: seq<string>
    ghost var submitted: seq<string>
    ghost var failed: bool

    ghost predicate Valid()
      reads this, sendQueue
    {
      Distinct(sendQueue) && Fits(Nodes(sendQueue))
    }

    ghost function View(): Sender
      reads this, socket, sendQueue
    {
      Sender(Nodes(sendQueue), sendPending, socket.flight, wire, done, submitted, failed)
    }

    constructor (socket: Socket)
      requires socket.flight == []
      ensures Valid() && View() == IDLE && this.socket == socket
    {
      this.socket := socket;
      sendQueue, sendPending := [], false;
      wire, done, submitted, failed := "", [], [], false;
    }

    method WriteToSocketWithQueue(buf: string)
      requires Valid()
      modifies this, socket
      ensures Valid() && View() == Submit(old(View()), buf)
    {
      hide Fits, Nodes, Distinct;
      ghost var before := Nodes(sendQueue);
      var node := new MsgNode(buf);
      NodesAppend(sendQueue, node);
      FitsAppend(before, buf);
      sendQueue := sendQueue + [node];
      submitted := submitted + [buf];
      if sendPending {
        return;
      }
      socket.AsyncWriteSome(buf);
      sendPending := true;
    }

    method WriteCallBackWithQueue(error: bool, bytesTransferred: nat)
      requires Valid() && (error || sendQueue != [])
      modifies this, socket, sendQueue
      ensures Valid() && View() == CallBack(old(View()), error, bytesTransferred)
    {
      hide Fits, Nodes, Distinct;
      if error {
        failed := true;
        return;
      }
      ghost var before := Nodes(sendQueue);
      NodesFront(sendQueue);
      var front := sendQueue[0];
      FitsFront(before, front.curLen + bytesTransferred);
      front.curLen := front.curLen + bytesTransferred;
      NodesFront(sendQueue);
      if front.curLen < front.totalLen {
        SameTail(before, Nodes(sendQueue));
        socket.AsyncWriteSome(front.msg[front.curLen..]);
        return;
      }
      done := done + [front.msg];
      sendQueue := sendQueue[1..];
      if |sendQueue| == 0 {
        sendPending := false;
      } else {
        NodesFront(sendQueue);
        assert before[1] == Nodes(sendQueue)[0];
        var next := sendQueue[0];
        socket.AsyncWriteSome(next.msg[next.curLen..]);
      }
    }
  }

  // ---- What every call keeps ---------------------------------------------------------------

  function Msgs(queue: seq<Node>): seq<string> {
    if queue == [] then [] else [queue[0].msg] + Msgs(queue[1..])
  }

  // What the nodes' positions say has been sent.
  function Sent(s: Sender): string
    requires Fits(s.queue)
  {
    Concat(s.done) + if s.queue == [] then "" else s.queue[0].msg[..s.queue[0].cur]
  }

  // Until a write fails: pending, a non-empty queue and one write outstanding, of what is
  // left of the front message, all go together. Afterwards nothing is outstanding.
  ghost predicate Good(s: Sender) {
    && Fits(s.queue) && (forall i :: 0 < i < |s.queue| ==> s.queue[i].cur == 0)
    && s.submitted == s.done + Msgs(s.queue)
    && (s.pending <==> s.queue != [])
    && (if s.failed then s.flight == [] && s.queue != [] && s.wire <= Concat(s.submitted)
        else s.flight == (if s.pending then [Rest(s.queue[0])] else []) && s.wire == Sent(s))
  }

  lemma {:induction false} MsgsAppend(queue: seq<Node>, n: Node)
    ensures Msgs(queue + [n]) == Msgs(queue) + [n.msg]
  {
    if queue == [] {
      assert queue + [n] == [n];
    } else {
      assert (queue + [n])[1..] == queue[1..] + [n];
      MsgsAppend(queue[1..], n);
    }
  }

  lemma PrefixTrans(a: string, b: string, c: string)
    requires a <= b && b <= c
    ensures a <= c
  {
  }

  // The messages done and a part of the next are a prefix of all of them.
  lemma PartIsPrefix(done: seq<string>, m: string, rest: seq<string>, c: nat)
    requires c <= |m|
    ensures Concat(done) + m[..c] <= Concat(done + ([m] + rest))
  {
    var all := done + ([m] + rest);
    assert all[..|done| + 1] == done + [m];
    ConcatPrefix(all, |done| + 1);
    ConcatAppend(done, m);
    PrefixTrans(Concat(done) + m[..c], Concat(done) + m, Concat(all));
  }

  lemma SentIsPrefix(s: Sender)
    requires Fits(s.queue) && s.submitted == s.done + Msgs(s.queue)
    ensures Sent(s) <= Concat(s.submitted)
  {
    if s.queue == [] {
      assert s.done + Msgs(s.queue) == s.done;
    } else {
      PartIsPrefix(s.done, s.queue[0].msg, Msgs(s.queue[1..]), s.queue[0].cur);
    }
  }

  // However the socket cuts the writes, the bytes on the wire are the first bytes of the
  // messages in the order they were handed in; with nothing queued they are all of them.
  lemma WireIsPrefix(s: Sender)
    requires Good(s)
    ensures s.wire <= Concat(s.submitted)
    ensures s.queue == [] ==> s.wire == Concat(s.submitted)
  {
    hide Concat;
    SentIsPrefix(s);
    if s.queue == [] {
      assert s.done + Msgs(s.queue) == s.done;
    }
  }

  lemma SubmitGood(s: Sender, buf: string)
    requires Good(s)
    ensures Good(Submit(s, buf))
    ensures s.failed ==> Submit(s, buf).flight == []
  {
    hide Concat, Msgs;
    var t := Submit(s, buf);
    MsgsAppend(s.queue, Node(buf, 0));
    assert t.submitted == t.done + Msgs(t.queue);
    ConcatAppend(s.submitted, buf);
    if s.queue == [] {
      assert t.queue == [Node(buf, 0)] && Rest(t.queue[0]) == buf;
      assert t.flight == [buf];
    }
  }

  // The one write outstanding completes, taking k bytes; there is a message in front.
  lemma CompleteGood(s: Sender, i: nat, k: nat, error: bool)
    requires Good(s) && i < |s.flight| && k <= |s.flight[i]|
    ensures i == 0 && Enabled(s, Completion(i, k, error)) && Good(CallBack(Transfer(s, i, k), error, k))
  {
    hide Concat, Msgs;
    var (front, t) := (s.queue[0], Transfer(s, i, k));
    var c := front.cur + k;
    assert t.flight == [] && t.wire == Concat(s.done) + front.msg[..c] by {
      assert front.msg[..c] == front.msg[..front.cur] + Rest(front)[..k];
    }
    if error {
      FailGood(t, c);
    } else if c < |front.msg| {
      GoOnGood(t, k);
    } else {
      TurnGood(t, k);
    }
  }

  // The three ways on from a transfer, with no write outstanding any more.
  ghost predicate Between(t: Sender, c: nat) {
    && Fits(t.queue) && (forall i :: 0 < i < |t.queue| ==> t.queue[i].cur == 0)
    && t.submitted == t.done + Msgs(t.queue)
    && t.pending && t.queue != [] && !t.failed && t.flight == []
    && c <= |t.queue[0].msg| && t.wire == Concat(t.done) + t.queue[0].msg[..c]
  }

  lemma FailGood(t: Sender, c: nat)
    requires Between(t, c)
    ensures Good(CallBack(t, true, 0))
  {
    hide Concat;
    PartIsPrefix(t.done, t.queue[0].msg, Msgs(t.queue[1..]), c);
  }

  lemma GoOnGood(t: Sender, k: nat)
    requires Fits(t.queue) && t.queue != [] && Between(t, t.queue[0].cur + k) && t.queue[0].cur + k < |t.queue[0].msg|
    ensures Good(CallBack(t, false, k))
  {
    hide Concat;
    var u := CallBack(t, false, k);
    assert u.queue[1..] == t.queue[1..];
  }

  lemma TurnGood(t: Sender, k: nat)
    requires Fits(t.queue) && t.queue != [] && Between(t, t.queue[0].cur + k) && t.queue[0].cur + k == |t.queue[0].msg|
    ensures Good(CallBack(t, false, k))
  {
    hide Concat;
    var (u, front) := (CallBack(t, false, k), t.queue[0]);
    ConcatAppend(t.done, front.msg);
    assert front.msg[..|front.msg|] == front.msg;
    assert u.submitted == u.done + Msgs(u.queue);
    assert u.queue != [] ==> u.queue[0].msg[..u.queue[0].cur] == "";
  }

  // ---- Progress -------------------------------------------------------------------------------

  function Left(s: Sender): int {
    |Concat(s.submitted)| - |s.wire|
  }

  // Only an empty message completes with no bytes.
  predicate Stalls(s: Sender, i: nat, k: nat)
    requires i < |s.flight|
  {
    k == 0 && s.flight[i] != ""
  }

  // A completion that does not stall leaves fewer bytes to send, or as many in fewer
  // messages; one that stalls starts the same write again.
  lemma Progress(s: Sender, i: nat, k: nat)
    requires Good(s) && i < |s.flight| && k <= |s.flight[i]|
    ensures s.queue != []
    ensures var t := CallBack(Transfer(s, i, k), false, k);
            && 0 <= Left(t) <= Left(s) && |t.queue| <= |s.queue|
            && (if Stalls(s, i, k) then t == s else Left(t) < Left(s) || |t.queue| < |s.queue|)
  {
    hide Concat, Sent;
    CompleteGood(s, i, k, false);
    var t := CallBack(Transfer(s, i, k), false, k);
    WireIsPrefix(t);
    assert t.submitted == s.submitted;
    if Stalls(s, i, k) {
      assert s.flight[0][..0] == "" && s.wire + "" == s.wire;
      assert s.queue[0 := s.queue[0]] == s.queue;
      assert t == s;
    }
  }

  // ---- Whole runs ---------------------------------------------------------------------------------

  datatype Event = Write(buf: string) | Completion(i: nat, k: nat, error: bool)

  predicate Enabled(s: Sender, e: Event) {
    e.Completion? ==> e.i < |s.flight| && e.k <= |s.flight[e.i]| && Fits(s.queue) && s.queue != []
  }

  function Apply(s: Sender, e: Event): Sender
    requires Enabled(s, e)
  {
    match e
    case Write(buf) => Submit(s, buf)
    case Completion(i, k, error) => CallBack(Transfer(s, i, k), error, k)
  }

  predicate Next(s: Sender, e: Event, t: Sender) {
    Enabled(s, e) && t == Apply(s, e)
  }

  ghost predicate IsRun(states: seq<Sender>, events: seq<Event>) {
    && |states| == |events| + 1 && states[0] == IDLE
    && forall i :: 0 <= i < |events| ==> Next(states[i], events[i], states[i + 1])
  }

  function Written(e: Event): seq<string> {
    if e.Write? then [e.buf] else []
  }

  function Buffers(events: seq<Event>): seq<string> {
    if events == [] then []
    else Buffers(events[..|events| - 1]) + Written(events[|events| - 1])
  }

  lemma BuffersStep(events: seq<Event>, i: nat)
    requires 0 < i <= |events|
    ensures Buffers(events[..i]) == Buffers(events[..i - 1]) + Written(events[i - 1])
  {
    assert events[..i][..i - 1] == events[..i - 1];
  }

  // In every state of every run the invariant holds and the bytes on the wire are a
  // prefix of the buffers written so far.
  lemma {:induction false} RunGood(states: seq<Sender>, events: seq<Event>, i: nat)
    requires IsRun(states, events) && i < |states|
    ensures Good(states[i]) && states[i].wire <= Concat(Buffers(events[..i]))
    ensures states[i].submitted == Buffers(events[..i])
  {
    hide Concat, Enabled, Apply, Good, Buffers, Written;
    if i == 0 {
      IdleGood();
    } else {
      RunGood(states, events, i - 1);
      assert Next(states[i - 1], events[i - 1], states[i]);
      StepGood(states[i - 1], events[i - 1]);
      BuffersStep(events, i);
    }
    WireIsPrefix(states[i]);
  }

  lemma IdleGood()
    ensures Good(IDLE) && IDLE.submitted == Buffers([])
  {
  }

  lemma StepGood(s: Sender, e: Event)
    requires Good(s) && Enabled(s, e)
    ensures Good(Apply(s, e))
    ensures Apply(s, e).submitted == s.submitted + Written(e)
    ensures s.failed ==> Apply(s, e).failed && Apply(s, e).flight == []
  {
    hide Good;
    match e
    case Write(buf) =>
      SubmitGood(s, buf);
      FailedStays(s, e);
    case Completion(i, k, error) =>
      CompleteGood(s, i, k, error);
      FailedStays(s, e);
      assert s.submitted + [] == s.submitted;
  }

  // After a failed write nothing is ever started again.
  lemma FailedStays(s: Sender, e: Event)
    requires Good(s) && Enabled(s, e)
    ensures s.failed ==> e.Write? && Apply(s, e).failed && Apply(s, e).flight == []
  {
  }

  lemma {:induction false} NothingAfterFailure(states: seq<Sender>, events: seq<Event>, i: nat, j: nat)
    requires IsRun(states, events) && i <= j < |states| && states[i].failed
    ensures states[j].failed && states[j].flight == [] && states[j].wire == states[i].wire
  {
    RunGood(states, events, i);
    if i < j {
      NothingAfterFailure(states, events, i, j - 1);
      RunGood(states, events, j - 1);
      assert Next(states[j - 1], events[j - 1], states[j]);
      FailedStays(states[j - 1], events[j - 1]);
    }
  }

  // Completions alone, none of them failing or stalling, come to an end; and as long as
  // anything is queued there is one to come.
  lemma {:induction false} Drains(states: seq<Sender>, events: seq<Event>, i: nat, j: nat)
    requires IsRun(states, events) && i <= j < |states|
    requires forall n :: i <= n < j ==>
      events[n].Completion? && !events[n].error && events[n].i < |states[n].flight|
      && !Stalls(states[n], events[n].i, events[n].k)
    ensures j - i + Left(states[j]) + |states[j].queue| <= Left(states[i]) + |states[i].queue|
    ensures !states[j].failed && states[j].queue != [] ==> |states[j].flight| == 1
  {
    hide Concat, Left;
    RunGood(states, events, j);
    if i < j {
      Drains(states, events, i, j - 1);
      RunGood(states, events, j - 1);
      assert Next(states[j - 1], events[j - 1], states[j]);
      Progress(states[j - 1], events[j - 1].i, events[j - 1].k);
    }
  }
}
