// A session that sends framed messages through a bounded queue, one write at a time,
// each write completing with all its bytes or with an error.
module WholeSend {
  import opened Frames
  import opened Joining

  const MAX_SENDQUE := 1000

  // queue, completed: frames waiting (the first of them being written) and written;
  // accepted: the messages taken into the queue so far; failed: a write has failed.
  datatype Sender = Sender(
    queue: seq<seq<Octet>>, flight: seq<seq<Octet>>, closed: bool,
    wire: seq<Octet>, completed: seq<seq<Octet>>, accepted: seq<Message>, failed: bool)

  const IDLE := Sender([], [], false, [], [], [], false)

  predicate Sendable(m: Message) { |m.payload| + HEAD_TOTAL_LEN < 0x8000 }

  function Submit(s: Sender, m: Message): Sender
    requires Sendable(m)
  {
    if |s.queue| > MAX_SENDQUE then s
    else
      var t := s.(queue := s.queue + [Frame(m)], accepted := s.accepted + [m]);
      if |s.queue| > 0 then t else t.(flight := t.flight + [t.queue[0]])
  }

  // The socket takes all bytes of an outstanding write, or some and fails.
  function Transfer(s: Sender, i: nat, k: nat): Sender
    requires i < |s.flight| && k <= |s.flight[i]|
  {
    s.(wire := s.wire + s.flight[i][..k], flight := s.flight[..i] + s.flight[i + 1..])
  }

  function CallBack(s: Sender, error: bool): Sender
    requires error || s.queue != []
  {
    if error then s.(closed := true, failed := true)
    else
      var t := s.(queue := s.queue[1..], completed := s.completed + [s.queue[0]]);
      if t.queue == [] then t else t.(flight := t.flight + [t.queue[0]])
  }

  // ---- The session ------------------------------------------------------------------------

  class Socket {
    ghost var flight: seq<seq<Octet>>

    method AsyncWrite(buf: seq<Octet>)
      modifies this
      ensures flight == old(flight) + [buf]
    {
      flight := flight + [buf];
    }
  }

  // The lengths for which there is a node with room for head and payload.
  predicate HasNode(n: Short) { 0 <= n && n + HEAD_TOTAL_LEN < 0x8000 }

  lemma ShortLength(length: nat)
    ensures var n := ToShort(length);
            && n <= length
            && (n < -5 || n >= 0 ==> (ToShort(n + HEAD_TOTAL_LEN) + 1 < 0 <==> !HasNode(n)))
  {
  }

  class Session {
    const socket: Socket
    // What the queued nodes hold.
    var sendQue: seq<seq<Octet>>
    var closed: bool
    ghost var wire: seq<Octet>
    ghost var completed: seq<seq<Octet>>
    ghost var accepted: seq<Message>
    ghost var failed: bool

    ghost function View(): Sender
      reads this, socket
    {
      Sender(sendQue, socket.flight, closed, wire, completed, accepted, failed)
    }

    constructor (socket: Socket)
      requires socket.flight == []
      ensures View() == IDLE && this.socket == socket
    {
      this.socket := socket;
      sendQue, closed := [], false;
      wire, completed, accepted, failed := [], [], [], false;
    }

    // The length of a string becomes a short on its way to the node: a message of 65536
    // bytes or more is cut, and one whose node would have a negative size throws. What
    // the five lengths do that leave no room for the head is not defined.
    method Send(msg: array<Octet>, length: nat, id: Short) returns (thrown: bool)
      requires length <= msg.Length && !(-5 <= ToShort(length) < 0)
      modifies this, socket
      ensures thrown == (|old(sendQue)| <= 1000 && !(0 <= ToShort(length) <= 32763))
      ensures View() ==
        if HasNode(ToShort(length)) then Submit(old(View()), Message(id, msg[..ToShort(length)])) else old(View())
    {
      var size := |sendQue|;
      if size > MAX_SENDQUE {
        return false;
      }
      var n := ToShort(length);
      var total := ToShort(n + HEAD_TOTAL_LEN);
      if total < -1 {
        return true;
      }
      ShortLength(length);
      var node := new SendNode(msg, n, id);
      sendQue := sendQue + [node.data[..node.totalLen]];
      accepted := accepted + [Message(id, msg[..n])];
      if size > 0 {
        return false;
      }
      socket.AsyncWrite(sendQue[0]);
      return false;
    }

    method Close()
      modifies `closed
      ensures closed
    {
      closed := true;
    }

    method HandleWrite(error: bool)
      requires error || sendQue != []
      modifies this, socket
      ensures View() == CallBack(old(View()), error)
    {
      if !error {
        completed := completed + [sendQue[0]];
        sendQue := sendQue[1..];
        if sendQue != [] {
          socket.AsyncWrite(sendQue[0]);
        }
      } else {
        failed := true;
        Close();
      }
    }
  }

  // ---- What every call keeps ------------------------------------------------------------------

  function FrameList(ms: seq<Message>): seq<seq<Octet>>
    requires Short16(ms)
  {
    if ms == [] then [] else FrameList(ms[..|ms| - 1]) + [Frame(ms[|ms| - 1])]
  }

  // At most one write is outstanding, of the frame in front; what was accepted is what
  // completed and what is queued, in order; and a failure ends all writing.
  ghost predicate Good(s: Sender) {
    && Short16(s.accepted) && FrameList(s.accepted) == s.completed + s.queue
    && |s.queue| <= MAX_SENDQUE + 1
    && (if s.failed then s.flight == [] && s.queue != [] && s.closed && s.wire <= Concat(s.completed + s.queue)
        else s.flight == (if s.queue == [] then [] else [s.queue[0]]) && s.wire == Concat(s.completed))
  }

  lemma FrameListAppend(ms: seq<Message>, m: Message)
    requires Short16(ms) && |m.payload| < 0x8000
    ensures Short16(ms + [m]) && FrameList(ms + [m]) == FrameList(ms) + [Frame(m)]
  {
    assert (ms + [m])[..|ms|] == ms;
  }

  lemma FirstPartIsPrefix(done: seq<seq<Octet>>, queue: seq<seq<Octet>>, k: nat)
    requires queue != [] && k <= |queue[0]|
    ensures Concat(done) + queue[0][..k] <= Concat(done + queue)
  {
    assert (done + queue)[..|done| + 1] == done + [queue[0]];
    ConcatPrefix(done + queue, |done| + 1);
    ConcatAppend(done, queue[0]);
    assert Concat(done) + queue[0][..k] == (Concat(done) + queue[0])[..|Concat(done)| + k];
  }

  lemma SubmitGood(s: Sender, m: Message)
    requires Good(s) && Sendable(m)
    ensures Good(Submit(s, m))
    ensures var taken := |s.queue| <= 1000;
            Submit(s, m).accepted == s.accepted + if taken then [m] else []
  {
    hide Concat, FrameList, Frame;
    FrameListAppend(s.accepted, m);
    assert s.completed + s.queue + [Frame(m)] == s.completed + (s.queue + [Frame(m)]);
    ConcatAppend(s.completed + s.queue, Frame(m));
    assert s.accepted + [] == s.accepted;
  }

  // The one write outstanding completes; there is a frame in front to pop.
  lemma CompleteGood(s: Sender, i: nat, k: nat, error: bool)
    requires Good(s) && i < |s.flight| && k <= |s.flight[i]| && (error || k == |s.flight[i]|)
    ensures i == 0 && s.queue != [] && Good(CallBack(Transfer(s, i, k), error))
  {
    hide Concat, FrameList;
    FirstPartIsPrefix(s.completed, s.queue, k);
    ConcatAppend(s.completed, s.queue[0]);
    var u := CallBack(Transfer(s, i, k), error);
    if !error {
      assert s.flight[0][..k] == s.queue[0];
      assert s.completed + s.queue == s.completed + [s.queue[0]] + s.queue[1..];
    }
  }

  // ---- Whole runs ---------------------------------------------------------------------------------

  // Shut: the reading half closes the session.
  datatype Event = Write(m: Message) | Completion(i: nat, k: nat, error: bool) | Shut

  predicate Enabled(s: Sender, e: Event) {
    match e
    case Write(m) => Sendable(m)
    case Completion(i, k, error) =>
      i < |s.flight| && k <= |s.flight[i]| && (error || (k == |s.flight[i]| && s.queue != []))
    case Shut => true
  }

  function Apply(s: Sender, e: Event): Sender
    requires Enabled(s, e)
  {
    match e
    case Write(m) => Submit(s, m)
    case Completion(i, k, error) => CallBack(Transfer(s, i, k), error)
    case Shut => s.(closed := true)
  }

  predicate Next(s: Sender, e: Event, t: Sender) {
    Enabled(s, e) && t == Apply(s, e)
  }

  ghost predicate IsRun(states: seq<Sender>, events: seq<Event>) {
    && |states| == |events| + 1 && states[0] == IDLE
    && forall i :: 0 <= i < |events| ==> Next(states[i], events[i], states[i + 1])
  }

  lemma StepGood(s: Sender, e: Event)
    requires Good(s) && Enabled(s, e)
    ensures Good(Apply(s, e))
    ensures Apply(s, e).closed <==> s.closed || e.Shut? || (e.Completion? && e.error)
  {
    match e
    case Write(m) =>
      hide Good;
      SubmitGood(s, m);
    case Completion(i, k, error) =>
      hide Good;
      CompleteGood(s, i, k, error);
    case Shut =>
      hide Concat, FrameList;
  }

  lemma IdleGood()
    ensures Good(IDLE)
  {
    assert FrameList([]) == [] && Concat<Octet>([]) == [];
  }

  lemma {:induction false} RunGood(states: seq<Sender>, events: seq<Event>, i: nat)
    requires IsRun(states, events) && i < |states|
    ensures Good(states[i])
  {
    hide Good, Enabled, Apply;
    if i == 0 {
      IdleGood();
    } else {
      RunGood(states, events, i - 1);
      assert Next(states[i - 1], events[i - 1], states[i]);
      StepGood(states[i - 1], events[i - 1]);
    }
  }

  lemma FailedStays(s: Sender, e: Event)
    requires Good(s) && Enabled(s, e) && s.failed
    ensures !e.Completion?
    ensures Apply(s, e).failed && Apply(s, e).flight == [] && Apply(s, e).wire == s.wire
  {
    hide Concat, FrameList, Frame, Short16;
  }

  // After one failed completion no further write is ever started.
  lemma {:induction false} NothingAfterFailure(states: seq<Sender>, events: seq<Event>, i: nat, j: nat)
    requires IsRun(states, events) && i <= j < |states| && states[i].failed
    ensures states[j].failed && states[j].flight == [] && states[j].wire == states[i].wire
  {
    hide Good, Enabled, Apply;
    RunGood(states, events, i);
    NoFlight(states[i]);
    if i < j {
      NothingAfterFailure(states, events, i, j - 1);
      RunGood(states, events, j - 1);
      assert Next(states[j - 1], events[j - 1], states[j]);
      FailedStays(states[j - 1], events[j - 1]);
    }
  }

  lemma NoFlight(s: Sender)
    requires Good(s) && s.failed
    ensures s.flight == []
  {
    hide Concat, FrameList, Short16;
  }

  // ---- What the peer makes of it ----------------------------------------------------------------------

  lemma {:induction false} EncodedAppend(ms: seq<Message>, m: Message)
    requires Short16(ms) && |m.payload| < 0x8000
    ensures Short16(ms + [m]) && Encoded(ms + [m]) == Encoded(ms) + Frame(m)
  {
    hide Frame;
    if ms == [] {
      assert ms + [m] == [m];
      assert Encoded([m]) == Frame(m) + Encoded([]);
    } else {
      assert (ms + [m])[1..] == ms[1..] + [m];
      EncodedAppend(ms[1..], m);
    }
  }

  lemma {:induction false} FrameListEncoded(ms: seq<Message>)
    requires Short16(ms)
    ensures Concat(FrameList(ms)) == Encoded(ms)
  {
    hide Frame;
    if ms != [] {
      var k := |ms| - 1;
      FrameListEncoded(ms[..k]);
      ConcatAppend(FrameList(ms[..k]), Frame(ms[k]));
      EncodedAppend(ms[..k], ms[k]);
      assert ms[..k] + [ms[k]] == ms;
    }
  }

  lemma WireIsPrefix(s: Sender)
    requires Good(s)
    ensures s.wire <= Encoded(s.accepted) && (!s.failed && s.queue == [] ==> s.wire == Encoded(s.accepted))
  {
    hide Concat, FrameList, Encoded;
    FrameListEncoded(s.accepted);
    ConcatPrefix(s.completed + s.queue, |s.completed|);
    assert (s.completed + s.queue)[..|s.completed|] == s.completed;
    assert s.queue == [] ==> s.completed + s.queue == s.completed;
  }

  // At any moment of any run, a peer reading the wire has posted a prefix of the accepted
  // messages, none beyond the first one it does not accept; and once the queue has
  // drained without failure it has posted all before that one.
  lemma PeerPosts(states: seq<Sender>, events: seq<Event>, i: nat)
    requires IsRun(states, events) && i < |states|
    ensures Decode(states[i].wire).posted <= GoodPrefix(states[i].accepted) <= states[i].accepted
    ensures !states[i].failed && states[i].queue == [] ==> Decode(states[i].wire).posted == GoodPrefix(states[i].accepted)
  {
    hide Concat, FrameList, Encoded, Decode, Enabled, Apply;
    RunGood(states, events, i);
    var s := states[i];
    WireIsPrefix(s);
    var all := Encoded(s.accepted);
    Exact(s.accepted, []);
    assert all + [] == all;
    DecodeStops([]);
    GoodPrefixWhole(s.accepted);
    Monotone(s.wire, all[|s.wire|..]);
    assert s.wire + all[|s.wire|..] == all;
  }

  lemma {:induction false} GoodPrefixWhole(ms: seq<Message>)
    ensures AllGood(ms) ==> GoodPrefix(ms) == ms
  {
    if ms != [] {
      GoodPrefixWhole(ms[1..]);
      assert AllGood(ms) ==> AllGood(ms[1..]) && Frames.Good(ms[0]);
    }
  }
}
