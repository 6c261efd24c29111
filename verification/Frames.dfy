// Length-prefixed messages: the node that encodes one for sending and the session that
// reads them back, head and body in turn.
module Frames {
  type Octet = b: int | 0 <= b < 256
  // A 16-bit signed integer.
  type Short = n: int | -0x8000 <= n < 0x8000

  const MAX_LENGTH := 2048
  const HEAD_ID_LEN := 2
  const HEAD_TOTAL_LEN := 4

  datatype Message = Message(id: Short, payload: seq<Octet>)

  // ---- Sixteen bits in network order --------------------------------------------------

  // The bytes in memory after the conversion to network order.
  function NetworkShort(n: Short): (s: seq<Octet>)
    ensures |s| == 2 && 0x100 * (s[0] as int) + s[1] as int == n % 0x1_0000
  {
    var u := if n < 0 then n + 0x1_0000 else n;
    [u / 0x100, u % 0x100]
  }

  // Two bytes read in network order, and the cast to signed.
  function HostShort(hi: Octet, lo: Octet): (r: Short)
    ensures (0x100 * hi + lo - r) % 0x1_0000 == 0
  {
    var n := 0x100 * hi + lo;
    if n < 0x8000 then n else n - 0x1_0000
  }

  // The conversion of a length to a short keeps its low sixteen bits.
  function ToShort(n: int): (r: Short)
    ensures (n - r) % 0x1_0000 == 0
  {
    (n + 0x8000) % 0x1_0000 - 0x8000
  }

  lemma ShortRoundTrip(n: Short)
    ensures HostShort(NetworkShort(n)[0], NetworkShort(n)[1]) == n
  {
  }

  lemma NetworkRoundTrip(hi: Octet, lo: Octet)
    ensures NetworkShort(HostShort(hi, lo)) == [hi, lo]
  {
  }

  // ---- Encoding -------------------------------------------------------------------------

  // What goes on the wire for a message.
  function Frame(m: Message): (s: seq<Octet>)
    requires |m.payload| < 0x8000
    ensures |s| == HEAD_TOTAL_LEN + |m.payload|
  {
    NetworkShort(m.id) + NetworkShort(|m.payload|) + m.payload
  }

  class SendNode {
    const totalLen: nat
    const data: array<Octet>

    // The total length is a short as well, which bounds the payload.
    constructor (msg: array<Octet>, maxLen: nat, id: Short)
      requires maxLen <= msg.Length && maxLen + HEAD_TOTAL_LEN < 0x8000
      ensures totalLen == HEAD_TOTAL_LEN + maxLen && data.Length == totalLen + 1 && fresh(data)
      ensures data[..totalLen] == Frame(Message(id, msg[..maxLen])) && data[totalLen] == 0
      ensures 0x100 * (data[0] as int) + data[1] as int == id % 0x1_0000
      ensures 0x100 * (data[2] as int) + data[3] as int == maxLen
      ensures data[4..totalLen] == msg[..maxLen]
    {
      totalLen := maxLen + HEAD_TOTAL_LEN;
      data := new Octet[maxLen + HEAD_TOTAL_LEN + 1](_ => 0);
      new;
      CopyBytes(data, 0, NetworkShort(id));
      CopyBytes(data, HEAD_ID_LEN, NetworkShort(maxLen));
      assert data[..][totalLen] == 0;
      CopyBytes(data, HEAD_TOTAL_LEN, msg[..maxLen]);
      assert data[..][totalLen] == 0;
      var head := NetworkShort(id) + NetworkShort(maxLen);
      assert data[..HEAD_TOTAL_LEN] == head;
      assert data[..totalLen] == data[..HEAD_TOTAL_LEN] + data[HEAD_TOTAL_LEN..totalLen];
      assert forall i :: 0 <= i < 4 ==> data[i] == data[..HEAD_TOTAL_LEN][i] == head[i];
    }
  }

  method CopyBytes(to: array<Octet>, at: nat, from: seq<Octet>)
    requires at + |from| <= to.Length
    modifies to
    ensures to[..] == old(to[..at]) + from + old(to[at + |from|..])
  {
    for i := 0 to |from|
      invariant to[..] == old(to[..at]) + from[..i] + old(to[at + i..])
    {
      to[at + i] := from[i];
    }
  }

  predicate Short16(ms: seq<Message>) {
    forall m :: m in ms ==> |m.payload| < 0x8000
  }

  function Encoded(ms: seq<Message>): seq<Octet>
    requires Short16(ms)
  {
    if ms == [] then [] else Frame(ms[0]) + Encoded(ms[1..])
  }

  // ---- Decoding ---------------------------------------------------------------------------

  predicate Acceptable(n: int) { 0 < n <= MAX_LENGTH }

  predicate Good(m: Message) { Acceptable(m.id) && Acceptable(|m.payload|) }

  datatype Head = Head(id: Short, length: Short)

  function HeadOf(s: seq<Octet>): Head
    requires |s| >= HEAD_TOTAL_LEN
  {
    Head(HostShort(s[0], s[1]), HostShort(s[2], s[3]))
  }

  predicate GoodHead(h: Head) { Acceptable(h.id) && Acceptable(h.length) }

  // The messages in a stream, the bytes they take, and whether a bad head follows them.
  datatype Decoded = Decoded(posted: seq<Message>, consumed: nat, refused: bool)

  function Decode(s: seq<Octet>): (d: Decoded)
    ensures d.consumed <= |s|
  {
    if |s| < HEAD_TOTAL_LEN then Decoded([], 0, false)
    else if !GoodHead(HeadOf(s)) then Decoded([], 0, true)
    else
      var end := HEAD_TOTAL_LEN + HeadOf(s).length;
      if |s| < end then Decoded([], 0, false)
      else
        var rest := Decode(s[end..]);
        Decoded([Message(HeadOf(s).id, s[HEAD_TOTAL_LEN..end])] + rest.posted, end + rest.consumed, rest.refused)
  }

  // The stream starts with a whole acceptable frame.
  predicate Complete(s: seq<Octet>) {
    |s| >= HEAD_TOTAL_LEN && GoodHead(HeadOf(s)) && |s| >= HEAD_TOTAL_LEN + HeadOf(s).length
  }

  function First(s: seq<Octet>): Message
    requires Complete(s)
  {
    Message(HeadOf(s).id, s[HEAD_TOTAL_LEN..HEAD_TOTAL_LEN + HeadOf(s).length])
  }

  lemma FirstFrame(s: seq<Octet>)
    requires Complete(s)
    ensures var m := First(s); Good(m) && |m.payload| < 0x8000 && |Frame(m)| <= |s| && s == Frame(m) + s[|Frame(m)|..]
  {
    NetworkRoundTrip(s[0], s[1]);
    NetworkRoundTrip(s[2], s[3]);
    var m := First(s);
    assert s[..HEAD_TOTAL_LEN] == [s[0], s[1]] + [s[2], s[3]];
    assert s[..HEAD_TOTAL_LEN + |m.payload|] == s[..HEAD_TOTAL_LEN] + m.payload;
  }

  lemma FrameHead(m: Message, t: seq<Octet>)
    requires |m.payload| < 0x8000
    ensures var s := Frame(m) + t;
            && HeadOf(s) == Head(m.id, |m.payload|) && s[|Frame(m)|..] == t
            && s[HEAD_TOTAL_LEN..HEAD_TOTAL_LEN + |m.payload|] == m.payload
  {
    ShortRoundTrip(m.id);
    ShortRoundTrip(|m.payload|);
  }

  lemma DecodeFrame(m: Message, t: seq<Octet>)
    requires |m.payload| < 0x8000
    ensures Decode(Frame(m) + t) ==
      if Good(m) then
        Decoded([m] + Decode(t).posted, |Frame(m)| + Decode(t).consumed, Decode(t).refused)
      else
        Decoded([], 0, true)
  {
    hide Frame, HeadOf;
    FrameHead(m, t);
  }

  lemma DecodeFirst(s: seq<Octet>)
    requires Complete(s)
    ensures |First(s).payload| < 0x8000
    ensures var n := |Frame(First(s))|;
            && n <= |s|
            && var d := Decode(s[n..]);
               Decode(s) == Decoded([First(s)] + d.posted, n + d.consumed, d.refused)
  {
    hide Decode, Frame, Complete, Good, First;
    FirstFrame(s);
    DecodeFrame(First(s), s[|Frame(First(s))|..]);
  }

  lemma DecodeStops(s: seq<Octet>)
    requires |s| < HEAD_TOTAL_LEN || !Complete(s)
    ensures Decode(s) == Decoded([], 0, |s| >= HEAD_TOTAL_LEN && !GoodHead(HeadOf(s)))
  {
  }

  // ---- The session's reads ------------------------------------------------------------------

  // Which read is outstanding.
  datatype Awaits = AHead | ABody | Nothing

  class Session {
    const head: array<Octet>
    // The message being received.
    var bodyId: Short
    var body: array<Octet>
    var bodyLen: nat
    var curLen: nat
    var awaits: Awaits
    var closed: bool
    // What was handed to the logic queue.
    var posted: seq<Message>

    predicate Valid()
      reads this
    {
      && head.Length == HEAD_TOTAL_LEN + 1 && head != body
      && (closed <==> awaits == Nothing)
      && (awaits == ABody ==> body.Length == bodyLen + 1 && Acceptable(bodyId) && Acceptable(bodyLen))
    }

    constructor ()
      ensures Valid() && fresh(head) && fresh(body) && awaits == AHead && posted == []
    {
      head := new Octet[HEAD_TOTAL_LEN + 1](_ => 0);
      body := new Octet[0];
      bodyId, bodyLen, curLen, awaits, closed, posted := 0, 0, 0, AHead, false, [];
    }

    method Close()
      modifies `closed, `awaits
      ensures closed && awaits == Nothing
    {
      closed, awaits := true, Nothing;
    }

    // The completion of the read for a head.
    method HandleReadHead(error: bool, data: seq<Octet>)
      requires Valid() && awaits == AHead && |data| <= HEAD_TOTAL_LEN
      modifies head, `bodyId, `body, `bodyLen, `curLen, `closed, `awaits
      ensures Valid() && (fresh(body) || body == old(body))
      ensures closed <==> error || |data| != HEAD_TOTAL_LEN || !GoodHead(HeadOf(data))
      ensures closed <==>
        || error || |data| != 4
        || !(1 <= 0x100 * (data[0] as int) + data[1] as int <= 2048)
        || !(1 <= 0x100 * (data[2] as int) + data[3] as int <= 2048)
      ensures !closed ==> bodyId == 0x100 * (data[0] as int) + data[1] as int
      ensures !closed ==> bodyLen == 0x100 * (data[2] as int) + data[3] as int
      ensures !closed ==> awaits == ABody && bodyId == HeadOf(data).id && bodyLen == HeadOf(data).length && fresh(body)
    {
      CopyBytes(head, 0, data);
      if error {
        Close();
        return;
      }
      if |data| != HEAD_TOTAL_LEN {
        Close();
        return;
      }
      assert head[..HEAD_TOTAL_LEN] == data;
      var id := HostShort(head[0], head[1]);
      if id <= 0 || id > MAX_LENGTH {
        Close();
        return;
      }
      var length := HostShort(head[2], head[3]);
      if length <= 0 || length > MAX_LENGTH {
        Close();
        return;
      }
      bodyId, bodyLen, curLen := id, length, 0;
      body := new Octet[length + 1](_ => 0);
      awaits := ABody;
    }

    // The completion of the read for a body.
    method HandleReadBody(error: bool, data: seq<Octet>)
      requires Valid() && awaits == ABody && |data| <= bodyLen
      modifies head, body, `curLen, `closed, `awaits, `posted
      ensures Valid() && (closed <==> error || |data| != bodyLen)
      ensures posted == if closed then old(posted) else old(posted) + [Message(bodyId, data)]
      ensures !closed ==> awaits == AHead
    {
      CopyBytes(body, 0, data);
      if error {
        Close();
        return;
      }
      if |data| != bodyLen {
        Close();
        return;
      }
      curLen := bodyLen;
      body[bodyLen] := 0;
      assert body[..curLen] == data;
      posted := posted + [Message(bodyId, body[..curLen])];
      forall i | 0 <= i < HEAD_TOTAL_LEN {
        head[i] := 0;
      }
      awaits := AHead;
    }

    // The two reads of one frame, which has arrived whole unless its head is bad.
    method ReceiveFrame(s: seq<Octet>)
      requires Valid() && awaits == AHead && |s| >= HEAD_TOTAL_LEN && (GoodHead(HeadOf(s)) ==> Complete(s))
      modifies this, head, body
      ensures Valid() && (fresh(body) || body == old(body))
      ensures closed <==> !Complete(s)
      ensures if closed then posted == old(posted) else awaits == AHead && posted == old(posted) + [First(s)]
    {
      hide HostShort;
      HandleReadHead(false, s[..HEAD_TOTAL_LEN]);
      if !closed {
        HandleReadBody(false, s[HEAD_TOTAL_LEN..HEAD_TOTAL_LEN + bodyLen]);
      }
    }

    // Reads for as long as the bytes that have arrived complete them.
    method Receive(stream: seq<Octet>) returns (rest: seq<Octet>)
      requires Valid() && awaits == AHead
      modifies this, head, body
      ensures Valid() && posted == old(posted) + Decode(stream).posted && closed == Decode(stream).refused
      ensures !closed ==> rest == stream[Decode(stream).consumed..]
    {
      hide Decode, HeadOf, Complete, GoodHead, First, Frame;
      rest := stream;
      ghost var at := 0;
      while |rest| >= HEAD_TOTAL_LEN
        invariant Valid() && awaits == AHead && (fresh(body) || body == old(body))
        invariant 0 <= at <= |stream| && rest == stream[at..]
        invariant posted + Decode(rest).posted == old(posted) + Decode(stream).posted
        invariant Decode(rest).refused == Decode(stream).refused && at + Decode(rest).consumed == Decode(stream).consumed
        decreases |rest|
      {
        if GoodHead(HeadOf(rest)) && !Complete(rest) {
          DecodeStops(rest);
          return;
        }
        ReceiveFrame(rest);
        if closed {
          DecodeStops(rest);
          return;
        }
        DecodeFirst(rest);
        var n := |Frame(First(rest))|;
        at := at + n;
        rest := rest[n..];
      }
      DecodeStops(rest);
    }
  }

  // ---- The codec is exact and canonical -------------------------------------------------------

  predicate AllGood(ms: seq<Message>) {
    forall m :: m in ms ==> Good(m)
  }

  // The messages before the first that a reader refuses.
  function GoodPrefix(ms: seq<Message>): (r: seq<Message>)
    ensures r <= ms && AllGood(r)
  {
    if ms == [] || !Good(ms[0]) then [] else [ms[0]] + GoodPrefix(ms[1..])
  }

  // What was posted re-encodes to exactly the bytes taken for it; what follows is an
  // incomplete frame or, after a refusal, a head no acceptable message has.
  lemma {:induction false} Canonical(s: seq<Octet>)
    ensures var d := Decode(s);
            && AllGood(d.posted) && Encoded(d.posted) == s[..d.consumed] && !Complete(s[d.consumed..])
            && d.refused == (d.consumed + HEAD_TOTAL_LEN <= |s| && !GoodHead(HeadOf(s[d.consumed..])))
  {
    hide Decode, Complete, HeadOf, GoodHead, Frame, First, Good;
    if !Complete(s) {
      DecodeStops(s);
      assert s[0..] == s;
    } else {
      FirstFrame(s);
      DecodeFirst(s);
      var (m, n, d) := (First(s), |Frame(First(s))|, Decode(s));
      Canonical(s[n..]);
      assert d.posted[1..] == Decode(s[n..]).posted;
      assert s[..d.consumed] == s[..n] + s[n..][..d.consumed - n];
      assert s[n..][d.consumed - n..] == s[d.consumed..];
    }
  }

  lemma GoodFirst(ms: seq<Message>)
    requires ms != []
    ensures AllGood(ms) <==> Good(ms[0]) && AllGood(ms[1..])
    ensures GoodPrefix(ms) == if Good(ms[0]) then [ms[0]] + GoodPrefix(ms[1..]) else []
  {
    hide Good;
    assert ms == [ms[0]] + ms[1..];
  }

  lemma EncodedFirst(ms: seq<Message>, t: seq<Octet>)
    requires ms != [] && Short16(ms)
    ensures Short16(ms[1..]) && |ms[0].payload| < 0x8000
    ensures Encoded(ms) + t == Frame(ms[0]) + (Encoded(ms[1..]) + t)
    ensures |Encoded(ms)| == |Frame(ms[0])| + |Encoded(ms[1..])|
  {
    hide Frame;
  }

  lemma NothingEncoded(t: seq<Octet>)
    ensures Encoded([]) == [] && Encoded([]) + t == t && AllGood([])
  {
  }

  // Frames decode to the messages they were made from, up to the first one whose
  // identifier or length the reader does not accept, and nothing after that.
  lemma {:induction false} Exact(ms: seq<Message>, t: seq<Octet>)
    requires Short16(ms)
    ensures var d := Decode(Encoded(ms) + t);
            if AllGood(ms) then
              && d.posted == ms + Decode(t).posted && d.refused == Decode(t).refused
              && d.consumed == |Encoded(ms)| + Decode(t).consumed
            else
              d.posted == GoodPrefix(ms) && d.refused
  {
    hide Decode, Frame, Good, AllGood, GoodPrefix, Encoded, Short16;
    if ms == [] {
      NothingEncoded(t);
    } else {
      EncodedFirst(ms, t);
      GoodFirst(ms);
      DecodeFrame(ms[0], Encoded(ms[1..]) + t);
      if Good(ms[0]) {
        Exact(ms[1..], t);
        assert ms == [ms[0]] + ms[1..];
      }
    }
  }

  // A list of messages makes the trip unharmed exactly when all of them are acceptable.
  lemma RoundTripExact(ms: seq<Message>)
    requires Short16(ms)
    ensures Decode(Encoded(ms)) == Decoded(ms, |Encoded(ms)|, false) <==> AllGood(ms)
    ensures AllGood(ms) <==> forall m :: m in ms ==> 1 <= m.id <= 2048 && 1 <= |m.payload| <= 2048
    ensures !AllGood(ms) ==> Decode(Encoded(ms)).refused
  {
    Exact(ms, []);
    assert Encoded(ms) + [] == Encoded(ms);
  }

  // More bytes only add to what was posted; after a refusal they change nothing.
  lemma {:induction false} Monotone(s: seq<Octet>, t: seq<Octet>)
    ensures Decode(s).posted <= Decode(s + t).posted
    ensures Decode(s).refused ==> Decode(s + t) == Decode(s)
  {
    hide Decode, HeadOf;
    if Complete(s) {
      DecodeFirst(s);
      var n := |Frame(First(s))|;
      assert HeadOf(s + t) == HeadOf(s) by {
        HeadKept(s, t);
      }
      DecodeFirst(s + t);
      assert (s + t)[HEAD_TOTAL_LEN..n] == s[HEAD_TOTAL_LEN..n];
      assert First(s + t) == First(s);
      Monotone(s[n..], t);
      assert (s + t)[n..] == s[n..] + t;
    } else {
      DecodeStops(s);
      if |s| >= HEAD_TOTAL_LEN {
        HeadKept(s, t);
        if !GoodHead(HeadOf(s)) {
          DecodeStops(s + t);
        }
      }
    }
  }

  lemma HeadKept(s: seq<Octet>, t: seq<Octet>)
    requires |s| >= HEAD_TOTAL_LEN
    ensures HeadOf(s + t) == HeadOf(s)
  {
  }
}
