// What a byte stream means as a request, one line at a time, and why it does not
// matter how the stream was cut into pieces.
module HttpRequest {
  import opened CStrings
  import opened Options
  import opened Joining

  datatype Fields = Fields(url: string, host: Option<string>, linger: bool, contentLength: int)

  const NO_FIELDS := Fields("", None, false, 0)

  datatype Phase = RequestLine | Headers

  // at is the first byte not yet taken into a whole line.
  datatype Parse =
    | Reading(phase: Phase, at: nat, fields: Fields)
    | Dispatch(at: nat, fields: Fields)
    | Body(at: nat, fields: Fields)
    | Bad

  const START := Reading(RequestLine, 0, NO_FIELDS)

  // ---- One line ------------------------------------------------------------------

  datatype LineEnd = Line(end: nat) | Open | Broken

  // The first line end at or after at: CR LF ends a line, a CR that is the last byte
  // may still become one, any other CR or LF never does.
  function NextLine(s: seq<char>, at: nat): (r: LineEnd)
    requires at <= |s|
    ensures r.Line? ==> at <= r.end && r.end + 1 < |s| && s[r.end] == CR && s[r.end + 1] == LF
    ensures r.Line? ==> forall i :: at <= i < r.end ==> !IsEol(s[i])
  {
    var k := at + Find(s[at..], IsEol);
    if k == |s| then Open
    else if s[k] == LF then Broken
    else if k + 1 == |s| then Open
    else if s[k + 1] == LF then Line(k)
    else Broken
  }

  // The target of a well-formed request line.
  function RequestTarget(line: string): (r: Option<string>)
    ensures r.Some? ==> r.value != [] && r.value[0] == '/'
    ensures r.Some? ==> forall c :: c in r.value ==> c in line && !IsBlank(c) && c != NUL
  {
    var text := CStr(line);
    var i := Find(text, IsBlank);
    if i == |text| || !EqualsIgnoreCase(text[..i], "GET") then None
    else TargetAndVersion(text[i + 1..])
  }

  function TargetAndVersion(rest: string): (r: Option<string>)
    ensures r.Some? ==> r.value != [] && r.value[0] == '/'
    ensures r.Some? ==> forall c :: c in r.value ==> c in rest && !IsBlank(c)
  {
    var j := Find(rest, IsBlank);
    if j == |rest| || !EqualsIgnoreCase(rest[j + 1..], "HTTP/1.1") then None
    else
      var target := AfterAuthority(rest[..j]);
      if target.Some? && target.value != [] && target.value[0] == '/' then target else None
  }

  // A target in absolute form loses everything before the slash after its authority.
  function AfterAuthority(target: string): (r: Option<string>)
    ensures r.Some? ==> forall c :: c in r.value ==> c in target
  {
    if !StartsWithIgnoreCase(target, "http://") then Some(target)
    else
      var rest := target[7..];
      var k := Find(rest, IsSlash);
      if k == |rest| then None else Some(rest[k..])
  }

  function HeaderLine(f: Fields, line: string): (g: Fields)
    ensures g.url == f.url
  {
    var text := CStr(line);
    if StartsWithIgnoreCase(text, "Connection:") then
      if EqualsIgnoreCase(SkipBlanks(text[11..]), "keep-alive") then f.(linger := true) else f
    else if StartsWithIgnoreCase(text, "Content-Length:") then
      f.(contentLength := ToInt32(AToL(SkipBlanks(text[15..]))))
    else if StartsWithIgnoreCase(text, "Host:") then
      f.(host := Some(SkipBlanks(text[5..])))
    else f
  }

  function TakeLine(p: Parse, line: string, next: nat): (q: Parse)
    requires p.Reading?
    ensures q.Bad? || q.at == next
    ensures q.Body? ==> q.fields.contentLength != 0
  {
    match p.phase
    case RequestLine =>
      var target := RequestTarget(line);
      if target.None? then Bad else Reading(Headers, next, p.fields.(url := target.value))
    case Headers =>
      if CStr(line) != [] then Reading(Headers, next, HeaderLine(p.fields, line))
      else if p.fields.contentLength != 0 then Body(next, p.fields)
      else Dispatch(next, p.fields)
  }

  // Where a scan for lines comes to rest: past every whole line, at the first byte that
  // does not let it go on.
  function RestOf(s: seq<char>, at: nat): (r: nat)
    requires at <= |s|
    ensures at <= r <= |s|
    decreases |s| - at
  {
    match NextLine(s, at)
    case Line(end) => RestOf(s, end + 2)
    case Open => at + Find(s[at..], IsEol)
    case Broken => at + Find(s[at..], IsEol)
  }

  // ---- Every whole line there is ------------------------------------------------------

  predicate Within(p: Parse, s: seq<char>) {
    p.Reading? ==> p.at <= |s|
  }

  function Advance(p: Parse, s: seq<char>): (q: Parse)
    requires Within(p, s)
    ensures Within(q, s) && (q.Reading? ==> p.Reading? && p.at <= q.at)
    decreases if p.Reading? then |s| - p.at else 0
  {
    if !p.Reading? then p
    else
      match NextLine(s, p.at)
      case Line(end) =>
        var q := TakeLine(p, s[p.at..end], end + 2);
        if q.Reading? then Advance(q, s) else q
      case Open => p
      case Broken => p
  }

  lemma AdvanceStuck(p: Parse, s: seq<char>)
    requires p.Reading? && Within(p, s) && !NextLine(s, p.at).Line?
    ensures Advance(p, s) == p
  {
  }

  lemma AdvanceLine(p: Parse, s: seq<char>)
    requires p.Reading? && Within(p, s) && NextLine(s, p.at).Line?
    ensures var end := NextLine(s, p.at).end;
            var q := TakeLine(p, s[p.at..end], end + 2);
            Within(q, s) && Advance(p, s) == Advance(q, s) && (!q.Reading? ==> Advance(p, s) == q)
  {
    hide TakeLine, NextLine;
  }

  lemma AdvanceDone(p: Parse, s: seq<char>)
    requires !p.Reading?
    ensures Advance(p, s) == p
  {
  }

  // A line once complete stays the same line however much follows.
  lemma LineStays(s: seq<char>, t: seq<char>, at: nat)
    requires at <= |s| && NextLine(s, at).Line?
    ensures NextLine(s + t, at) == NextLine(s, at)
    ensures var end := NextLine(s, at).end; s[at..end] == (s + t)[at..end]
  {
    var k := NextLine(s, at).end;
    FindIs((s + t)[at..], IsEol, k - at);
  }

  // Parsing what has come and then the rest is parsing all of it.
  lemma {:induction false} AdvanceResumes(p: Parse, s: seq<char>, t: seq<char>)
    requires Within(p, s)
    ensures Within(Advance(p, s), s + t)
    ensures Advance(Advance(p, s), s + t) == Advance(p, s + t)
    decreases if p.Reading? then |s| - p.at else 0
  {
    hide TakeLine, NextLine, Advance;
    if !p.Reading? {
      AdvanceDone(p, s);
    } else if !NextLine(s, p.at).Line? {
      AdvanceStuck(p, s);
    } else {
      LineStays(s, t, p.at);
      AdvanceLine(p, s);
      AdvanceLine(p, s + t);
      var end := NextLine(s, p.at).end;
      var q := TakeLine(p, s[p.at..end], end + 2);
      if q.Reading? {
        AdvanceResumes(q, s, t);
      } else {
        AdvanceDone(q, s + t);
      }
    }
  }

  // What a prefix settles is settled.
  lemma AdvanceSettled(s: seq<char>, all: seq<char>)
    requires s <= all
    ensures !Advance(START, s).Reading? ==> Advance(START, all) == Advance(START, s)
  {
    hide Advance;
    var t := all[|s|..];
    assert all == s + t;
    AdvanceResumes(START, s, t);
    if !Advance(START, s).Reading? {
      AdvanceDone(Advance(START, s), all);
    }
  }

  // The parse after each chunk, resumed from the one before.
  function AdvanceByChunks(chunks: seq<seq<char>>): (p: Parse)
    ensures Within(p, Concat(chunks))
  {
    if chunks == [] then START
    else
      var before := AdvanceByChunks(chunks[..|chunks| - 1]);
      Advance(before, Concat(chunks))
  }

  lemma {:induction false} ChunkingIndependence(chunks: seq<seq<char>>)
    ensures AdvanceByChunks(chunks) == Advance(START, Concat(chunks))
  {
    if chunks == [] {
    } else {
      var k := |chunks| - 1;
      ChunkingIndependence(chunks[..k]);
      AdvanceResumes(START, Concat(chunks[..k]), chunks[k]);
    }
  }

  // ---- Streams that are never answered ---------------------------------------------------

  lemma BrokenStays(s: seq<char>, t: seq<char>, at: nat)
    requires at <= |s| && NextLine(s, at).Broken?
    ensures NextLine(s + t, at).Broken?
  {
    hide Find;
    FindIs((s + t)[at..], IsEol, Find(s[at..], IsEol));
  }

  // Advance comes to rest where there is no whole line.
  lemma {:induction false} AdvanceRests(p: Parse, s: seq<char>)
    requires Within(p, s)
    ensures var q := Advance(p, s); q.Reading? ==> !NextLine(s, q.at).Line?
    decreases if p.Reading? then |s| - p.at else 0
  {
    hide TakeLine, NextLine;
    if p.Reading? && NextLine(s, p.at).Line? {
      var end := NextLine(s, p.at).end;
      var q := TakeLine(p, s[p.at..end], end + 2);
      if q.Reading? {
        AdvanceRests(q, s);
      }
    }
  }

  // An open end can be made a line end.
  lemma OpenCloses(s: seq<char>, at: nat) returns (t: seq<char>)
    requires at <= |s| && NextLine(s, at).Open?
    ensures NextLine(s + t, at).Line? && NextLine(s + t, at).end + 2 == |s + t|
  {
    hide Find;
    var k := Find(s[at..], IsEol);
    t := if at + k == |s| then CRLF else "\n";
    FindIs((s + t)[at..], IsEol, k);
  }

  lemma BlankLineIsNext(s: seq<char>)
    ensures NextLine(s + CRLF, |s|) == Line(|s|) && (s + CRLF)[|s|..|s|] == "" && CStr("") == ""
  {
    FindIs((s + CRLF)[|s|..], IsEol, 0);
  }

  // Whatever was taken, a blank line after it leaves no parse reading.
  lemma BlankLineEnds(p: Parse, s: seq<char>)
    requires p.Reading? ==> p.at == |s| && p.phase == Headers
    ensures !Advance(p, s + CRLF).Reading?
  {
    hide NextLine, CStr;
    BlankLineIsNext(s);
    if p.Reading? {
      AdvanceLine(p, s + CRLF);
    }
  }

  // More input leads to an answer, or to a body, from a line that is still open.
  lemma OpenIsAnswered(p: Parse, s: seq<char>) returns (t: seq<char>)
    requires p.Reading? && Within(p, s) && NextLine(s, p.at).Open?
    ensures !Advance(p, s + t).Reading?
  {
    hide NextLine, CStr, RequestTarget, HeaderLine;
    var u := OpenCloses(s, p.at);
    t := u + CRLF;
    var v := s + u;
    assert s + t == v + CRLF;
    LineStays(v, CRLF, p.at);
    AdvanceLine(p, s + t);
    var end := NextLine(v, p.at).end;
    var q := TakeLine(p, v[p.at..end], end + 2);
    BlankLineEnds(q, v);
  }

  // A stream is never answered, whatever follows, if and only if the parse has come to
  // rest at a CR or LF that no longer can be part of a line end.
  lemma NeverAnsweredExact(s: seq<char>)
    requires Advance(START, s).Reading?
    ensures (forall t :: Advance(START, s + t).Reading?) <==> NextLine(s, Advance(START, s).at).Broken?
  {
    hide Advance, NextLine, TakeLine;
    var p := Advance(START, s);
    AdvanceRests(START, s);
    if NextLine(s, p.at).Broken? {
      forall t ensures Advance(START, s + t).Reading? {
        BrokenIsStuck(s, t);
      }
    } else {
      var t := OpenIsAnswered(p, s);
      AdvanceResumes(START, s, t);
    }
  }

  lemma BrokenIsStuck(s: seq<char>, t: seq<char>)
    requires Advance(START, s).Reading? && NextLine(s, Advance(START, s).at).Broken?
    ensures Advance(START, s + t) == Advance(START, s)
  {
    hide Advance, NextLine;
    AdvanceResumes(START, s, t);
    BrokenStays(s, t, Advance(START, s).at);
    AdvanceStuck(Advance(START, s), s + t);
  }

  // A request whose lines end in a bare line feed, for one.
  lemma BareLineFeedsAreNeverAnswered(t: seq<char>)
    ensures Advance(START, "GET / HTTP/1.1\n\n" + t) == START
  {
    hide Find;
    var s := "GET / HTTP/1.1\n\n";
    FindIs(s[0..], IsEol, 14);
    assert NextLine(s, 0).Broken?;
    AdvanceStuck(START, s);
    BrokenIsStuck(s, t);
  }

  // ---- Waiting for a body of n bytes ---------------------------------------------------

  // One piece of input after another once the headers are done: c is where the last scan
  // came to rest, s what has come including the current piece. The number of bytes there
  // are when the request is let through, if it ever is.
  function Awaits(n: int, s: seq<char>, c: nat, more: seq<seq<char>>): (r: Option<nat>)
    requires c <= |s|
    decreases |more|
  {
    if |s| >= n + c then Some(|s|)
    else if more == [] then None
    else Awaits(n, s + more[0], RestOf(s, c), more[1..])
  }

  // No request is let through before n bytes have come after where its body began.
  lemma {:induction false} NeverEarly(n: int, s: seq<char>, c: nat, more: seq<seq<char>>)
    requires c <= |s|
    ensures Awaits(n, s, c, more).Some? ==> Awaits(n, s, c, more).value >= n + c
    decreases |more|
  {
    if |s| < n + c && more != [] {
      NeverEarly(n, s + more[0], RestOf(s, c), more[1..]);
    }
  }

  // Where nothing ends a line in between, the next line end is the same.
  lemma SameNext(s: seq<char>, c: nat, k: nat)
    requires c <= k <= |s| && forall i :: c <= i < k ==> !IsEol(s[i])
    ensures NextLine(s, k) == NextLine(s, c) && k + Find(s[k..], IsEol) == c + Find(s[c..], IsEol)
  {
    hide Find;
    FindIs(s[c..], IsEol, k - c + Find(s[k..], IsEol));
  }

  lemma RestUnfolds(s: seq<char>, c: nat)
    requires c <= |s|
    ensures var e := NextLine(s, c);
            RestOf(s, c) == if e.Line? then RestOf(s, e.end + 2) else c + Find(s[c..], IsEol)
  {
    hide Find, NextLine;
  }

  // Going on with a scan when more has come ends where a scan of everything does.
  lemma {:induction false} RestResumes(s: seq<char>, t: seq<char>, c: nat)
    requires c <= |s|
    ensures RestOf(s + t, RestOf(s, c)) == RestOf(s + t, c)
    decreases |s| - c
  {
    hide Find, NextLine, RestOf;
    var e := NextLine(s, c);
    RestUnfolds(s, c);
    RestUnfolds(s + t, c);
    if e.Line? {
      LineStays(s, t, c);
      RestResumes(s, t, e.end + 2);
    } else {
      var k := c + Find(s[c..], IsEol);
      assert forall i :: c <= i < k ==> s[i] == s[c..][i - c];
      SameNext(s + t, c, k);
      RestUnfolds(s + t, k);
    }
  }

  // With the first i of more come and scanned, the next of them completes n bytes.
  predicate LetsThrough(n: int, s: seq<char>, c: nat, more: seq<seq<char>>, i: nat)
    requires c <= |s| && i < |more|
  {
    |s + Concat(more[..i + 1])| >= n + RestOf(s + Concat(more[..i]), c)
  }

  // A request is let through if and only if some piece brings, beyond where the scan of
  // everything before it came to rest, as many bytes as were announced.
  lemma {:induction false} AwaitsExact(n: int, s: seq<char>, c: nat, more: seq<seq<char>>)
    requires c <= |s|
    ensures Awaits(n, s, c, more).Some? <==>
      |s| >= n + c || exists i :: 0 <= i < |more| && LetsThrough(n, s, c, more, i)
    decreases |more|
  {
    hide RestOf, Concat, LetsThrough;
    if |s| < n + c && more != [] {
      var r := RestOf(s, c);
      AwaitsExact(n, s + more[0], r, more[1..]);
      LetsThroughFirst(n, s, c, more);
      forall i | 0 <= i < |more| - 1
        ensures LetsThrough(n, s + more[0], r, more[1..], i) <==> LetsThrough(n, s, c, more, i + 1)
      {
        LetsThroughLater(n, s, c, more, i);
      }
      if i :| 0 <= i < |more| && LetsThrough(n, s, c, more, i) {
        assert i > 0 ==> LetsThrough(n, s + more[0], r, more[1..], i - 1);
      }
    }
  }

  lemma LetsThroughFirst(n: int, s: seq<char>, c: nat, more: seq<seq<char>>)
    requires c <= |s| && more != []
    ensures LetsThrough(n, s, c, more, 0) <==> |s + more[0]| >= n + RestOf(s, c)
  {
    hide RestOf;
    assert more[..1] == [more[0]] && more[..0] == [] && [more[0]][..0] == [];
    assert Concat([more[0]]) == more[0];
    assert s + [] == s;
  }

  lemma LetsThroughLater(n: int, s: seq<char>, c: nat, more: seq<seq<char>>, i: nat)
    requires c <= |s| && i + 1 < |more|
    ensures LetsThrough(n, s + more[0], RestOf(s, c), more[1..], i) <==> LetsThrough(n, s, c, more, i + 1)
  {
    hide RestOf, Concat;
    MoreFirst(s, more, i);
    MoreFirst(s, more, i + 1);
    var t := more[0] + Concat(more[1..][..i]);
    assert s + more[0] + Concat(more[1..][..i]) == s + t;
    RestResumes(s, t, c);
  }

  lemma MoreFirst(s: seq<char>, more: seq<seq<char>>, i: nat)
    requires i < |more|
    ensures s + Concat(more[..i + 1]) == s + more[0] + Concat(more[1..][..i])
  {
    hide Concat;
    ConcatFirst(more[..i + 1]);
    assert more[..i + 1][1..] == more[1..][..i];
    assert s + (more[0] + Concat(more[1..][..i])) == s + more[0] + Concat(more[1..][..i]);
  }

  predicate NoEol(s: seq<char>) {
    forall c :: c in s ==> !IsEol(c)
  }

  // A body without line ends is let through exactly when one piece brings n bytes of it
  // at once: what an incomplete piece brought is scanned away.
  lemma {:induction false} PlainBodyNeedsOnePiece(n: int, s: seq<char>, c: nat, more: seq<seq<char>>)
    requires c <= |s| && NoEol(s[c..]) && forall i :: 0 <= i < |more| ==> NoEol(more[i])
    ensures Awaits(n, s, c, more).Some? <==> |s| - c >= n || exists i :: 0 <= i < |more| && |more[i]| >= n
    decreases |more|
  {
    hide Find;
    if |s| < n + c && more != [] {
      FindIs(s[c..], IsEol, |s| - c);
      assert RestOf(s, c) == |s|;
      assert (s + more[0])[|s|..] == more[0];
      PlainBodyNeedsOnePiece(n, s + more[0], |s|, more[1..]);
      assert forall i :: 0 < i < |more| ==> more[i] == more[1..][i - 1];
    }
  }

  // So a complete body that came in two halves is still being waited for; but one that
  // starts with a line feed is not, since the scan stops there.
  lemma SplitBodyIsNotEnough()
    ensures Awaits(2, "a", 0, ["b"]) == None && Awaits(2, "\n", 0, ["b"]) == Some(2)
  {
    hide Find;
    PlainBodyNeedsOnePiece(2, "a", 0, ["b"]);
    FindIs("\n"[0..], IsEol, 0);
    assert RestOf("\n", 0) == 0;
  }

  // What has come with the first i pieces and the next one settles the request: its
  // headers are bad or call for no body, or the next piece brings, beyond where the scan
  // of everything before it came to rest, as many bytes as they announce.
  predicate Settles(chunks: seq<seq<char>>, i: nat)
    requires i < |chunks|
  {
    var (before, all) := (Concat(chunks[..i]), Concat(chunks[..i + 1]));
    match Advance(START, all)
    case Reading(_, _, _) => false
    case Bad => true
    case Dispatch(_, _) => true
    case Body(at, f) =>
      |all| >= f.contentLength + if Advance(START, before).Body? && at <= |before| then RestOf(before, at) else at
  }

  // ---- What a finished parse can contain ----------------------------------------------

  predicate CleanTarget(s: string) {
    forall c :: c in s ==> !IsBlank(c) && !IsEol(c) && c != NUL
  }

  predicate CleanValue(s: string) {
    (s != [] ==> !IsBlank(s[0])) && forall c :: c in s ==> !IsEol(c) && c != NUL
  }

  predicate CleanFields(f: Fields) {
    CleanTarget(f.url) && (f.host.Some? ==> CleanValue(f.host.value))
  }

  lemma TakeLineClean(p: Parse, line: string, next: nat)
    requires p.Reading? && CleanFields(p.fields) && forall c :: c in line ==> !IsEol(c)
    ensures var q := TakeLine(p, line, next); q.Bad? || CleanFields(q.fields)
  {
    var text := CStr(line);
    assert forall c :: c in text ==> c in line && c != NUL;
    if p.phase == Headers && StartsWithIgnoreCase(text, "Host:") {
      assert forall c :: c in SkipBlanks(text[5..]) ==> c in text;
    }
  }

  lemma {:induction false} AdvanceClean(p: Parse, s: seq<char>)
    requires Within(p, s) && (!p.Bad? ==> CleanFields(p.fields))
    ensures var q := Advance(p, s); q.Bad? || CleanFields(q.fields)
    decreases if p.Reading? then |s| - p.at else 0
  {
    hide TakeLine, NextLine;
    if p.Reading? && NextLine(s, p.at).Line? {
      var end := NextLine(s, p.at).end;
      TakeLineClean(p, s[p.at..end], end + 2);
      var q := TakeLine(p, s[p.at..end], end + 2);
      if q.Reading? {
        AdvanceClean(q, s);
      }
    }
  }
}
