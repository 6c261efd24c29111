// The server's connection object: a fixed read buffer that requests are parsed in,
// in place, as their bytes arrive.
module HttpConn {
  import opened CStrings
  import opened HttpRequest
  import opened HttpResponse
  import opened AnswerText
  import opened Options
  import opened Joining

  const READ_BUFFER_SIZE: nat := 2048
  const WRITE_BUFFER_SIZE: nat := 1024
  const FILENAME_LEN: nat := 200
  // How far the clearing of a write buffer reaches into the read buffer of the connection
  // stored next, with the field sizes of x86-64 Linux.
  const SPILL: nat := 804
  const DOC_ROOT: string := "./resources"

  datatype CheckState = CheckRequestLine | CheckHeader | CheckContent
  datatype LineStatus = LineOk | LineBad | LineOpen
  // What stat reports about a path.
  datatype FileStat = Absent | Stat(othersMayRead: bool, isDirectory: bool, size: nat)
  type FileSystem = string -> FileStat

  function RealFile(target: string): string {
    var room := FILENAME_LEN - |DOC_ROOT| - 1;
    DOC_ROOT + if |target| <= room then target else target[..room]
  }

  function ServeCode(fs: FileSystem, target: string): (code: HttpCode)
    ensures code in {NoResource, ForbiddenRequest, BadRequest, FileRequest}
  {
    match fs(RealFile(target))
    case Absent => NoResource
    case Stat(othersMayRead, isDirectory, _) =>
      if !othersMayRead then ForbiddenRequest
      else if isDirectory then BadRequest
      else FileRequest
  }

  // The code for a target, and its size when that is what is served.
  predicate Serves(fs: FileSystem, target: string, code: HttpCode, size: nat) {
    && code == ServeCode(fs, target)
    && (code == FileRequest ==> size == fs(RealFile(target)).size)
  }

  // What is written back for a target.
  function Answer(fs: FileSystem, target: string, linger: bool): string {
    var code := ServeCode(fs, target);
    Response(code, linger, if code == FileRequest then fs(RealFile(target)).size else 0)
  }

  lemma ServesAnswer(fs: FileSystem, target: string, code: HttpCode, size: nat, linger: bool)
    ensures Serves(fs, target, code, size) ==>
      code != NoRequest && Response(code, linger, size) == Answer(fs, target, linger)
  {
    hide ErrorResponse, ResponseHeaders, StatusLine;
  }

  // The text says what there is at the target under the document root, of which the path
  // of a file takes the first 188 characters.
  ghost predicate Replies(fs: FileSystem, target: string, linger: bool, text: string) {
    match fs("./resources" + if |target| <= 188 then target else target[..188])
    case Absent => IsAnswer(text, "404 Not Found", linger, |FORM_404|, FORM_404)
    case Stat(othersMayRead, isDirectory, size) =>
      if !othersMayRead then IsAnswer(text, "403 Forbidden", linger, |FORM_403|, FORM_403)
      else if isDirectory then IsAnswer(text, "400 Bad Request", linger, |FORM_400|, FORM_400)
      else IsAnswer(text, "200 OK", linger, ToInt32(size), "")
  }

  lemma AnswerReplies(fs: FileSystem, target: string, linger: bool)
    ensures Replies(fs, target, linger, Answer(fs, target, linger))
  {
    hide Response, IsAnswer, ToInt32;
    var code := ServeCode(fs, target);
    ResponseText(code, linger, if code == FileRequest then fs(RealFile(target)).size else 0);
    assert RealFile(target) == "./resources" + if |target| <= 188 then target else target[..188];
  }

  // ---- Scanning for the end of a line, in place -----------------------------------------

  datatype Scan = Scan(status: LineStatus, checked: nat, buf: seq<char>)

  function ScanLine(b: seq<char>, checked: nat, n: nat): (r: Scan)
    requires checked <= n <= |b|
    ensures checked <= r.checked <= n && |r.buf| == |b|
  {
    var k := checked + Find(b[checked..n], IsEol);
    if k == n then Scan(LineOpen, k, b)
    else if b[k] == CR then
      if k + 1 == n then Scan(LineOpen, k, b)
      else if b[k + 1] == LF then Scan(LineOk, k + 2, b[k := NUL][k + 1 := NUL])
      else Scan(LineBad, k, b)
    else if k > 1 && b[k - 1] == CR then Scan(LineOk, k + 1, b[k - 1 := NUL][k := NUL])
    else Scan(LineBad, k, b)
  }

  // Unless the byte before the scan is a CR, the arm that joins an LF to it is never
  // taken, and the scan finds the line the stream has.
  lemma ScanIsNextLine(b: seq<char>, checked: nat, s: seq<char>, at: nat) returns (r: Scan, e: LineEnd)
    requires at <= checked <= |s| <= |b| && b[checked..|s|] == s[checked..]
    requires forall i :: at <= i < checked ==> !IsEol(s[i])
    requires checked > 0 ==> b[checked - 1] != CR
    ensures r == ScanLine(b, checked, |s|) && e == NextLine(s, at)
    ensures e.Line? ==> e.end >= checked && r == Scan(LineOk, e.end + 2, b[e.end := NUL][e.end + 1 := NUL])
    ensures e.Open? ==> r.status == LineOpen && r.buf == b
    ensures e.Broken? ==> r.status == LineBad && r.buf == b
    ensures r.checked > 0 ==> r.buf[r.checked - 1] != CR
    ensures !e.Line? ==> r.checked == at + Find(s[at..], IsEol)
    ensures !e.Line? ==> forall i :: at <= i < r.checked ==> !IsEol(s[i])
  {
    hide Find, ScanLine, NextLine;
    var k := SameFirstEol(b, checked, s, at);
    r := ScanLine(b, checked, |s|);
    e := NextLine(s, at);
    ScanAt(b, checked, |s|, k);
    NextLineAt(s, at, k);
  }

  // The scan, by its first line end: the byte before that is never a CR.
  lemma ScanAt(b: seq<char>, checked: nat, n: nat, k: nat)
    requires checked <= n <= |b| && k == checked + Find(b[checked..n], IsEol) && k <= n
    requires (checked > 0 ==> b[checked - 1] != CR) && (k > checked ==> !IsEol(b[k - 1])) && (k < n ==> IsEol(b[k]))
    ensures ScanLine(b, checked, n) ==
      if k == n || (b[k] == CR && k + 1 == n) then Scan(LineOpen, k, b)
      else if b[k] == CR && b[k + 1] == LF then Scan(LineOk, k + 2, b[k := NUL][k + 1 := NUL])
      else Scan(LineBad, k, b)
  {
    hide Find;
  }

  lemma NextLineAt(s: seq<char>, at: nat, k: nat)
    requires at <= |s| && k == at + Find(s[at..], IsEol) && k <= |s| && (k < |s| ==> IsEol(s[k]))
    ensures NextLine(s, at) ==
      if k == |s| || (s[k] == CR && k + 1 == |s|) then Open
      else if s[k] == CR && s[k + 1] == LF then Line(k)
      else Broken
  {
    hide Find;
  }

  // Buffer and stream still agree past the scan when it found no line end ...
  lemma KeptWithoutLine(b: seq<char>, checked: nat, s: seq<char>, at: nat, c: nat)
    requires at <= checked <= c <= |s| <= |b| && b[at..checked] == s[at..checked] && b[checked..|s|] == s[checked..]
    ensures b[c..|s|] == s[c..] && b[at..c] == s[at..c]
  {
    assert b[c..|s|] == b[checked..|s|][c - checked..];
    assert b[at..c] == b[at..checked] + b[checked..|s|][..c - checked];
    assert s[at..c] == s[at..checked] + s[checked..][..c - checked];
  }

  // ... and when the line end it found has been overwritten.
  lemma KeptAfterLine(b: seq<char>, checked: nat, s: seq<char>, at: nat, end: nat)
    requires at <= checked <= end && end + 1 < |s| <= |b|
    requires b[at..checked] == s[at..checked] && b[checked..|s|] == s[checked..]
    ensures var c := b[end := NUL][end + 1 := NUL];
            c[..at] == b[..at] && c[at..end] == s[at..end] && c[end] == c[end + 1] == NUL && c[end + 2..|s|] == s[end + 2..]
  {
    KeptWithoutLine(b, checked, s, at, end);
    KeptWithoutLine(b, checked, s, at, end + 2);
    var c := b[end := NUL][end + 1 := NUL];
    assert c[at..end] == b[at..end] && c[end + 2..|s|] == b[end + 2..|s|];
  }

  // The buffer and the stream have the same first line end.
  lemma SameFirstEol(b: seq<char>, checked: nat, s: seq<char>, at: nat) returns (k: nat)
    requires at <= checked <= |s| <= |b| && b[checked..|s|] == s[checked..]
    requires forall i :: at <= i < checked ==> !IsEol(s[i])
    ensures k == checked + Find(b[checked..|s|], IsEol) == at + Find(s[at..], IsEol)
    ensures checked <= k <= |s| && forall i :: at <= i < k ==> !IsEol(s[i])
    ensures k > checked ==> !IsEol(b[k - 1])
    ensures k < |s| ==> b[k] == s[k] && IsEol(s[k])
    ensures k + 1 < |s| ==> b[k + 1] == s[k + 1]
  {
    hide Find;
    var (u, v) := (b[checked..|s|], s[checked..]);
    k := checked + Find(u, IsEol);
    forall i | at <= i < k ensures !IsEol(s[i]) {
      if i >= checked {
        assert s[i] == v[i - checked] == u[i - checked];
      }
    }
    assert k > checked ==> b[k - 1] == u[k - 1 - checked];
    assert k < |s| ==> b[k] == u[k - checked] == v[k - checked] == s[k];
    assert k + 1 < |s| ==> b[k + 1] == u[k + 1 - checked] == v[k + 1 - checked] == s[k + 1];
    FindIs(s[at..], IsEol, k - at);
  }

  // The first n bytes cleared.
  function Wiped(b: seq<char>, n: nat): (r: seq<char>)
    requires n <= |b|
    ensures |r| == |b|
  {
    seq(n, _ => NUL) + b[n..]
  }

  // Of a piece of memory from an address on, whatever lies below n is cleared already.
  predicate NulBelow(s: seq<char>, from: nat, n: nat) {
    forall i :: 0 <= i < |s| && from + i < n ==> s[i] == NUL
  }

  lemma WipedAt(b: seq<char>, n: nat, i: nat)
    requires n <= |b| && i < |b|
    ensures Wiped(b, n)[i] == if i < n then NUL else b[i]
  {
  }

  lemma WipedLength(b: seq<char>, n: nat)
    requires n <= |b|
    ensures |Wiped(b, n)| == |b|
  {
  }

  lemma WipedSlice(b: seq<char>, n: nat, from: nat, to: nat, s: seq<char>)
    requires n <= |b| && from <= to <= |b| && b[from..to] == s
    ensures Wiped(b, n)[from..to] == s <==> NulBelow(s, from, n)
  {
    var w := Wiped(b, n)[from..to];
    forall i | 0 <= i < |s| ensures w[i] == if from + i < n then NUL else s[i] {
      WipedAt(b, n, from + i);
    }
  }

  lemma WipedStr(b: seq<char>, n: nat, i: nat, s: string)
    requires n <= |b| && Str(b, i, s)
    ensures Str(Wiped(b, n), i, s) <==> s == "" || i >= n
  {
    WipedSlice(b, n, i, i + |s|, s);
    WipedAt(b, n, i + |s|);
    if s != "" && i < n {
      assert s[0] in s && s[0] != NUL;
    }
  }

  lemma WipedShows(b: seq<char>, n: nat, url: Option<nat>, host: Option<nat>, f: Fields, limit: nat)
    requires n <= |b| && Shows(b, url, host, f, limit)
    ensures Shows(Wiped(b, n), url, host, f, limit)
       <==> (url.Some? && f.url != "" ==> url.value >= n)
            && (host.Some? && f.host.Some? && f.host.value != "" ==> host.value >= n)
  {
    hide Str, Wiped;
    if url.Some? {
      WipedStr(b, n, url.value, f.url);
    }
    if host.Some? {
      WipedStr(b, n, host.value, f.host.value);
    }
  }

  method Wipe(a: array<char>, n: nat)
    requires n <= a.Length
    modifies a
    ensures a[..] == Wiped(old(a[..]), n)
  {
    forall i | 0 <= i < n {
      a[i] := NUL;
    }
  }

  method Zero(a: array<char>)
    modifies a
    ensures forall i :: 0 <= i < a.Length ==> a[i] == NUL
  {
    forall i | 0 <= i < a.Length {
      a[i] := NUL;
    }
  }

  class Connection {
    const readBuf: array<char>
    var readIdx: nat
    var checkedIndex: nat
    var startLine: nat
    var checkState: CheckState
    var url: Option<nat>
    var version: Option<nat>
    var host: Option<nat>
    var linger: bool
    var contentLength: int
    var realFile: string
    var fileSize: nat
    const writeBuf: array<char>
    var writeIdx: nat
    // -1 when closed.
    var sockfd: int
    // Every byte read since the last initialisation, where the body began, and what
    // the pointers above find.
    ghost var received: seq<char>
    ghost var bodyStart: nat
    ghost var fields: Fields

    constructor (sockfd: int)
      ensures Valid() && Fresh() && this.sockfd == sockfd
      ensures fresh(readBuf) && fresh(writeBuf)
    {
      readBuf := new char[READ_BUFFER_SIZE](_ => NUL);
      writeBuf := new char[WRITE_BUFFER_SIZE](_ => NUL);
      readIdx, checkedIndex, startLine, checkState := 0, 0, 0, CheckRequestLine;
      url, version, host, linger, contentLength := None, None, None, false, 0;
      realFile, fileSize, writeIdx, this.sockfd := "", 0, 0, sockfd;
      received, bodyStart, fields := [], 0, NO_FIELDS;
    }

    // Ready for the first byte of a request.
    ghost predicate Fresh()
      reads this, readBuf
    {
      Valid() && checkState == CheckRequestLine && Parsed() == START && received == [] && writeIdx == 0
    }

    // Ready for the first byte of the next request.
    method Clear()
      requires readBuf != writeBuf && readBuf.Length == READ_BUFFER_SIZE && writeBuf.Length == WRITE_BUFFER_SIZE
      modifies readBuf, writeBuf, `readIdx, `checkedIndex, `startLine, `checkState, `url, `version, `host, `linger
      modifies `contentLength, `realFile, `writeIdx, `received, `bodyStart, `fields
      ensures Fresh()
    {
      hide *;
      Zero(readBuf);
      Zero(writeBuf);
      checkState, linger, url, version, contentLength, host := CheckRequestLine, false, None, None, 0, None;
      startLine, checkedIndex, readIdx, writeIdx := 0, 0, 0, 0;
      realFile := "";
      received, bodyStart, fields := [], 0, NO_FIELDS;
      NothingRead();
    }

    // The source clears as many bytes from the write buffer on as the read buffer has,
    // which reaches into the connection stored next.
    method Init(next: Connection)
      requires readBuf != writeBuf && readBuf.Length == READ_BUFFER_SIZE && writeBuf.Length == WRITE_BUFFER_SIZE
      requires next != this && next.readBuf != readBuf && next.readBuf != writeBuf
      requires next.readBuf.Length == READ_BUFFER_SIZE
      modifies next`sockfd, next.readBuf
      modifies readBuf, writeBuf, `readIdx, `checkedIndex, `startLine, `checkState, `url, `version, `host, `linger
      modifies `contentLength, `realFile, `writeIdx, `received, `bodyStart, `fields
      ensures Fresh()
      ensures next.sockfd == 0 && next.readBuf[..] == Wiped(old(next.readBuf[..]), SPILL)
      ensures old(next.Valid()) ==> (next.Valid() <==> old(next.Survives()))
    {
      hide *;
      Clear();
      next.Clobber();
    }

    // No byte of the request in hand and no field taken from it lies where it is cleared.
    ghost predicate Survives()
      reads `checkState, `checkedIndex, `startLine, `readIdx, `received, `url, `host, `fields
    {
      && (forall i :: Pending() <= i < readIdx && i < SPILL && i < |received| ==> received[i] == NUL)
      && (url.Some? && fields.url != "" ==> url.value >= SPILL)
      && (host.Some? && fields.host.Some? && fields.host.value != "" ==> host.value >= SPILL)
    }

    // Where the bytes begin that are still to be parsed.
    function Pending(): nat
      reads `checkState, `checkedIndex, `startLine
    {
      if checkState == CheckContent then checkedIndex else startLine
    }

    // What clearing the connection stored before this one does to it.
    method Clobber()
      requires readBuf.Length == READ_BUFFER_SIZE
      modifies `sockfd, readBuf
      ensures sockfd == 0 && readBuf[..] == Wiped(old(readBuf[..]), SPILL)
      ensures old(Valid()) ==> (Valid() <==> old(Survives()))
    {
      hide Valid, BytesOver, OtherwiseValid, Shown, Shows, Unscanned, Scanned, Survives;
      ghost var b := readBuf[..];
      OverBuffer();
      Wipe(readBuf, SPILL);
      sockfd := 0;
      if BytesOver(b) && Shows(b, url, host, fields, startLine) && OtherwiseValid() {
        WipedExact(b);
      }
    }

    // What Valid says of the buffer's contents b ...
    ghost predicate BytesOver(b: seq<char>)
      reads `checkState, `checkedIndex, `startLine, `readIdx, `received
    {
      && startLine <= checkedIndex <= readIdx <= |b| && |received| == readIdx
      && b[checkedIndex..readIdx] == received[checkedIndex..]
      && (checkedIndex > 0 ==> b[checkedIndex - 1] != CR)
      && (checkState != CheckContent ==> b[startLine..checkedIndex] == received[startLine..checkedIndex])
    }

    // ... and of everything else.
    ghost predicate OtherwiseValid()
      reads `checkState, `checkedIndex, `startLine, `received, `url, `fields, `linger, `contentLength, `bodyStart
    {
      && linger == fields.linger && contentLength == fields.contentLength
      && (url.Some? <==> checkState != CheckRequestLine)
      && (checkState == CheckContent ==> bodyStart <= checkedIndex)
      && (checkState != CheckContent ==> forall i :: startLine <= i < checkedIndex && i < |received| ==> !IsEol(received[i]))
    }

    lemma OverBuffer()
      requires readBuf.Length == READ_BUFFER_SIZE
      ensures Valid() <==> BytesOver(readBuf[..]) && Shows(readBuf[..], url, host, fields, startLine) && OtherwiseValid()
    {
      hide Shows;
      if startLine <= checkedIndex <= readIdx <= READ_BUFFER_SIZE {
        assert readBuf[checkedIndex..readIdx] == readBuf[..][checkedIndex..readIdx];
        assert readBuf[startLine..checkedIndex] == readBuf[..][startLine..checkedIndex];
      }
    }

    lemma WipedExact(b: seq<char>)
      requires readBuf.Length == READ_BUFFER_SIZE == |b| && readBuf[..] == Wiped(b, SPILL)
      requires BytesOver(b) && Shows(b, url, host, fields, startLine) && OtherwiseValid()
      ensures Valid() <==> Survives()
    {
      hide Shows, Wiped, Valid, BytesOver, OtherwiseValid, Pending;
      OverBuffer();
      WipedBytes(b);
      WipedShows(b, SPILL, url, host, fields, startLine);
    }

    lemma WipedBytes(b: seq<char>)
      requires SPILL <= |b| && BytesOver(b)
      ensures BytesOver(Wiped(b, SPILL)) <==>
        forall i :: Pending() <= i < readIdx && i < SPILL && i < |received| ==> received[i] == NUL
    {
      hide Wiped, NulBelow, Pending;
      WipedSlice(b, SPILL, checkedIndex, readIdx, received[checkedIndex..]);
      WipedSlice(b, SPILL, startLine, checkedIndex, b[startLine..checkedIndex]);
      if checkedIndex > 0 {
        WipedAt(b, SPILL, checkedIndex - 1);
      }
      WipedLength(b, SPILL);
      PendingWiped();
    }

    // The bytes to be parsed are those scanned of the line in hand and those not scanned.
    lemma PendingWiped()
      requires startLine <= checkedIndex <= readIdx == |received|
      ensures (forall i :: Pending() <= i < readIdx && i < SPILL && i < |received| ==> received[i] == NUL)
         <==> NulBelow(received[checkedIndex..], checkedIndex, SPILL)
              && (checkState != CheckContent ==> NulBelow(received[startLine..checkedIndex], startLine, SPILL))
    {
      var (u, v) := (received[checkedIndex..], received[startLine..checkedIndex]);
      forall i | Pending() <= i < readIdx
        ensures received[i] == if i < checkedIndex then v[i - startLine] else u[i - checkedIndex]
      {
      }
      if NulBelow(u, checkedIndex, SPILL) && (checkState != CheckContent ==> NulBelow(v, startLine, SPILL)) {
        forall i | Pending() <= i < readIdx && i < SPILL ensures received[i] == NUL {
          assert received[i] == if i < checkedIndex then v[i - startLine] else u[i - checkedIndex];
        }
      }
    }

    lemma NothingRead()
      requires readBuf.Length == READ_BUFFER_SIZE && readIdx == checkedIndex == startLine == writeIdx == 0
      requires checkState == CheckRequestLine && url == None && host == None && !linger && contentLength == 0
      requires received == [] && fields == NO_FIELDS
      ensures Fresh()
    {
      hide Shows;
      ShowsNothing(readBuf[..]);
      assert readBuf[0..0] == [];
    }

    // Takes what the socket holds. Filling the buffer makes the next receive return
    // nothing, which reads as the end of the stream; drained says how the receive after
    // the last byte ends when there is room: would block, or closed or failed.
    method Read(data: seq<char>, drained: bool) returns (ok: bool)
      requires Valid()
      modifies readBuf, `readIdx, `received
      ensures Valid() && ok == (drained && old(readIdx) + |data| < READ_BUFFER_SIZE)
      ensures ok ==> received == old(received) + data
      ensures checkState != CheckContent ==> Parsed() == old(Parsed())
    {
      hide Shows;
      if readIdx >= READ_BUFFER_SIZE {
        return false;
      }
      var n := if |data| <= READ_BUFFER_SIZE - readIdx then |data| else READ_BUFFER_SIZE - readIdx;
      AppendedSlice(received, data[..n], startLine, checkedIndex);
      CopyIn(data[..n]);
      readIdx := readIdx + n;
      received := received + data[..n];
      return drained && readIdx < READ_BUFFER_SIZE;
    }

    // What the kernel writes behind the bytes already read.
    method CopyIn(data: seq<char>)
      requires Valid() && readIdx + |data| <= READ_BUFFER_SIZE
      modifies readBuf
      ensures readBuf[checkedIndex..readIdx + |data|] == (received + data)[checkedIndex..]
      ensures readBuf[startLine..checkedIndex] == old(readBuf[startLine..checkedIndex])
      ensures Shown(startLine) && (checkedIndex > 0 ==> readBuf[checkedIndex - 1] == old(readBuf[checkedIndex - 1]))
    {
      hide Shows;
      ghost var b := readBuf[..];
      for i := 0 to |data|
        invariant readBuf[..] == b[..readIdx] + data[..i] + b[readIdx + i..]
      {
        readBuf[readIdx + i] := data[i];
      }
      assert data[..|data|] == data;
      AppendKeeps(b, readBuf[..], readIdx, data, received, startLine, checkedIndex);
      ShowsFrame(b, readBuf[..], url, host, fields, startLine);
    }

    lemma AppendKeeps(b: seq<char>, c: seq<char>, n: nat, data: seq<char>, s: seq<char>, start: nat, checked: nat)
      requires start <= checked <= n == |s| && n + |data| <= |b| && b[checked..n] == s[checked..]
      requires c == b[..n] + data + b[n + |data|..]
      ensures |c| == |b| && c[..n] == b[..n] && c[checked..n + |data|] == (s + data)[checked..]
      ensures c[start..checked] == b[start..checked] && c[..start] == b[..start]
    {
    }

    predicate Bounds()
      reads this
    {
      readBuf.Length == READ_BUFFER_SIZE && startLine <= checkedIndex <= readIdx <= READ_BUFFER_SIZE
    }

    // The pointers find the fields, below the limit.
    ghost predicate Shown(limit: nat)
      reads `url, `host, `fields, `linger, `contentLength, readBuf
    {
      Shows(readBuf[..], url, host, fields, limit) && linger == fields.linger && contentLength == fields.contentLength
    }

    // What has not been scanned yet is as it was received.
    ghost predicate Unscanned()
      reads `readIdx, `checkedIndex, `received, readBuf
    {
      && checkedIndex <= readIdx <= readBuf.Length == READ_BUFFER_SIZE && |received| == readIdx
      && readBuf[checkedIndex..readIdx] == received[checkedIndex..]
      && (checkedIndex > 0 ==> readBuf[checkedIndex - 1] != CR)
    }

    // The scanned part of the line in hand has no line end in it.
    ghost predicate Scanned()
      reads `startLine, `checkedIndex, `received, readBuf
      requires startLine <= checkedIndex <= readBuf.Length && checkedIndex <= |received|
    {
      && readBuf[startLine..checkedIndex] == received[startLine..checkedIndex]
      && forall i :: startLine <= i < checkedIndex ==> !IsEol(received[i])
    }

    ghost predicate Valid()
      reads this, readBuf
    {
      && Bounds() && Unscanned() && Shown(startLine)
      && (url.Some? <==> checkState != CheckRequestLine)
      && (checkState == CheckContent ==> bodyStart <= checkedIndex)
      && (checkState != CheckContent ==> Scanned())
    }

    // Where the parse of the stream stands while lines are being read.
    ghost function Parsed(): (p: Parse)
      reads this, readBuf
      requires Valid() && checkState != CheckContent
      ensures Within(p, received)
    {
      Reading(if checkState == CheckRequestLine then RequestLine else Headers, startLine, fields)
    }

    // A complete line lies at text, its line end overwritten by terminators.
    ghost predicate LineAt(text: nat, line: seq<char>)
      reads `checkedIndex, readBuf
    {
      && text + |line| + 2 == checkedIndex <= readBuf.Length == READ_BUFFER_SIZE
      && readBuf[text..text + |line|] == line && readBuf[text + |line|] == NUL
    }

    // The scan, with its result read off as a step of parsing the stream.
    method ParseLine() returns (status: LineStatus)
      requires Valid()
      modifies readBuf, this`checkedIndex
      ensures Scan(status, checkedIndex, readBuf[..]) == ScanLine(old(readBuf[..]), old(checkedIndex), readIdx)
      ensures status != LineOk ==> Valid() && (checkState != CheckContent ==> !NextLine(received, startLine).Line?)
      ensures status == LineOk ==>
        && Bounds() && Unscanned() && Shown(startLine) && checkedIndex >= old(checkedIndex) + 2
        && (checkState != CheckContent ==>
              && NextLine(received, startLine) == Line(checkedIndex - 2)
              && LineAt(startLine, received[startLine..checkedIndex - 2]))
      ensures checkState == CheckContent ==>
        RestOf(received, old(checkedIndex)) == if status == LineOk then RestOf(received, checkedIndex) else checkedIndex
    {
      hide ScanLine, NextLine, Shows, RestOf;
      ghost var r := ScanKeeps();
      status := ScanToLineEnd();
      assert readBuf[checkedIndex..readIdx] == readBuf[..][checkedIndex..readIdx];
      if status != LineOk {
        assert checkState != CheckContent ==> readBuf[startLine..checkedIndex] == readBuf[..][startLine..checkedIndex];
      } else {
        assert checkState != CheckContent ==>
          readBuf[startLine..checkedIndex - 2] == readBuf[..][startLine..checkedIndex - 2];
      }
    }

    method ScanToLineEnd() returns (status: LineStatus)
      requires Bounds()
      modifies readBuf, this`checkedIndex
      ensures Scan(status, checkedIndex, readBuf[..]) == ScanLine(old(readBuf[..]), old(checkedIndex), readIdx)
    {
      hide Find;
      ghost var (b, c, n) := (readBuf[..], checkedIndex, readIdx);
      while checkedIndex < readIdx
        invariant c <= checkedIndex <= n == readIdx && readBuf[..] == b
        invariant forall i :: c <= i < checkedIndex ==> !IsEol(b[i])
      {
        var temp := readBuf[checkedIndex];
        if IsEol(temp) {
          FindIs(b[c..n], IsEol, checkedIndex - c);
        }
        if temp == CR {
          if checkedIndex + 1 == readIdx {
            return LineOpen;
          } else if readBuf[checkedIndex + 1] == LF {
            readBuf[checkedIndex] := NUL;
            checkedIndex := checkedIndex + 1;
            readBuf[checkedIndex] := NUL;
            checkedIndex := checkedIndex + 1;
            return LineOk;
          }
          return LineBad;
        } else if temp == LF {
          if checkedIndex > 1 && readBuf[checkedIndex - 1] == CR {
            readBuf[checkedIndex - 1] := NUL;
            readBuf[checkedIndex] := NUL;
            checkedIndex := checkedIndex + 1;
            return LineOk;
          }
          return LineBad;
        }
        checkedIndex := checkedIndex + 1;
      }
      FindIs(b[c..n], IsEol, n - c);
      return LineOpen;
    }

    // The contract of the scan, read off its result.
    lemma ScanKeeps() returns (r: Scan)
      requires Valid()
      ensures r == ScanLine(readBuf[..], checkedIndex, readIdx)
      ensures r.checked > 0 ==> r.buf[r.checked - 1] != CR
      ensures r.buf[r.checked..readIdx] == received[r.checked..]
      ensures Shows(r.buf, url, host, fields, startLine)
      ensures r.status != LineOk ==> r.buf == readBuf[..]
      ensures r.status == LineOk ==> r.checked >= checkedIndex + 2
      ensures r.status != LineOk && checkState != CheckContent ==>
        && !NextLine(received, startLine).Line?
        && r.buf[startLine..r.checked] == received[startLine..r.checked]
        && forall i :: startLine <= i < r.checked ==> !IsEol(received[i])
      ensures r.status == LineOk && checkState != CheckContent ==>
        && NextLine(received, startLine) == Line(r.checked - 2)
        && r.buf[startLine..r.checked - 2] == received[startLine..r.checked - 2]
        && r.buf[r.checked - 2] == NUL
      ensures checkState == CheckContent ==>
        RestOf(received, checkedIndex) == if r.status == LineOk then RestOf(received, r.checked) else r.checked
    {
      hide ScanLine, NextLine, Shows, Find, Str, CStr;
      var (b, s) := (readBuf[..], received);
      var at := if checkState == CheckContent then checkedIndex else startLine;
      assert b[at..checkedIndex] == s[at..checkedIndex] && b[checkedIndex..|s|] == s[checkedIndex..];
      var e;
      r, e := ScanIsNextLine(b, checkedIndex, s, at);
      if e.Line? {
        KeptAfterLine(b, checkedIndex, s, at, e.end);
        SliceKept(r.buf, b, at, 0, startLine);
        assert r.buf[..startLine] == r.buf[0..startLine] && b[..startLine] == b[0..startLine];
      } else {
        KeptWithoutLine(b, checkedIndex, s, at, r.checked);
      }
      ShowsFrame(b, r.buf, url, host, fields, startLine);
    }

    // Reads the string at an address; the caller knows which one it is.
    method StringAt(i: nat, ghost s: string) returns (r: string)
      requires Str(readBuf[..], i, s)
      ensures r == s
    {
      r := CStr(readBuf[i..]);
      assert readBuf[i..] == readBuf[..][i..];
      StrIsCStr(readBuf[..], i, s);
    }

    // Ends the string at i after k characters; what follows becomes a string too.
    method CutAt(i: nat, k: nat, ghost s: string)
      requires Str(readBuf[..], i, s) && k < |s|
      modifies readBuf
      ensures readBuf[..] == old(readBuf[..])[i + k := NUL]
      ensures Str(readBuf[..], i, s[..k]) && Str(readBuf[..], i + k + 1, s[k + 1..])
    {
      StrCut(readBuf[..], i, s, k);
      readBuf[i + k] := NUL;
      assert readBuf[..] == old(readBuf[..])[i + k := NUL];
    }

    // Only bytes of the line itself are overwritten.
    method ParseRequestLine(text: nat, ghost line: seq<char>) returns (ret: HttpCode)
      requires Bounds() && Unscanned() && LineAt(text, line) && Shown(text) && url.None?
      modifies readBuf, this`url, this`version, this`checkState, this`fields
      ensures Unscanned()
      ensures ret == if RequestTarget(line).None? then BadRequest else NoRequest
      ensures ret == BadRequest ==> checkState == old(checkState)
      ensures RequestTarget(line).Some? ==>
        && checkState == CheckHeader && url.Some? && Shown(checkedIndex)
        && fields == old(fields).(url := RequestTarget(line).value)
    {
      hide RequestTarget, CStr, Str, SameOutside;
      ret := ParseRequestText(text, line);
      SameAround(old(readBuf[..]), readBuf[..], text, checkedIndex - 2);
      TailKept(old(readBuf[..]), readBuf[..], checkedIndex - 2, checkedIndex, readIdx);
      assert readBuf[..][checkedIndex..readIdx] == readBuf[checkedIndex..readIdx];
      assert old(readBuf[..])[checkedIndex..readIdx] == old(readBuf[checkedIndex..readIdx]);
      if ret == NoRequest {
        ShowsFrame(old(readBuf[..]), readBuf[..], None, host, fields, text);
        assert Shows(readBuf[..], None, host, fields, checkedIndex);
        fields := fields.(url := RequestTarget(line).value);
      }
    }

    method ParseRequestText(text: nat, ghost line: seq<char>) returns (ret: HttpCode)
      requires Bounds() && LineAt(text, line)
      modifies readBuf, this`url, this`version, this`checkState
      ensures SameOutside(old(readBuf[..]), readBuf[..], text, text + |line|)
      ensures ret == if RequestTarget(line).None? then BadRequest else NoRequest
      ensures ret == BadRequest ==> checkState == old(checkState)
      ensures RequestTarget(line).Some? ==>
        && checkState == CheckHeader && url.Some?
        && Str(readBuf[..], url.value, RequestTarget(line).value)
        && url.value + |RequestTarget(line).value| < checkedIndex
    {
      hide CStr, Find, Str, EqualsIgnoreCase, TargetAndVersion, SameOutside;
      ghost var b := readBuf[..];
      assert b[text..text + |line|] == readBuf[text..text + |line|];
      StrOfPiece(b, text, line);
      SameItself(b, text, text + |line|);
      var s := StringAt(text, CStr(line));
      var i := Find(s, IsBlank);
      if i == |s| {
        url := None;
        return BadRequest;
      }
      CutAt(text, i, s);
      SameStill(b, b, text, text + |line|, text + i);
      url := Some(text + i + 1);
      var verb := StringAt(text, s[..i]);
      if !EqualsIgnoreCase(verb, "GET") {
        return BadRequest;
      }
      ghost var (c, rest) := (readBuf[..], s[i + 1..]);
      ret := ParseTargetAndVersion(text + i + 1, rest);
      SameTrans(b, c, readBuf[..], text, text + |line|, text + i + 1, text + i + 1 + |rest|);
    }

    method ParseTargetAndVersion(u: nat, ghost rest: string) returns (ret: HttpCode)
      requires Str(readBuf[..], u, rest)
      modifies readBuf, this`url, this`version, this`checkState
      ensures SameOutside(old(readBuf[..]), readBuf[..], u, u + |rest|)
      ensures ret == if TargetAndVersion(rest).None? then BadRequest else NoRequest
      ensures ret == BadRequest ==> checkState == old(checkState)
      ensures TargetAndVersion(rest).Some? ==>
        && checkState == CheckHeader && url.Some?
        && Str(readBuf[..], url.value, TargetAndVersion(rest).value)
        && url.value + |TargetAndVersion(rest).value| <= u + |rest|
    {
      hide CStr, Find, Str, EqualsIgnoreCase, AfterAuthority, SameOutside;
      ghost var b := readBuf[..];
      SameItself(b, u, u + |rest|);
      var s := StringAt(u, rest);
      var j := Find(s, IsBlank);
      if j == |s| {
        version := None;
        return BadRequest;
      }
      CutAt(u, j, s);
      SameStill(b, b, u, u + |rest|, u + j);
      version := Some(u + j + 1);
      var v := StringAt(u + j + 1, s[j + 1..]);
      if !EqualsIgnoreCase(v, "HTTP/1.1") {
        return BadRequest;
      }
      var target := StringAt(u, s[..j]);
      ret := ParseTarget(u, target);
      if ret == NoRequest {
        checkState := CheckHeader;
      }
    }

    // The absolute form keeps only what starts at the first slash after the authority.
    method ParseTarget(u: nat, target: string) returns (ret: HttpCode)
      requires Str(readBuf[..], u, target)
      modifies this`url
      ensures ret == match AfterAuthority(target)
                     case None => BadRequest
                     case Some(t) => if t != [] && t[0] == '/' then NoRequest else BadRequest
      ensures ret == NoRequest ==>
        && AfterAuthority(target).Some? && url.Some?
        && Str(readBuf[..], url.value, AfterAuthority(target).value)
        && url.value + |AfterAuthority(target).value| == u + |target|
    {
      hide CStr, Find, Str, EqualsIgnoreCase;
      url := Some(u);
      var t := target;
      if StartsWithIgnoreCase(target, "http://") {
        StrSuffix(readBuf[..], u, target, 7);
        var after := StringAt(u + 7, target[7..]);
        var k := Find(after, IsSlash);
        url := if k == |after| then None else Some(u + 7 + k);
        StrSuffix(readBuf[..], u + 7, after, k);
        t := after[k..];
      }
      StrFirst(readBuf[..], if url.Some? then url.value else u + |target|, t);
      if url.None? || readBuf[url.value] != '/' {
        return BadRequest;
      }
      return NoRequest;
    }

    // A blank line ends the headers; the caller sees in checkState whether a body follows.
    method ParseHeaders(text: nat, ghost line: seq<char>) returns (ret: HttpCode)
      requires LineAt(text, line) && Shown(text)
      modifies this`checkState, this`linger, this`contentLength, this`host, this`fields
      ensures Shown(checkedIndex)
      ensures CStr(line) == [] ==>
        && fields == old(fields)
        && checkState == (if fields.contentLength != 0 then CheckContent else old(checkState))
        && ret == (if fields.contentLength != 0 then NoRequest else GetRequest)
      ensures CStr(line) != [] ==>
        ret == NoRequest && checkState == old(checkState) && fields == HeaderLine(old(fields), line)
    {
      hide CStr, Find, Str, EqualsIgnoreCase, AToL, ToInt32;
      assert readBuf[..][text..text + |line|] == readBuf[text..text + |line|];
      StrOfPiece(readBuf[..], text, line);
      var s := StringAt(text, CStr(line));
      if s == "" {
        if contentLength != 0 {
          checkState := CheckContent;
          return NoRequest;
        }
        return GetRequest;
      } else if StartsWithIgnoreCase(s, "Connection:") {
        if EqualsIgnoreCase(SkipBlanks(s[11..]), "keep-alive") {
          linger := true;
        }
      } else if StartsWithIgnoreCase(s, "Content-Length:") {
        contentLength := ToInt32(AToL(SkipBlanks(s[15..])));
      } else if StartsWithIgnoreCase(s, "Host:") {
        var k := Find(s[5..], NotBlank);
        host := Some(text + 5 + k);
        StrSuffix(readBuf[..], text, s, 5 + k);
        assert s[5 + k..] == s[5..][k..];
      }
      fields := HeaderLine(fields, line);
      return NoRequest;
    }

    // The body is only awaited, not read. The store ends the text n bytes after it
    // began, when that is a byte of the buffer.
    method ParseContent(text: nat) returns (ret: HttpCode)
      requires Bounds() && text <= checkedIndex
      modifies readBuf
      ensures ret == if readIdx >= contentLength + checkedIndex then GetRequest else NoRequest
      ensures readBuf[..] == old(readBuf[..])
        || (ret == GetRequest && 0 <= text + contentLength < readBuf.Length
            && readBuf[..] == old(readBuf[..])[text + contentLength := NUL])
      ensures old(Shown(text)) && contentLength >= 0 ==> Shown(checkedIndex)
    {
      hide Shows;
      if Shown(text) {
        ShowsFrame(readBuf[..], readBuf[..], url, host, fields, text);
        if contentLength >= 0 && text + contentLength < readBuf.Length {
          ShowsFrame(readBuf[..], readBuf[..][text + contentLength := NUL], url, host, fields, text);
        }
      }
      if readIdx >= contentLength + checkedIndex {
        if 0 <= text + contentLength < readBuf.Length {
          readBuf[text + contentLength] := NUL;
          assert readBuf[..] == old(readBuf[..])[text + contentLength := NUL];
        }
        return GetRequest;
      }
      return NoRequest;
    }

    lemma UrlShown(limit: nat)
      requires Bounds() && Shown(limit) && url.Some?
      ensures url.value <= readBuf.Length && CStr(readBuf[url.value..]) == fields.url
    {
      assert readBuf[url.value..] == readBuf[..][url.value..];
      StrIsCStr(readBuf[..], url.value, fields.url);
    }

    method DoRequest(fs: FileSystem) returns (code: HttpCode)
      requires Bounds() && url.Some? && url.value <= readBuf.Length
      modifies this`realFile, this`fileSize
      ensures Serves(fs, CStr(readBuf[url.value..]), code, fileSize)
      ensures code in {NoResource, ForbiddenRequest, BadRequest, FileRequest}
      ensures realFile == RealFile(CStr(readBuf[url.value..]))
    {
      realFile := DOC_ROOT;
      var room := FILENAME_LEN - |DOC_ROOT| - 1;
      var u := CStr(readBuf[url.value..]);
      realFile := realFile + if |u| <= room then u else u[..room];
      var st := fs(realFile);
      if st.Absent? {
        return NoResource;
      }
      fileSize := st.size;
      if !st.othersMayRead {
        return ForbiddenRequest;
      }
      if st.isDirectory {
        return BadRequest;
      }
      return FileRequest;
    }

    // The switch of the main loop: one line, or one look at the body.
    method HandleLine(text: nat, fs: FileSystem, ghost p: Parse, ghost line: seq<char>) returns (done: bool, code: HttpCode)
      requires Bounds() && text <= startLine == checkedIndex && Unscanned() && Shown(text)
      requires url.Some? <==> checkState != CheckRequestLine
      requires checkState != CheckContent ==>
        LineAt(text, line) && p == Reading(if checkState == CheckRequestLine then RequestLine else Headers, text, fields)
      requires checkState == CheckContent ==> bodyStart <= checkedIndex
      modifies readBuf, `url, `version, `host, `linger, `contentLength, `checkState
      modifies `realFile, `fileSize, `fields, `bodyStart
      ensures done <==> code != NoRequest
      ensures code in {NoRequest, NoResource, ForbiddenRequest, BadRequest, FileRequest}
      ensures old(checkState) != CheckContent ==>
        match TakeLine(p, line, startLine)
        case Reading(_, _, _) =>
          !done && Valid() && checkState != CheckContent && Parsed() == TakeLine(p, line, startLine)
        case Bad => done && code == BadRequest && checkState != CheckContent
        case Dispatch(_, f) =>
          done && Serves(fs, f.url, code, fileSize) && checkState != CheckContent && fields == f && Shown(startLine)
        case Body(_, f) =>
          !done && Valid() && checkState == CheckContent && fields == f && bodyStart == startLine
      ensures old(checkState) == CheckContent ==>
        && checkState == CheckContent && fields == old(fields) && bodyStart == old(bodyStart)
        && (done <==> readIdx >= old(contentLength) + checkedIndex) && (!done ==> Valid())
        && (done && old(contentLength) >= 0 ==> Shown(startLine) && Serves(fs, fields.url, code, fileSize))
    {
      hide RequestTarget, TargetAndVersion, AfterAuthority, HeaderLine, CStr, Str, Shows, LineAt, Serves;
      done, code := false, NoRequest;
      match checkState {
        case CheckRequestLine =>
          var ret := ParseRequestLine(text, line);
          if ret == BadRequest {
            return true, BadRequest;
          }
        case CheckHeader =>
          var ret := ParseHeaders(text, line);
          if ret == GetRequest {
            UrlShown(checkedIndex);
            code := DoRequest(fs);
            return true, code;
          }
          if checkState == CheckContent {
            bodyStart := startLine;
          }
        case CheckContent =>
          UrlShown(text);
          ghost var b := readBuf[..];
          var ret := ParseContent(text);
          if ret == GetRequest {
            if contentLength >= 0 {
              UrlShown(checkedIndex);
            }
            code := DoRequest(fs);
            return true, code;
          }
          assert readBuf[..] == b;
          assert readBuf[checkedIndex..readIdx] == b[checkedIndex..readIdx];
      }
    }

    lemma ValidFacts()
      requires Valid()
      ensures Bounds() && |received| == readIdx && Unscanned() && Shown(startLine) && contentLength == fields.contentLength
      ensures (url.Some? <==> checkState != CheckRequestLine) && (checkState == CheckContent ==> bodyStart <= checkedIndex)
    {
    }

    // One turn of the main loop while lines are being read: the condition scans for a
    // line, the switch takes it.
    method TurnLine(fs: FileSystem, ghost p: Parse) returns (done: bool, code: HttpCode)
      requires Valid() && readIdx < READ_BUFFER_SIZE && checkState != CheckContent && p == Parsed()
      modifies readBuf, `checkedIndex, `startLine, `checkState, `url, `version, `host, `linger, `contentLength
      modifies `realFile, `fileSize, `fields, `bodyStart
      ensures Bounds() && (!done ==> code == NoRequest) && (code == NoRequest ==> Valid())
      ensures code in {NoRequest, NoResource, ForbiddenRequest, BadRequest, FileRequest}
      ensures !done ==>
        && checkedIndex > old(checkedIndex) && contentLength == fields.contentLength
        && if checkState == CheckContent
           then Advance(p, received) == Body(checkedIndex, fields) && bodyStart == startLine == checkedIndex
           else Advance(Parsed(), received) == Advance(p, received)
      ensures done ==>
        && checkState != CheckContent
        && match Advance(p, received)
           case Reading(_, _, _) => code == NoRequest && Parsed() == Advance(p, received)
           case Bad => code == BadRequest
           case Dispatch(_, f) => Serves(fs, f.url, code, fileSize) && fields == f && Shown(startLine)
           case Body(_, _) => false
    {
      hide Advance, TakeLine, NextLine, ScanLine, Shown, Shows, LineAt, Scanned, Unscanned, Serves, Valid,
           RestOf, Find, Str, CStr;
      done, code := true, NoRequest;
      ValidFacts();
      var status := ParseLine();
      if status != LineOk {
        AdvanceStuck(p, received);
        ValidFacts();
        return;
      }
      var text := startLine;
      AdvanceLine(p, received);
      startLine := checkedIndex;
      done, code := HandleLine(text, fs, p, received[text..checkedIndex - 2]);
      if !done {
        ValidFacts();
      }
    }

    // One turn while the body is awaited: the condition scans only after a first look.
    method TurnBody(fs: FileSystem, lineStatus: LineStatus) returns (done: bool, code: HttpCode)
      requires Valid() && readIdx < READ_BUFFER_SIZE && checkState == CheckContent
      modifies readBuf, `checkedIndex, `startLine, `checkState, `url, `version, `host, `linger, `contentLength
      modifies `realFile, `fileSize, `fields, `bodyStart
      ensures Bounds() && (!done ==> code == NoRequest) && (code == NoRequest ==> Valid())
      ensures code in {NoRequest, NoResource, ForbiddenRequest, BadRequest, FileRequest}
      ensures checkState == CheckContent && fields == old(fields) && bodyStart == old(bodyStart)
      ensures checkedIndex >= old(checkedIndex) && startLine >= old(startLine)
      ensures lineStatus == LineOk ==> checkedIndex == old(checkedIndex) && (done <==> code != NoRequest)
      ensures lineStatus != LineOk && !done ==> checkedIndex > old(checkedIndex)
      ensures lineStatus != LineOk ==>
        RestOf(received, old(checkedIndex))
        == if done && code == NoRequest then checkedIndex else RestOf(received, checkedIndex)
      ensures code != NoRequest ==> readIdx >= fields.contentLength + checkedIndex
      ensures !done ==> readIdx < fields.contentLength + checkedIndex
      ensures fields.contentLength >= 0 ==>
        Shown(startLine) && (code != NoRequest ==> Serves(fs, fields.url, code, fileSize))
    {
      hide Advance, TakeLine, NextLine, ScanLine, Shown, Shows, LineAt, Scanned, Unscanned, Serves, Valid,
           RestOf, Find, Str, CStr;
      done, code := true, NoRequest;
      ValidFacts();
      if lineStatus != LineOk {
        var status := ParseLine();
        if status != LineOk {
          ValidFacts();
          return;
        }
      }
      var text := startLine;
      startLine := checkedIndex;
      done, code := HandleLine(text, fs, Bad, []);
      if !done {
        ValidFacts();
      }
    }

    method ProcessRead(fs: FileSystem) returns (code: HttpCode)
      requires Valid() && readIdx < READ_BUFFER_SIZE
      modifies readBuf, `checkedIndex, `startLine, `checkState, `url, `version, `host, `linger, `contentLength
      modifies `realFile, `fileSize, `fields, `bodyStart
      ensures Bounds() && (code == NoRequest ==> Valid())
      ensures code in {NoRequest, NoResource, ForbiddenRequest, BadRequest, FileRequest}
      ensures old(checkState) != CheckContent ==>
        match Advance(old(Parsed()), received)
        case Reading(_, _, _) =>
          code == NoRequest && checkState != CheckContent && Parsed() == Advance(old(Parsed()), received)
        case Bad => code == BadRequest && checkState != CheckContent
        case Dispatch(_, f) =>
          Serves(fs, f.url, code, fileSize) && checkState != CheckContent && fields == f && Shown(startLine)
        case Body(at, f) =>
          && checkState == CheckContent && bodyStart == at && fields == f
          && (code != NoRequest <==> readIdx >= at + f.contentLength)
          && (code == NoRequest ==> checkedIndex == RestOf(received, at))
          && (f.contentLength > 0 ==> Shown(startLine) && (code != NoRequest ==> Serves(fs, f.url, code, fileSize)))
      ensures old(checkState) == CheckContent ==>
        && checkState == CheckContent && bodyStart == old(bodyStart) && fields == old(fields)
        && (code != NoRequest <==> readIdx >= old(checkedIndex) + fields.contentLength)
        && (code == NoRequest ==> checkedIndex == RestOf(received, old(checkedIndex)))
        && (fields.contentLength > 0 ==> Shown(startLine) && (code != NoRequest ==> Serves(fs, fields.url, code, fileSize)))
    {
      hide Advance, Shown, Unscanned, Serves, Valid, RestOf;
      var lineStatus := LineOk;
      ghost var q := if checkState == CheckContent then Bad else Advance(Parsed(), received);
      ghost var entry: nat := checkedIndex;
      ghost var inBody := checkState == CheckContent;
      ValidFacts();
      while true
        invariant Valid() && Bounds() && contentLength == fields.contentLength
        invariant checkState != CheckContent ==>
          lineStatus == LineOk && !inBody && Advance(Parsed(), received) == q
        invariant checkState == CheckContent ==>
          && entry <= checkedIndex
          && (if inBody
              then bodyStart == old(bodyStart) && fields == old(fields) && entry == old(checkedIndex)
              else q == Body(entry, fields) && bodyStart == entry)
          && (if lineStatus == LineOk then entry == checkedIndex else readIdx < entry + contentLength)
          && RestOf(received, checkedIndex) == RestOf(received, entry)
        decreases readIdx - checkedIndex, if checkState == CheckContent && lineStatus == LineOk then 1 else 0
      {
        var before := checkState;
        var done;
        if checkState == CheckContent {
          done, code := TurnBody(fs, lineStatus);
        } else {
          done, code := TurnLine(fs, Parsed());
        }
        if done {
          return code;
        }
        ValidFacts();
        if before == CheckContent {
          lineStatus := LineOpen;
        } else if checkState == CheckContent {
          entry := checkedIndex;
        }
      }
    }

    // What the main thread reads and the worker then makes of it.
    method Take(data: seq<char>, fs: FileSystem) returns (code: HttpCode)
      requires Valid() && readIdx + |data| < READ_BUFFER_SIZE
      modifies readBuf, `readIdx, `received, `checkedIndex, `startLine, `checkState, `url, `version, `host, `linger
      modifies `contentLength, `realFile, `fileSize, `fields, `bodyStart
      ensures received == old(received) + data && readIdx == |received| == old(readIdx) + |data|
      ensures Bounds() && (code == NoRequest ==> Valid())
      ensures old(checkState) != CheckContent ==>
        match Advance(old(Parsed()), received)
        case Reading(_, _, _) =>
          code == NoRequest && checkState != CheckContent && Parsed() == Advance(old(Parsed()), received)
        case Bad => code == BadRequest && checkState != CheckContent
        case Dispatch(_, f) =>
          && code != NoRequest && Serves(fs, f.url, code, fileSize) && checkState != CheckContent
          && fields == f && Shown(startLine)
        case Body(at, f) =>
          && checkState == CheckContent && bodyStart == at && fields == f
          && (code != NoRequest <==> readIdx >= at + f.contentLength)
          && (code == NoRequest ==> at <= |received| && checkedIndex == RestOf(received, at))
          && (f.contentLength > 0 && code != NoRequest ==> Serves(fs, f.url, code, fileSize))
      ensures old(checkState) == CheckContent ==>
        && checkState == CheckContent && bodyStart == old(bodyStart) && fields == old(fields)
        && (code != NoRequest <==> readIdx >= old(checkedIndex) + fields.contentLength)
        && (code == NoRequest ==> old(checkedIndex) <= |received| && checkedIndex == RestOf(received, old(checkedIndex)))
        && (fields.contentLength > 0 && code != NoRequest ==> Serves(fs, fields.url, code, fileSize))
    {
      hide Advance, Shown, Shows, Scanned, Serves, Unscanned, Valid, NextLine, TakeLine, RestOf, Find;
      ValidFacts();
      var ok := Read(data, true);
      ValidFacts();
      code := ProcessRead(fs);
      ServesAnswer(fs, fields.url, code, fileSize, linger);
      if code == NoRequest {
        ValidFacts();
      }
    }

    // ---- Runs over chunks ------------------------------------------------------------------

    lemma NothingYet()
      ensures Advance(START, []) == START
    {
    }

    // Feeds one chunk after another until a result or the body: what comes out is what
    // parsing the joined bytes in one piece gives, so it does not depend on the cuts.
    method ReceiveHeaders(chunks: seq<seq<char>>, fs: FileSystem) returns (code: HttpCode)
      requires Fresh() && |Concat(chunks)| < READ_BUFFER_SIZE
      modifies this, readBuf
      ensures Bounds()
      ensures
        match Advance(START, Concat(chunks))
        case Reading(_, _, _) =>
          code == NoRequest && Valid() && checkState != CheckContent && Parsed() == Advance(START, Concat(chunks))
        case Bad => code == BadRequest && checkState != CheckContent
        case Dispatch(_, f) =>
          Serves(fs, f.url, code, fileSize) && checkState != CheckContent && fields == f && Shown(startLine)
        case Body(at, f) =>
          && checkState == CheckContent && bodyStart == at && fields == f
          && (code != NoRequest ==> readIdx >= at + f.contentLength)
          && (code == NoRequest ==> Valid() && at <= |received| && checkedIndex == RestOf(received, at))
    {
      hide Advance, Shown, Shows, Scanned, Serves, Unscanned, Valid, NextLine, Concat, TakeLine, RestOf;
      code := NoRequest;
      ValidFacts();
      NothingYet();
      ConcatEnds(chunks);
      for i := 0 to |chunks|
        invariant Valid() && Bounds() && checkState != CheckContent && code == NoRequest
        invariant received == Concat(chunks[..i]) && Parsed() == Advance(START, received)
      {
        AdvanceResumes(START, received, chunks[i]);
        ConcatNext(chunks, i);
        ValidFacts();
        code := Take(chunks[i], fs);
        if code != NoRequest || checkState == CheckContent {
          AdvanceSettled(received, Concat(chunks));
          return;
        }
      }
    }

    // Feeds what comes after the headers of a request that announced a body.
    method AwaitBody(chunks: seq<seq<char>>, fs: FileSystem) returns (code: HttpCode)
      requires Valid() && checkState == CheckContent && readIdx + |Concat(chunks)| < READ_BUFFER_SIZE
      modifies this, readBuf
      ensures Bounds() && fields == old(fields) && bodyStart == old(bodyStart) && checkState == CheckContent
      ensures code != NoRequest <==>
        chunks != [] && Awaits(fields.contentLength, old(received) + chunks[0], old(checkedIndex), chunks[1..]).Some?
      ensures code != NoRequest ==> readIdx >= bodyStart + fields.contentLength
    {
      hide Shown, Shows, Scanned, Serves, Unscanned, Valid, RestOf, Find, NextLine, Str, CStr, Concat;
      code := NoRequest;
      ghost var n := fields.contentLength;
      ghost var (all, start) := (old(received), |old(received)|);
      ValidFacts();
      ConcatEnds(chunks);
      for i := 0 to |chunks|
        invariant Valid() && Bounds() && code == NoRequest
        invariant checkState == CheckContent && fields == old(fields) && bodyStart == old(bodyStart)
        invariant readIdx == start + |Concat(chunks[..i])| && |received| == readIdx && checkedIndex <= readIdx
        invariant i < |chunks| ==>
          Awaits(n, received + chunks[i], checkedIndex, chunks[i + 1..])
          == Awaits(n, all + chunks[0], old(checkedIndex), chunks[1..])
        invariant i == |chunks| > 0 ==> Awaits(n, all + chunks[0], old(checkedIndex), chunks[1..]).None?
      {
        ConcatNext(chunks, i);
        ValidFacts();
        assert i + 1 < |chunks| ==> chunks[i + 1..][0] == chunks[i + 1] && chunks[i + 1..][1..] == chunks[i + 2..];
        code := Take(chunks[i], fs);
        if code != NoRequest {
          return;
        }
      }
    }

    // Feeds one chunk after another from the first byte to the answer, body included. The
    // answer comes with the first chunk that settles the request, and with no other.
    method ReceiveRequest(chunks: seq<seq<char>>, fs: FileSystem) returns (code: HttpCode, used: nat)
      requires Fresh() && |Concat(chunks)| < READ_BUFFER_SIZE
      modifies this, readBuf
      ensures used <= |chunks| && received == Concat(chunks[..used]) && readIdx == |received|
      ensures code == NoRequest ==> used == |chunks| && Valid() && forall j :: 0 <= j < |chunks| ==> !Settles(chunks, j)
      ensures code != NoRequest ==>
        used > 0 && Settles(chunks, used - 1) && forall j :: 0 <= j < used - 1 ==> !Settles(chunks, j)
      ensures code != NoRequest ==>
        match Advance(START, received)
        case Reading(_, _, _) => false
        case Bad => code == BadRequest
        case Dispatch(_, f) => Serves(fs, f.url, code, fileSize)
        case Body(at, f) =>
          |received| >= at + f.contentLength && (f.contentLength > 0 ==> Serves(fs, f.url, code, fileSize))
    {
      hide Advance, Shown, Shows, Scanned, Serves, Unscanned, Valid, NextLine, Concat, TakeLine, RestOf, Settles;
      code, used := NoRequest, 0;
      ValidFacts();
      NothingYet();
      ConcatEnds(chunks);
      while used < |chunks|
        invariant used <= |chunks| && Valid() && Bounds() && code == NoRequest
        invariant received == Concat(chunks[..used]) && readIdx == |received|
        invariant checkState != CheckContent ==> Parsed() == Advance(START, received)
        invariant checkState == CheckContent ==>
          && Advance(START, received) == Body(bodyStart, fields) && bodyStart <= |received|
          && checkedIndex == RestOf(received, bodyStart)
        invariant forall j :: 0 <= j < used ==> !Settles(chunks, j)
      {
        AdvanceResumes(START, received, chunks[used]);
        AdvanceSettled(received, received + chunks[used]);
        if checkState == CheckContent {
          RestResumes(received, chunks[used], bodyStart);
        }
        ConcatNext(chunks, used);
        SettlesNow(chunks, used);
        ValidFacts();
        code := Take(chunks[used], fs);
        used := used + 1;
        if code != NoRequest {
          return;
        }
      }
    }

    // A line end that no longer can be one is never got past.
    method StaysSilent(chunks: seq<seq<char>>, fs: FileSystem) returns (code: HttpCode)
      requires Valid() && checkState != CheckContent && NextLine(received, startLine).Broken?
      requires readIdx + |Concat(chunks)| < READ_BUFFER_SIZE
      modifies this, readBuf
      ensures code == NoRequest && Valid() && checkState != CheckContent && Parsed() == old(Parsed())
      ensures received == old(received) + Concat(chunks)
    {
      hide Advance, Shown, Shows, Scanned, Serves, Unscanned, Valid, NextLine, Concat, TakeLine, RestOf;
      code := NoRequest;
      ghost var start := received;
      ValidFacts();
      ConcatEnds(chunks);
      for i := 0 to |chunks|
        invariant Valid() && Bounds() && checkState != CheckContent && code == NoRequest && Parsed() == old(Parsed())
        invariant received == start + Concat(chunks[..i]) && readIdx == |received|
        invariant NextLine(received, startLine).Broken?
      {
        ConcatNext(chunks, i);
        ValidFacts();
        BrokenStays(received, chunks[i], startLine);
        AdvanceStuck(Parsed(), received + chunks[i]);
        code := Take(chunks[i], fs);
      }
    }

    // ---- The response ------------------------------------------------------------------------

    predicate Writable()
      reads this
    {
      writeBuf.Length == WRITE_BUFFER_SIZE && writeIdx <= WRITE_BUFFER_SIZE && writeBuf != readBuf
    }

    function Written(): string
      reads this, writeBuf
      requires Writable()
    {
      writeBuf[..writeIdx]
    }

    // Appends formatted text if it fits with a byte to spare; what vsnprintf puts down of
    // text that does not fit lies beyond writeIdx.
    method AddResponse(text: string) returns (ok: bool)
      requires Writable()
      modifies writeBuf, `writeIdx
      ensures Writable() && ok == (old(writeIdx) + |text| < WRITE_BUFFER_SIZE - 1)
      ensures Written() == old(Written()) + if ok then text else ""
    {
      if writeIdx >= WRITE_BUFFER_SIZE {
        return false;
      }
      var room := WRITE_BUFFER_SIZE - 1 - writeIdx;
      var n := if |text| < room then |text| else if room > 0 then room - 1 else 0;
      ghost var before := writeBuf[..writeIdx];
      for i := 0 to n
        invariant writeBuf[..writeIdx + i] == before + text[..i]
        modifies writeBuf
      {
        writeBuf[writeIdx + i] := text[i];
      }
      if room > 0 {
        writeBuf[writeIdx + n] := NUL;
      }
      assert writeBuf[..writeIdx + n] == before + text[..n];
      assert writeBuf[..writeIdx] == writeBuf[..writeIdx + n][..writeIdx] == before;
      if |text| >= room {
        return false;
      }
      writeIdx := writeIdx + |text|;
      return true;
    }

    lemma HeaderParts(start: string, contentLength: int, linger: bool)
      ensures var (x, y, z, w) := (LengthHeader(contentLength), TypeHeader(), LingerHeader(linger), CRLF);
              && start + ResponseHeaders(contentLength, linger) == start + x + y + z + w
              && |ResponseHeaders(contentLength, linger)| == |x| + |y| + |z| + |w|
    {
      hide LengthHeader, TypeHeader, LingerHeader;
    }

    method AddHeaders(contentLength: int)
      requires Writable()
      modifies writeBuf, `writeIdx
      ensures Writable()
      ensures old(writeIdx) + |ResponseHeaders(contentLength, linger)| < WRITE_BUFFER_SIZE - 1 ==>
        Written() == old(Written()) + ResponseHeaders(contentLength, linger)
    {
      hide LengthHeader, TypeHeader, LingerHeader, ResponseHeaders;
      ghost var start := Written();
      var (x, y, z, w) := (LengthHeader(contentLength), TypeHeader(), LingerHeader(linger), CRLF);
      HeaderParts(start, contentLength, linger);
      var a := AddResponse(x);
      var b := AddResponse(y);
      var c := AddResponse(z);
      var d := AddResponse(w);
    }

    // False for the codes that are no answer; from an empty buffer never for want of room.
    method ProcessWrite(code: HttpCode) returns (ok: bool)
      requires Writable()
      modifies writeBuf, `writeIdx
      ensures Writable()
      ensures ok ==> code in {InternalError, BadRequest, NoResource, ForbiddenRequest, FileRequest}
      ensures old(writeIdx) == 0 && code in {InternalError, BadRequest, NoResource, ForbiddenRequest, FileRequest} ==>
        ok && Written() == Response(code, linger, fileSize) && Answers(Written(), code, linger, fileSize)
    {
      hide StatusLine, ResponseHeaders, Digits, Answers;
      FormLengths();
      ResponseText(code, linger, fileSize);
      match code {
        case InternalError => ok := AddError("500", "Internal Error", FORM_500);
        case BadRequest => ok := AddError("400", "Bad Request", FORM_400);
        case NoResource => ok := AddError("404", "Not Found", FORM_404);
        case ForbiddenRequest => ok := AddError("403", "Forbidden", FORM_403);
        case FileRequest =>
          DecimalShort(ToInt32(fileSize));
          var a := AddResponse(StatusLine("200", "OK"));
          AddHeaders(ToInt32(fileSize));
          ok := true;
        case _ => ok := false;
      }
    }

    method AddError(status: string, title: string, form: string) returns (ok: bool)
      requires Writable() && |status| == 3 && |title| <= 20 && 0 < |form| <= 80
      modifies writeBuf, `writeIdx
      ensures Writable()
      ensures old(writeIdx) == 0 ==>
        ok && Written() == StatusLine(status, title) + ResponseHeaders(|form|, linger) + form
    {
      hide StatusLine, ResponseHeaders, Decimal;
      DecimalShort(|form|);
      var a := AddResponse(StatusLine(status, title));
      AddHeaders(|form|);
      ok := AddResponse(form);
    }

    method CloseConn()
      modifies `sockfd
      ensures sockfd == -1
    {
      if sockfd != -1 {
        sockfd := -1;
      }
    }

    // What a worker does with a connection: it asks for more input, or leaves the whole
    // answer to what was parsed and asks to write it. A connection whose write buffer was
    // empty is never closed here.
    method Process(fs: FileSystem) returns (armedFor: Interest)
      requires Valid() && readIdx < READ_BUFFER_SIZE && Writable()
      modifies readBuf, writeBuf, `checkedIndex, `startLine, `checkState, `url, `version, `host, `linger, `contentLength
      modifies `realFile, `fileSize, `fields, `bodyStart, `writeIdx, `sockfd
      ensures Writable() && (sockfd == -1 || sockfd == old(sockfd)) && (old(writeIdx) == 0 ==> sockfd == old(sockfd))
      ensures armedFor == In ==> Valid() && sockfd == old(sockfd) && writeIdx == old(writeIdx)
      ensures armedFor == Out && old(writeIdx) == 0 ==> writeIdx != 0
      ensures old(checkState) != CheckContent && old(writeIdx) == 0 ==>
        match Advance(old(Parsed()), received)
        case Reading(_, _, _) => armedFor == In
        case Bad =>
          armedFor == Out && IsAnswer(Written(), "400 Bad Request", linger, |FORM_400|, FORM_400)
        case Dispatch(_, f) =>
          armedFor == Out && Written() == Answer(fs, f.url, f.linger) && Replies(fs, f.url, f.linger, Written())
        case Body(at, f) =>
          && (armedFor == Out <==> readIdx >= at + f.contentLength)
          && (armedFor == Out && f.contentLength > 0 ==>
                Written() == Answer(fs, f.url, f.linger) && Replies(fs, f.url, f.linger, Written()))
      ensures old(checkState) == CheckContent && old(writeIdx) == 0 ==>
        && (armedFor == Out <==> readIdx >= old(checkedIndex) + fields.contentLength)
        && (armedFor == Out && fields.contentLength > 0 ==>
              Written() == Answer(fs, fields.url, fields.linger) && Replies(fs, fields.url, fields.linger, Written()))
    {
      hide Response, Serves, Answer, Replies, IsAnswer, Valid, Advance, Shown, RestOf;
      var code := ProcessRead(fs);
      AnswerReplies(fs, fields.url, fields.linger);
      ResponseText(BadRequest, linger, fileSize);
      ServesAnswer(fs, fields.url, code, fileSize, linger);
      if code == NoRequest {
        return In;
      }
      LingerShown();
      ResponseIsSome(code, linger, fileSize);
      var ok := ProcessWrite(code);
      if !ok {
        CloseConn();
      }
      return Out;
    }

    lemma LingerShown()
      ensures Shown(startLine) ==> linger == fields.linger
    {
    }
  }

  lemma ResponseIsSome(code: HttpCode, linger: bool, fileSize: nat)
    requires code in {BadRequest, NoResource, ForbiddenRequest, FileRequest}
    ensures Response(code, linger, fileSize) != ""
  {
    hide ResponseHeaders;
  }

  // Settles, by how the parse stands with the next piece.
  lemma SettlesNow(chunks: seq<seq<char>>, i: nat)
    requires i < |chunks|
    ensures var (before, all) := (Concat(chunks[..i]), Concat(chunks[..i + 1]));
            && |before| <= |all|
            && match Advance(START, all)
               case Reading(_, _, _) => !Settles(chunks, i)
               case Bad => Settles(chunks, i)
               case Dispatch(_, _) => Settles(chunks, i)
               case Body(at, f) =>
                 && (!Advance(START, before).Body? ==> (Settles(chunks, i) <==> |all| >= f.contentLength + at))
                 && (Advance(START, before).Body? && at <= |before| ==>
                       (Settles(chunks, i) <==> |all| >= f.contentLength + RestOf(before, at)))
  {
    hide Advance, RestOf, Concat;
    ConcatNext(chunks, i);
  }

  // The pointers find the fields in memory, each string ending below the limit.
  ghost predicate Shows(b: seq<char>, url: Option<nat>, host: Option<nat>, f: Fields, limit: nat) {
    && (url.None? ==> f.url == "")
    && (url.Some? ==> Str(b, url.value, f.url) && url.value + |f.url| < limit)
    && (host.Some? <==> f.host.Some?)
    && (host.Some? ==> Str(b, host.value, f.host.value) && host.value + |f.host.value| < limit)
  }

  lemma ShowsNothing(b: seq<char>)
    ensures Shows(b, None, None, NO_FIELDS, 0)
  {
  }

  lemma AppendedSlice(s: seq<char>, t: seq<char>, from: nat, to: nat)
    requires from <= to <= |s|
    ensures (s + t)[from..to] == s[from..to] && forall i :: 0 <= i < |s| ==> (s + t)[i] == s[i]
  {
  }

  lemma TailKept(b: seq<char>, c: seq<char>, to: nat, from: nat, n: nat)
    requires |b| == |c| && to < from <= n <= |b| && b[to..] == c[to..]
    ensures b[from..n] == c[from..n] && b[from - 1] == c[from - 1]
  {
    forall i | to <= i < n ensures b[i] == c[i] {
      assert b[to..][i - to] == c[to..][i - to];
    }
  }

  lemma SliceKept(b: seq<char>, c: seq<char>, limit: nat, i: nat, j: nat)
    requires i <= j <= limit <= |b| && limit <= |c| && b[..limit] == c[..limit]
    ensures b[i..j] == c[i..j]
  {
    assert b[i..j] == b[..limit][i..j] && c[i..j] == c[..limit][i..j];
  }

  lemma ShowsFrame(b: seq<char>, c: seq<char>, url: Option<nat>, host: Option<nat>, f: Fields, limit: nat)
    requires Shows(b, url, host, f, limit) && limit <= |b| && limit <= |c| && b[..limit] == c[..limit]
    ensures forall m :: m >= limit ==> Shows(c, url, host, f, m)
  {
    hide Str;
    if url.Some? {
      StrKept(b, c, limit, url.value, f.url);
    }
    if host.Some? {
      StrKept(b, c, limit, host.value, f.host.value);
    }
  }

  lemma StrKept(b: seq<char>, c: seq<char>, limit: nat, i: nat, s: string)
    requires Str(b, i, s) && i + |s| < limit <= |b| && limit <= |c| && b[..limit] == c[..limit]
    ensures Str(c, i, s)
  {
    SliceKept(b, c, limit, i, i + |s| + 1);
    StrFrame(b, c, i, s);
  }

  lemma SameAround(b: seq<char>, c: seq<char>, from: nat, to: nat)
    requires SameOutside(b, c, from, to) && from <= to <= |b|
    ensures |b| == |c| && b[..from] == c[..from] && b[to..] == c[to..]
  {
  }

  ghost predicate SameOutside(b: seq<char>, c: seq<char>, from: nat, to: nat) {
    |b| == |c| && forall i :: 0 <= i < |b| && !(from <= i < to) ==> b[i] == c[i]
  }

  lemma SameItself(b: seq<char>, from: nat, to: nat)
    ensures SameOutside(b, b, from, to)
  {
  }

  lemma SameTrans(b: seq<char>, c: seq<char>, d: seq<char>, from: nat, to: nat, from': nat, to': nat)
    requires SameOutside(b, c, from, to) && SameOutside(c, d, from', to') && from <= from' && to' <= to
    ensures SameOutside(b, d, from, to)
  {
  }

  lemma SameStill(b: seq<char>, c: seq<char>, from: nat, to: nat, i: nat)
    requires SameOutside(b, c, from, to) && from <= i < to && i < |c|
    ensures SameOutside(b, c[i := NUL], from, to)
  {
  }
}
