// What the benchmark client prints, the server reads back.
module RoundTrip {
  import opened CStrings
  import opened HttpRequest
  import opened HttpResponse
  import opened HttpConn
  import opened HeaderText
  import opened WebBench
  import opened Options
  import opened Joining

  function TargetLine(path: string): string { "GET " + path + " HTTP/1.1" }

  function HostLine(host: string): string { "Host: " + host }

  lemma SentVerb(path: string)
    requires CleanTarget(path)
    ensures var line := TargetLine(path);
            && CStr(line) == line && Find(line, IsBlank) == 3 < |line|
            && line[..3] == "GET" && line[4..] == path + " HTTP/1.1"
  {
    hide CStr, Find;
    var line := TargetLine(path);
    CleanIsCStr(line);
    FindIs(line, IsBlank, 3);
  }

  lemma SentVersion(path: string)
    requires CleanTarget(path)
    ensures var rest := path + " HTTP/1.1";
            && Find(rest, IsBlank) == |path| < |rest| && rest[..|path|] == path && rest[|path| + 1..] == "HTTP/1.1"
  {
    hide Find;
    FindIs(path + " HTTP/1.1", IsBlank, |path|);
  }

  lemma SentTarget(path: string)
    requires path != [] && path[0] == '/' && CleanTarget(path)
    ensures RequestTarget(TargetLine(path)) == Some(path)
  {
    hide CStr, Find, TargetLine, CleanTarget;
    SentVerb(path);
    SentVersion(path);
    DiffersAt(path, "http://", 0);
  }

  lemma AgentIgnored(f: Fields)
    ensures HeaderLine(f, AGENT) == f && CStr(AGENT) != ""
  {
    hide CStr, AToL, ToInt32, SkipBlanks, EqualsIgnoreCase;
    var line := "User-Agent: WebBench 1.5";
    assert NUL !in line;
    CleanIsCStr(line);
    DiffersAt(line, "Connection:", 0);
    DiffersAt(line, "Content-Length:", 0);
    DiffersAt(line, "Host:", 0);
  }

  lemma CloseKept(f: Fields)
    ensures HeaderLine(f, CLOSE) == f && CStr(CLOSE) != ""
  {
    hide CStr, Find;
    var line := "Connection: close";
    CleanIsCStr(line);
    assert line[..11] == "Connection:";
    assert line[11..] == " close";
    FindIs(line[11..], NotBlank, 1);
    assert line[11..][1..] == "close";
  }

  // The whole request as lines.
  lemma SentLines(path: string, host: string)
    ensures RequestText(Get, 2, path, host)
         == TargetLine(path) + CRLF + (AGENT + CRLF + (HostLine(host) + CRLF + (CLOSE + CRLF + ("" + CRLF + ""))))
  {
    var (target, hostLine) := (TargetLine(path), HostLine(host));
    assert "GET" + " " + path + Version(2) == target;
    assert HostStart() + host == hostLine;
    LinesJoin(target, hostLine, host);
  }

  lemma LinesJoin(target: string, hostLine: string, host: string)
    requires HostStart() + host == hostLine
    ensures target + CRLF + AgentLine() + HostStart() + host + CRLF + CloseLine() + CRLF
         == target + CRLF + (AGENT + CRLF + (hostLine + CRLF + (CLOSE + CRLF + ("" + CRLF + ""))))
  {
    hide HostStart;
  }

  lemma LinesHaveNoEol(path: string, host: string)
    requires CleanTarget(path) && CleanValue(host)
    ensures NoEol(TargetLine(path)) && NoEol(AGENT) && NoEol(HostLine(host)) && NoEol(CLOSE)
  {
  }

  lemma CleanRequestParses(path: string, host: string)
    requires path != [] && path[0] == '/' && CleanTarget(path) && CleanValue(host)
    ensures var s := RequestText(Get, 2, path, host);
            var q := Advance(START, s);
            q.Dispatch? && q.fields == Fields(path, Some(host), false, 0)
  {
    hide Advance, CStr, NoEol, HeaderLine, RequestTarget, RequestText, TargetLine, HostLine, CleanTarget;
    var hs := [AGENT, HostLine(host), CLOSE];
    SentLines(path, host);
    LinesHaveNoEol(path, host);
    SentTarget(path);
    SentHeaders(path, host);
    ThreeLines(hs);
    WholeRequest(TargetLine(path), hs, "");
    ThreeHeaders(Fields(path, None, false, 0), hs);
    assert TargetLine(path) + CRLF + (Lines(hs) + CRLF + "") == RequestText(Get, 2, path, host);
  }

  // The three header lines, one after another.
  lemma ThreeLines(hs: seq<string>)
    requires |hs| == 3
    ensures Lines(hs) == hs[0] + CRLF + (hs[1] + CRLF + (hs[2] + CRLF + ""))
  {
    assert hs[1..][1..] == hs[2..] && hs[2..][1..] == [];
    assert Lines(hs[2..]) == hs[2] + CRLF + "";
    assert Lines(hs[1..]) == hs[1] + CRLF + Lines(hs[2..]);
  }

  lemma ThreeHeaders(f: Fields, hs: seq<string>)
    requires |hs| == 3
    ensures TakeHeaders(f, hs) == HeaderLine(HeaderLine(HeaderLine(f, hs[0]), hs[1]), hs[2])
  {
    hide HeaderLine;
    assert hs[1..][1..] == hs[2..] && hs[2..][1..] == [];
    var g := HeaderLine(HeaderLine(f, hs[0]), hs[1]);
    assert TakeHeaders(g, hs[2..]) == HeaderLine(g, hs[2]);
    assert TakeHeaders(HeaderLine(f, hs[0]), hs[1..]) == TakeHeaders(g, hs[2..]);
  }

  lemma SentHeaders(path: string, host: string)
    requires CleanValue(host)
    ensures var f := Fields(path, None, false, 0);
            HeaderLine(HeaderLine(HeaderLine(f, AGENT), HostLine(host)), CLOSE) == f.(host := Some(host))
    ensures CStr(AGENT) != "" && CStr(HostLine(host)) != "" && CStr(CLOSE) != ""
  {
    hide CStr, HeaderLine;
    var f := Fields(path, None, false, 0);
    AgentIgnored(f);
    assert HostLine(host) == "Host:" + " " + host;
    HostTaken(f, "Host:", " ", host);
    CloseKept(f.(host := Some(host)));
  }

  // The server dispatches the request with the path and host the client took from the
  // URL exactly when those are free of the bytes that delimit them.
  lemma RoundTripExact(path: string, host: string)
    requires path != [] && path[0] == '/' && NUL !in path && NUL !in host
    ensures (Advance(START, RequestText(Get, 2, path, host)).Dispatch?
             && Advance(START, RequestText(Get, 2, path, host)).fields == Fields(path, Some(host), false, 0))
       <==> CleanTarget(path) && CleanValue(host)
  {
    if CleanTarget(path) && CleanValue(host) {
      CleanRequestParses(path, host);
    } else {
      AdvanceClean(START, RequestText(Get, 2, path, host));
    }
  }

  // ---- From the URL ------------------------------------------------------------------------

  // The URLs the builder takes when it talks to the server itself.
  predicate Accepted(url: string) {
    && |url| <= MAX_URL && StartsWithIgnoreCase(url, "http://") && NUL !in url
    && Find(AfterProtocol(url), IsSlash) < |AfterProtocol(url)|
  }

  lemma {:induction false} FindTextIs(s: string, text: string, n: nat)
    requires text != [] && n + |text| <= |s| && s[n..n + |text|] == text
    requires forall i :: 0 <= i < n ==> s[i] != text[0]
    ensures FindText(s, text) == n
  {
    if n == 0 {
      assert s[..|text|] == text;
    } else {
      assert s[..|text|][0] == s[0];
      assert s[1..][n - 1..n - 1 + |text|] == text;
      FindTextIs(s[1..], text, n - 1);
    }
  }

  lemma ProtocolFound(url: string)
    requires StartsWithIgnoreCase(url, "http://")
    ensures FindText(url, "://") == 4 && AfterProtocol(url) == url[7..]
  {
    var p := url[..7];
    assert forall i :: 0 <= i < 7 ==> Lower(p[i]) == Lower("http://"[i]) && p[i] == url[i];
    assert Lower(url[0]) == 'h' && Lower(url[1]) == 't' && Lower(url[2]) == 't' && Lower(url[3]) == 'p';
    assert url[4..7] == "://";
    FindTextIs(url, "://", 4);
  }

  lemma PathAndHost(url: string)
    requires Accepted(url)
    ensures PathOf(url) != [] && PathOf(url)[0] == '/' && NUL !in PathOf(url) && NUL !in HostOf(url)
  {
    hide Find;
    ProtocolFound(url);
    var rest := AfterProtocol(url);
    assert forall c :: c in rest ==> c in url;
    assert forall c :: c in PathOf(url) ==> c in rest;
    assert forall c :: c in HostOf(url) ==> c in rest;
  }

  // The text of a URL: its scheme in any letter case, its host, a port or none, its path.
  function Url(scheme: string, host: string, port: Option<string>, path: string): string {
    scheme + (host + (if port.Some? then ":" + port.value else "") + path)
  }

  predicate Without(s: string, c: char) {
    c !in s
  }

  lemma FirstOf(s: string, c: char, rest: string, p: char -> bool)
    requires (forall d :: d in s ==> !p(d)) && p(c)
    ensures Find(s + ([c] + rest), p) == |s|
  {
    hide Find;
    var t := s + ([c] + rest);
    forall i | 0 <= i < |s| ensures !p(t[i]) {
      assert t[i] == s[i] && s[i] in s;
    }
    FindIs(t, p, |s|);
  }

  // Taking such a text apart gives back what it was put together from.
  lemma UrlParts(scheme: string, host: string, port: Option<string>, path: string)
    requires SameButCase(scheme, "http://") && Without(host, ':') && Without(host, '/')
    requires (port.Some? ==> Without(port.value, '/')) && path != "" && path[0] == '/'
    ensures var url := Url(scheme, host, port, path);
            && StartsWithIgnoreCase(url, "http://") && Find(AfterProtocol(url), IsSlash) < |AfterProtocol(url)|
            && HostOf(url) == host && PathOf(url) == path
            && HasPort(AfterProtocol(url)) == port.Some?
            && PortOf(url) == if port.Some? then port.value else ""
  {
    hide Find, FindText, AfterProtocol, SameButCase, StartsWithIgnoreCase;
    SchemeFound(scheme, host + (if port.Some? then ":" + port.value else "") + path);
    if port.Some? {
      PortRest(host, port.value, path);
    } else {
      assert host + "" + path == host + path;
      PlainRest(host, path);
    }
  }

  lemma SchemeFound(scheme: string, rest: string)
    requires SameButCase(scheme, "http://")
    ensures StartsWithIgnoreCase(scheme + rest, "http://") && AfterProtocol(scheme + rest) == rest
  {
    hide FindText, SameButCase, StartsWithIgnoreCase, AfterProtocol;
    SchemeLength(scheme);
    StartsExact(scheme, rest, "http://");
    ProtocolFound(scheme + rest);
  }

  lemma SlashAt(before: string, path: string)
    requires Without(before, '/') && path != "" && path[0] == '/'
    ensures Find(before + path, IsSlash) == |before| && (before + path)[|before|..] == path
  {
    hide Find;
    assert path == [path[0]] + path[1..];
    FirstOf(before, path[0], path[1..], IsSlash);
  }

  lemma PlainRest(host: string, path: string)
    requires Without(host, ':') && Without(host, '/') && path != "" && path[0] == '/'
    ensures var rest := host + path;
            !HasPort(rest) && Find(rest, IsSlash) == |host| < |rest| && rest[..|host|] == host && rest[|host|..] == path
  {
    hide Find;
    SlashAt(host, path);
    forall i | 0 <= i < |host| ensures !IsColon((host + path)[i]) {
      assert host[i] in host;
    }
    NoneBefore(host + path, |host|);
  }

  lemma PortRest(host: string, port: string, path: string)
    requires Without(host, ':') && Without(host, '/') && Without(port, '/') && path != "" && path[0] == '/'
    ensures var rest := host + (":" + port) + path;
            var n := |host| + 1 + |port|;
            && Find(rest, IsColon) == |host| && Find(rest, IsSlash) == n < |rest| && HasPort(rest)
            && rest[..|host|] == host && rest[|host| + 1..n] == port && rest[n..] == path
  {
    hide Find;
    var before := host + (":" + port);
    var rest := before + path;
    forall c | c in before ensures c != '/' {
      assert c in host || c == ':' || c in port;
    }
    SlashAt(before, path);
    assert rest == host + ([':'] + (port + path));
    FirstOf(host, ':', port + path, IsColon);
    PortSlices(host, port, path);
  }

  lemma PortSlices(host: string, port: string, path: string)
    ensures var rest := host + (":" + port) + path;
            rest[..|host|] == host && rest[|host| + 1..|host| + 1 + |port|] == port
  {
  }

  lemma NoneBefore(s: string, n: nat)
    requires n <= |s| && forall i :: 0 <= i < n ==> !IsColon(s[i])
    ensures Find(s, IsColon) >= n
  {
  }

  lemma FreshIsValid(conn: Connection)
    requires conn.Fresh()
    ensures conn.Valid() && conn.Bounds()
  {
  }

  lemma AcceptedIsBuilt(url: string)
    requires Accepted(url)
    ensures FindText(url, "://") < |url| <= MAX_URL && StartsWithIgnoreCase(url, "http://")
    ensures Find(AfterProtocol(url), IsSlash) < |AfterProtocol(url)|
  {
    ProtocolFound(url);
  }

  // Every accepted URL, sent over HTTP/1.1 and cut up in any way on the way, comes out of
  // the server's parser as the path and host it was printed from.
  method BenchThroughServer(url: string, cut: string -> seq<seq<char>>, fs: FileSystem, sockfd: int)
    returns (code: HttpCode, conn: Connection)
    requires Accepted(url) && PartsFit(url) && forall s :: Concat(cut(s)) == s
    requires CleanTarget(PathOf(url)) && CleanValue(HostOf(url))
    ensures Serves(fs, PathOf(url), code, conn.fileSize) && conn.checkState != CheckContent
    ensures conn.fields == Fields(PathOf(url), Some(HostOf(url)), false, 0)
    ensures conn.Bounds() && conn.Shown(conn.startLine)
  {
    hide Find, FindText, StartsWithIgnoreCase, Advance, Serves, RequestText, PathOf, HostOf, CleanTarget,
         CleanValue, Accepted, Concat, AfterProtocol;
    AcceptedIsBuilt(url);
    PathAndHost(url);
    var bench := new Bench(Get, 2, None);
    var outcome := bench.BuildRequest(url);
    CleanRequestParses(PathOf(url), HostOf(url));
    conn := new Connection(sockfd);
    FreshIsValid(conn);
    code := conn.ReceiveHeaders(cut(bench.request), fs);
  }

  // So a URL of a host, a port or none and a path, through the builder, cut in any way,
  // through the connection: the file that the path names is served.
  method PartsThroughServer(scheme: string, host: string, port: Option<string>, path: string,
                            cut: string -> seq<seq<char>>, fs: FileSystem, sockfd: int)
    returns (code: HttpCode, conn: Connection)
    requires SameButCase(scheme, "http://") && Without(host, ':') && Without(host, '/') && |host| < 64
    requires port.Some? ==> Without(port.value, '/') && Without(port.value, NUL) && |port.value| < 10
    requires path != "" && path[0] == '/' && CleanTarget(path) && CleanValue(host)
    requires |Url(scheme, host, port, path)| <= 1500 && forall s :: Concat(cut(s)) == s
    ensures Serves(fs, path, code, conn.fileSize) && conn.checkState != CheckContent
    ensures conn.fields == Fields(path, Some(host), false, 0) && conn.Bounds() && conn.Shown(conn.startLine)
  {
    hide Find, FindText, StartsWithIgnoreCase, SameButCase, PathOf, HostOf, PortOf, AfterProtocol, Concat, Serves;
    UrlParts(scheme, host, port, path);
    NoNulInUrl(scheme, host, port, path);
    code, conn := BenchThroughServer(Url(scheme, host, port, path), cut, fs, sockfd);
  }

  lemma NoNulInUrl(scheme: string, host: string, port: Option<string>, path: string)
    requires SameButCase(scheme, "http://") && NUL !in host && NUL !in path && (port.Some? ==> NUL !in port.value)
    ensures NUL !in Url(scheme, host, port, path)
  {
    forall c | c in scheme ensures c != NUL {
      var i :| 0 <= i < |scheme| && scheme[i] == c;
      assert SameLetter(scheme[i], "http://"[i]);
    }
    var middle := if port.Some? then ":" + port.value else "";
    assert NUL !in middle && NUL !in host + middle + path;
  }
}
