// The benchmark client's request builder, and its round trip through the server's parser.
module WebBench {
  import opened CStrings
  import opened Options

  const REQUEST_SIZE: nat := 2048
  const MAXHOSTNAMELEN: nat := 64
  const PORT_SIZE: nat := 10
  const MAX_URL: nat := 1500
  const AGENT: string := "User-Agent: WebBench 1.5"
  const CLOSE: string := "Connection: close"

  datatype Method = Get | Head | Options | Trace
  datatype Outcome = Built | NotAUrl | UrlTooLong | NotHttp | NoSlash

  predicate IsColon(c: char) { c == ':' }

  // strstr: where the text first occurs, or the length of s.
  function FindText(s: string, text: string): (n: nat)
    requires text != []
    ensures n <= |s| && (n < |s| ==> n + |text| <= |s| && s[n..n + |text|] == text)
  {
    if |s| < |text| then |s|
    else if s[..|text|] == text then 0
    else 1 + FindText(s[1..], text)
  }

  // ---- The parts of a URL ----------------------------------------------------------------

  // What follows the protocol.
  function AfterProtocol(url: string): string {
    var n := FindText(url, "://");
    if n + 3 <= |url| then url[n + 3..] else ""
  }

  predicate HasPort(rest: string) {
    Find(rest, IsColon) < Find(rest, IsSlash)
  }

  function HostOf(url: string): (h: string) {
    var rest := AfterProtocol(url);
    if HasPort(rest) then rest[..Find(rest, IsColon)] else rest[..Find(rest, IsSlash)]
  }

  function PortOf(url: string): (p: string) {
    var rest := AfterProtocol(url);
    if HasPort(rest) then rest[Find(rest, IsColon) + 1..Find(rest, IsSlash)] else ""
  }

  function PathOf(url: string): (p: string) {
    var rest := AfterProtocol(url);
    rest[Find(rest, IsSlash)..]
  }

  // The buffers the host and the port are copied to.
  predicate PartsFit(url: string) {
    |HostOf(url)| < MAXHOSTNAMELEN && |PortOf(url)| < PORT_SIZE
  }

  function Verb(m: Method): (s: string)
    ensures |s| <= 7
  {
    match m
    case Get => "GET"
    case Head => "HEAD"
    case Options => "OPTIONS"
    case Trace => "TRACE"
  }

  class Bench {
    var method_: Method
    // 0, 1 and 2 stand for HTTP/0.9, 1.0 and 1.1.
    var http10: nat
    var forceReload: bool
    var proxyHost: Option<string>
    var proxyPort: int
    var host: string
    var request: string

    constructor (m: Method, version: nat, proxy: Option<string>)
      ensures method_ == m && http10 == version && proxyHost == proxy && !forceReload
    {
      method_, http10, forceReload, proxyHost, proxyPort := m, version, false, proxy, 80;
      host, request := "", "";
    }

    // Appends to the request buffer.
    method Cat(s: string)
      requires |request| + |s| < REQUEST_SIZE
      modifies `request
      ensures request == old(request) + s
    {
      request := request + s;
    }

    method BuildRequest(url: string) returns (outcome: Outcome)
      requires http10 <= 2 && (proxyHost.None? ==> PartsFit(url))
      modifies this
      ensures |request| < REQUEST_SIZE
      ensures method_ == old(method_) && proxyHost == old(proxyHost) && forceReload == old(forceReload)
      ensures outcome ==
        if FindText(url, "://") == |url| then NotAUrl
        else if |url| > MAX_URL then UrlTooLong
        else if proxyHost.None? && !StartsWithIgnoreCase(url, "http://") then NotHttp
        else if Find(AfterProtocol(url), IsSlash) == |AfterProtocol(url)| then NoSlash
        else Built
      ensures outcome == Built ==>
        if proxyHost.None?
        then host == HostOf(url) && request == RequestText(method_, http10, PathOf(url), HostOf(url))
        else host == "" && request == ProxyText(method_, http10, forceReload, url)
      ensures http10 ==
        match method_
        case Get => if forceReload && proxyHost.Some? && old(http10) < 1 then 1 else old(http10)
        case Head => if old(http10) < 1 then 1 else old(http10)
        case _ => 2
    {
      hide Find, FindText, StartsWithIgnoreCase, Verb, PartsFit, Tail, HostOf, PathOf, AfterProtocol, Version;
      AfterProtocolIs(url);
      host, request := "", "";
      ChooseVersion();
      Cat(Verb(method_));
      assert request == Verb(method_);
      Cat(" ");
      var p := FindText(url, "://");
      if p == |url| {
        return NotAUrl;
      }
      if |url| > MAX_URL {
        return UrlTooLong;
      }
      if proxyHost.None? && !StartsWithIgnoreCase(url, "http://") {
        return NotHttp;
      }
      var rest := url[p + 3..];
      if Find(rest, IsSlash) == |rest| {
        return NoSlash;
      }
      PartsOf(url);
      if proxyHost.None? {
        TakeHost(url, rest);
        Cat(rest[Find(rest, IsSlash)..]);
        assert request == Verb(method_) + " " + PathOf(url);
      } else {
        Cat(url);
        assert request == Verb(method_) + " " + url;
      }
      AddTail();
      NoProxyTail(http10, forceReload, host);
      return Built;
    }

    method ChooseVersion()
      requires http10 <= 2
      modifies `http10
      ensures http10 ==
        match method_
        case Get => if forceReload && proxyHost.Some? && old(http10) < 1 then 1 else old(http10)
        case Head => if old(http10) < 1 then 1 else old(http10)
        case _ => 2
    {
      if forceReload && proxyHost.Some? && http10 < 1 { http10 := 1; }
      if method_ == Head && http10 < 1 { http10 := 1; }
      if method_ == Options && http10 < 2 { http10 := 2; }
      if method_ == Trace && http10 < 2 { http10 := 2; }
    }

    // The host, and the port when the URL names one.
    method TakeHost(url: string, rest: string)
      requires rest == AfterProtocol(url)
      modifies `host, `proxyPort
      ensures host == HostOf(url)
      ensures proxyPort ==
        if !HasPort(AfterProtocol(url)) then old(proxyPort)
        else var n := ToInt32(AToL(PortOf(url))); if n == 0 then 80 else n
    {
      hide Find, AToL, ToInt32;
      var colon := Find(rest, IsColon);
      if colon != |rest| && colon < Find(rest, IsSlash) {
        host := rest[..colon];
        var tmp := rest[colon + 1..Find(rest, IsSlash)];
        proxyPort := ToInt32(AToL(tmp));
        if proxyPort == 0 { proxyPort := 80; }
      } else {
        host := rest[..Find(rest, IsSlash)];
      }
    }

    // Everything after the target.
    method AddTail()
      requires |request| <= 1508 - |host| && |host| <= 1500 && http10 <= 2
      modifies `request
      ensures |request| < REQUEST_SIZE
      ensures request == old(request) + Tail(http10, proxyHost.Some?, forceReload, host)
    {
      hide Version, AgentLine, HostStart, PragmaLine, CloseLine, Tail;
      ghost var (start, direct) := (request, proxyHost.None?);
      Cat(Version(http10));
      Cat(CRLF);
      ghost var r0 := request;
      if http10 > 0 {
        Cat(AgentLine());
      }
      ghost var r1 := request;
      assert r1 == r0 + if http10 > 0 then AgentLine() else "";
      if proxyHost.None? && http10 > 0 {
        Cat(HostStart());
        Cat(host);
        Cat(CRLF);
        Grouped(r1, HostStart(), host, CRLF);
      }
      ghost var r2 := request;
      assert r2 == r1 + if direct && http10 > 0 then HostStart() + host + CRLF else "";
      if forceReload && proxyHost.Some? {
        Cat(PragmaLine());
      }
      ghost var r3 := request;
      assert r3 == r2 + if forceReload && !direct then PragmaLine() else "";
      if http10 > 1 {
        Cat(CloseLine());
      }
      ghost var r4 := request;
      assert r4 == r3 + if http10 > 1 then CloseLine() else "";
      if http10 > 0 {
        Cat(CRLF);
      }
      assert request == r4 + if http10 > 0 then CRLF else "";
      TailJoins(start, http10, !direct, forceReload, host);
    }
  }

  lemma Grouped(s: string, a: string, b: string, c: string)
    ensures s + a + b + c == s + (a + b + c)
  {
  }

  lemma TailJoins(start: string, http10: nat, proxy: bool, reload: bool, host: string)
    ensures start + Version(http10) + CRLF
            + (if http10 > 0 then AgentLine() else "")
            + (if !proxy && http10 > 0 then HostStart() + host + CRLF else "")
            + (if reload && proxy then PragmaLine() else "")
            + (if http10 > 1 then CloseLine() else "")
            + (if http10 > 0 then CRLF else "")
         == start + Tail(http10, proxy, reload, host)
  {
    hide Version, AgentLine, HostStart, PragmaLine, CloseLine;
  }

  function Version(http10: nat): (s: string)
    ensures |s| <= 9
  {
    if http10 == 1 then " HTTP/1.0" else if http10 == 2 then " HTTP/1.1" else ""
  }

  function AgentLine(): (s: string)
    ensures |s| == 26
  {
    AGENT + CRLF
  }

  function HostStart(): (s: string)
    ensures |s| == 6
  {
    "Host: "
  }

  function PragmaLine(): (s: string)
    ensures |s| == 18
  {
    "Pragma: no-cache" + CRLF
  }

  function CloseLine(): (s: string)
    ensures |s| == 19
  {
    CLOSE + CRLF
  }

  // Everything after the target.
  function Tail(http10: nat, proxy: bool, reload: bool, host: string): string {
    Version(http10) + CRLF
    + (if http10 > 0 then AgentLine() else "")
    + (if !proxy && http10 > 0 then HostStart() + host + CRLF else "")
    + (if reload && proxy then PragmaLine() else "")
    + (if http10 > 1 then CloseLine() else "")
    + (if http10 > 0 then CRLF else "")
  }

  lemma NoProxyTail(http10: nat, reload: bool, host: string)
    ensures Tail(http10, false, reload, host) == Tail(http10, false, false, host)
  {
  }

  // What is sent straight to a server ...
  function RequestText(m: Method, http10: nat, path: string, host: string): string {
    Verb(m) + " " + path + Tail(http10, false, false, host)
  }

  // ... and what is sent to a proxy.
  function ProxyText(m: Method, http10: nat, reload: bool, url: string): string {
    Verb(m) + " " + url + Tail(http10, true, reload, "")
  }

  function FirstWord(m: Method): string {
    match m
    case Get => "GET "
    case Head => "HEAD "
    case Options => "OPTIONS "
    case Trace => "TRACE "
  }

  // The same, spelled out.
  lemma DirectSpelled(m: Method, path: string, host: string)
    ensures RequestText(m, 0, path, host) == FirstWord(m) + path + "\r\n"
    ensures RequestText(m, 1, path, host) == FirstWord(m) + path
      + (" HTTP/1.0\r\n" + "User-Agent: WebBench 1.5\r\n" + ("Host: " + host + "\r\n") + "\r\n")
    ensures RequestText(m, 2, path, host) == FirstWord(m) + path
      + (" HTTP/1.1\r\n" + "User-Agent: WebBench 1.5\r\n" + ("Host: " + host + "\r\n") + "Connection: close\r\n" + "\r\n")
  {
    hide Tail, Verb, FirstWord;
    TailSpelled(host);
    StartSpelled(m);
  }

  lemma ProxySpelled(m: Method, reload: bool, url: string)
    ensures var pragma := if reload then "Pragma: no-cache\r\n" else "";
            && ProxyText(m, 0, reload, url) == FirstWord(m) + url + ("\r\n" + pragma)
            && ProxyText(m, 1, reload, url)
               == FirstWord(m) + url + (" HTTP/1.0\r\n" + "User-Agent: WebBench 1.5\r\n" + pragma + "\r\n")
            && ProxyText(m, 2, reload, url)
               == FirstWord(m) + url
                  + (" HTTP/1.1\r\n" + "User-Agent: WebBench 1.5\r\n" + pragma + "Connection: close\r\n" + "\r\n")
  {
    hide Tail, Verb, FirstWord;
    ProxyTailSpelled(reload);
    StartSpelled(m);
  }

  lemma StartSpelled(m: Method)
    ensures Verb(m) + " " == FirstWord(m)
  {
  }

  lemma PiecesSpelled()
    ensures Version(0) + CRLF == "\r\n" && Version(1) + CRLF == " HTTP/1.0\r\n" && Version(2) + CRLF == " HTTP/1.1\r\n"
    ensures AgentLine() == "User-Agent: WebBench 1.5\r\n" && CloseLine() == "Connection: close\r\n"
    ensures PragmaLine() == "Pragma: no-cache\r\n" && HostStart() == "Host: "
  {
  }

  lemma TailSpelled(host: string)
    ensures Tail(0, false, false, host) == "\r\n"
    ensures Tail(1, false, false, host)
         == " HTTP/1.0\r\n" + "User-Agent: WebBench 1.5\r\n" + ("Host: " + host + "\r\n") + "\r\n"
    ensures Tail(2, false, false, host)
         == " HTTP/1.1\r\n" + "User-Agent: WebBench 1.5\r\n" + ("Host: " + host + "\r\n") + "Connection: close\r\n" + "\r\n"
  {
    hide Version, AgentLine, CloseLine, PragmaLine, HostStart;
    PiecesSpelled();
    var line := "Host: " + host + "\r\n";
    var one := " HTTP/1.0\r\n" + "User-Agent: WebBench 1.5\r\n" + line;
    var two := " HTTP/1.1\r\n" + "User-Agent: WebBench 1.5\r\n" + line;
    assert one + "" == one && two + "" == two;
    assert "\r\n" + "" + "" + "" + "" + "" == "\r\n";
  }

  lemma ProxyTailSpelled(reload: bool)
    ensures var pragma := if reload then "Pragma: no-cache\r\n" else "";
            && Tail(0, true, reload, "") == "\r\n" + pragma
            && Tail(1, true, reload, "") == " HTTP/1.0\r\n" + "User-Agent: WebBench 1.5\r\n" + pragma + "\r\n"
            && Tail(2, true, reload, "")
               == " HTTP/1.1\r\n" + "User-Agent: WebBench 1.5\r\n" + pragma + "Connection: close\r\n" + "\r\n"
  {
    hide Version, AgentLine, CloseLine, PragmaLine, HostStart;
    PiecesSpelled();
    var pragma := if reload then "Pragma: no-cache\r\n" else "";
    var (one, two) := (" HTTP/1.0\r\n" + "User-Agent: WebBench 1.5\r\n", " HTTP/1.1\r\n" + "User-Agent: WebBench 1.5\r\n");
    assert one + "" == one && two + "" == two && one + pragma + "" == one + pragma;
    assert "\r\n" + "" + "" + pragma + "" + "" == "\r\n" + pragma;
  }

  lemma AfterProtocolIs(url: string)
    ensures FindText(url, "://") < |url| ==> AfterProtocol(url) == url[FindText(url, "://") + 3..]
  {
  }

  lemma PartsOf(url: string)
    requires FindText(url, "://") < |url| && Find(AfterProtocol(url), IsSlash) < |AfterProtocol(url)|
    ensures |HostOf(url)| + |PathOf(url)| <= |AfterProtocol(url)| <= |url| - 3
    ensures AfterProtocol(url) == url[FindText(url, "://") + 3..]
    ensures PathOf(url) == AfterProtocol(url)[Find(AfterProtocol(url), IsSlash)..]
  {
  }
}
