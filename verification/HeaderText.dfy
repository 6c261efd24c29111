// What the text of a request says: its request line, its header lines, and the answer to
// a whole request with its body.
module HeaderText {
  import opened Options
  import opened Joining
  import opened CStrings
  import opened HttpResponse
  import opened HttpRequest
  import opened HttpConn
  import opened Numbers

  // ---- Letter case ---------------------------------------------------------------------

  predicate SameLetter(a: char, b: char) {
    || a == b
    || ('A' <= a <= 'Z' && b as int == a as int + 32)
    || ('A' <= b <= 'Z' && a as int == b as int + 32)
  }

  predicate SameButCase(a: string, b: string) {
    |a| == |b| && forall i :: 0 <= i < |a| ==> SameLetter(a[i], b[i])
  }

  lemma CaseExact(a: string, b: string)
    ensures EqualsIgnoreCase(a, b) <==> SameButCase(a, b)
  {
    if |a| == |b| {
      forall i | 0 <= i < |a| ensures Lower(a[i]) == Lower(b[i]) <==> SameLetter(a[i], b[i]) {
      }
      if EqualsIgnoreCase(a, b) {
        forall i | 0 <= i < |a| ensures SameLetter(a[i], b[i]) {
          assert Lower(a[i]) == Lower(b[i]);
        }
      }
      if SameButCase(a, b) {
        forall i | 0 <= i < |a| ensures Lower(a[i]) == Lower(b[i]) {
          assert SameLetter(a[i], b[i]);
        }
      }
    }
  }

  lemma StartsExact(name: string, rest: string, prefix: string)
    requires |name| == |prefix|
    ensures StartsWithIgnoreCase(name + rest, prefix) <==> SameButCase(name, prefix)
  {
    assert (name + rest)[..|prefix|] == name;
    CaseExact(name, prefix);
  }

  lemma DiffersAt(s: string, prefix: string, i: nat)
    requires i < |s| && i < |prefix| && Lower(s[i]) != Lower(prefix[i])
    ensures !StartsWithIgnoreCase(s, prefix)
  {
    assert |s| >= |prefix| ==> s[..|prefix|][i] == s[i];
  }

  lemma {:induction false} CleanIsCStr(s: string)
    requires NUL !in s
    ensures CStr(s) == s
  {
    if s == "" {
    } else {
      CleanIsCStr(s[1..]);
    }
  }

  // ---- One header line -------------------------------------------------------------------

  predicate AllBlank(s: string) {
    forall c :: c in s ==> c == ' ' || c == '\t'
  }

  // A value that starts with neither blank nor tab.
  predicate Starts(value: string) {
    value == "" || (value[0] != ' ' && value[0] != '\t')
  }

  lemma ValueOf(name: string, blanks: string, value: string)
    requires AllBlank(blanks) && Starts(value)
    ensures var text := name + blanks + value;
            text == name + (blanks + value) && |text| >= |name| && text[..|name|] == name
            && SkipBlanks(text[|name|..]) == value
  {
    hide Find;
    var t := blanks + value;
    var text := name + blanks + value;
    assert text == name + t && text[|name|..] == t;
    forall i | 0 <= i < |blanks| ensures !NotBlank(t[i]) {
      assert t[i] == blanks[i] && blanks[i] in blanks;
    }
    FindIs(t, NotBlank, |blanks|);
    assert t[|blanks|..] == value;
  }

  // Content-Length, in any letter case.
  lemma LengthTaken(f: Fields, name: string, blanks: string, value: string)
    requires SameButCase(name, "Content-Length:") && AllBlank(blanks) && Starts(value)
    requires NUL !in name + blanks + value
    ensures HeaderLine(f, name + blanks + value) == f.(contentLength := ToInt32(AToL(value)))
    ensures CStr(name + blanks + value) != ""
  {
    hide CStr, Find, SkipBlanks, AToL, ToInt32, EqualsIgnoreCase, Lower;
    var text := name + blanks + value;
    CleanIsCStr(text);
    ValueOf(name, blanks, value);
    StartsExact(name, blanks + value, "Content-Length:");
    FourthLetter(name, text);
  }

  lemma FourthLetter(name: string, text: string)
    requires SameButCase(name, "Content-Length:") && |text| >= |name| && text[..|name|] == name
    ensures !StartsWithIgnoreCase(text, "Connection:")
  {
    assert SameLetter(name[3], "Content-Length:"[3]);
    assert text[3] == text[..|name|][3] == name[3];
    DiffersAt(text, "Connection:", 3);
  }

  // Written out as a number it is that number, whatever text follows it.
  lemma LengthIs(f: Fields, name: string, blanks: string, digits: string, tail: string)
    requires SameButCase(name, "Content-Length:") && AllBlank(blanks)
    requires digits != "" && AllDigits(digits) && EndsNumber(tail) && DigitsValue(digits) < 0x8000_0000
    requires NUL !in name + blanks + (digits + tail)
    ensures HeaderLine(f, name + blanks + (digits + tail)) == f.(contentLength := DigitsValue(digits))
    ensures CStr(name + blanks + (digits + tail)) != ""
  {
    hide CStr, HeaderLine, DigitsValue, AToL, ToInt32, Clamped;
    var value := digits + tail;
    assert digits[0] in digits && value[0] == digits[0];
    LengthTaken(f, name, blanks, value);
    AToLExact("", "", digits, tail);
    assert "" + "" + digits + tail == value;
    SmallIsItself(DigitsValue(digits));
  }

  lemma HostTaken(f: Fields, name: string, blanks: string, value: string)
    requires SameButCase(name, "Host:") && AllBlank(blanks) && Starts(value) && NUL !in name + blanks + value
    ensures HeaderLine(f, name + blanks + value) == f.(host := Some(value)) && CStr(name + blanks + value) != ""
  {
    hide CStr, Find, SkipBlanks, AToL, ToInt32, EqualsIgnoreCase;
    var text := name + blanks + value;
    CleanIsCStr(text);
    ValueOf(name, blanks, value);
    StartsExact(name, blanks + value, "Host:");
    assert SameLetter(name[0], "Host:"[0]) && text[0] == text[..|name|][0] == name[0];
    DiffersAt(text, "Connection:", 0);
    DiffersAt(text, "Content-Length:", 0);
  }

  // The connection is kept for this one value, in any letter case, and no other changes that.
  lemma LingerTaken(f: Fields, name: string, blanks: string, value: string)
    requires SameButCase(name, "Connection:") && AllBlank(blanks) && Starts(value) && NUL !in name + blanks + value
    ensures HeaderLine(f, name + blanks + value) == f.(linger := f.linger || SameButCase(value, "keep-alive"))
    ensures CStr(name + blanks + value) != ""
  {
    hide CStr, Find, SkipBlanks, AToL, ToInt32, EqualsIgnoreCase;
    var text := name + blanks + value;
    CleanIsCStr(text);
    ValueOf(name, blanks, value);
    StartsExact(name, blanks + value, "Connection:");
    CaseExact(value, "keep-alive");
  }

  predicate Named(text: string, prefix: string) {
    |text| >= |prefix| && SameButCase(text[..|prefix|], prefix)
  }

  // Any other line says nothing.
  lemma OtherIgnored(f: Fields, text: string)
    requires NUL !in text && !Named(text, "Connection:") && !Named(text, "Content-Length:") && !Named(text, "Host:")
    ensures HeaderLine(f, text) == f
  {
    hide CStr, EqualsIgnoreCase, SameButCase, AToL, ToInt32, SkipBlanks;
    CleanIsCStr(text);
    NamedExact(text, "Connection:");
    NamedExact(text, "Content-Length:");
    NamedExact(text, "Host:");
  }

  lemma NamedExact(text: string, prefix: string)
    ensures StartsWithIgnoreCase(text, prefix) <==> Named(text, prefix)
  {
    hide EqualsIgnoreCase, SameButCase;
    if |text| >= |prefix| {
      CaseExact(text[..|prefix|], prefix);
    }
  }

  // ---- The request line --------------------------------------------------------------------

  predicate Unbroken(s: string) {
    forall c :: c in s ==> c != ' ' && c != '\t' && c != NUL
  }

  lemma UpToBlank(s: string, blank: char, rest: string)
    requires Unbroken(s) && blank in " \t"
    ensures var t := s + [blank] + rest; Find(t, IsBlank) == |s| < |t| && t[..|s|] == s && t[|s| + 1..] == rest
  {
    hide Find;
    var t := s + [blank] + rest;
    forall i | 0 <= i < |s| ensures !IsBlank(t[i]) {
      assert t[i] == s[i] && s[i] in s;
    }
    FindIs(t, IsBlank, |s|);
  }

  // Verb, target and version, with one blank or tab between them: what comes of it is the
  // target without its authority, for GET and HTTP/1.1 in any letter case and nothing else.
  lemma RequestLineExact(verb: string, b: char, target: string, c: char, version: string)
    requires Unbroken(verb) && Unbroken(target) && b in " \t" && c in " \t" && NUL !in version
    ensures var line := verb + [b] + (target + [c] + version);
            RequestTarget(line) ==
              if !SameButCase(verb, "GET") || !SameButCase(version, "HTTP/1.1") then None
              else match AfterAuthority(target)
                case None => None
                case Some(path) => if path != "" && path[0] == '/' then Some(path) else None
  {
    hide CStr, Find, AfterAuthority, EqualsIgnoreCase, SameButCase;
    var rest := target + [c] + version;
    var line := verb + [b] + rest;
    forall d | d in line ensures d != NUL {
      assert d in verb || d == b || d in target || d == c || d in version;
    }
    CleanIsCStr(line);
    UpToBlank(verb, b, rest);
    UpToBlank(target, c, version);
    CaseExact(verb, "GET");
    CaseExact(version, "HTTP/1.1");
  }

  // With fewer blanks there is no request.
  lemma TooFewBlanks(verb: string, b: char, target: string)
    requires Unbroken(verb) && Unbroken(target) && b in " \t"
    ensures RequestTarget(verb) == None && RequestTarget(verb + [b] + target) == None
  {
    hide CStr, Find, EqualsIgnoreCase;
    var line := verb + [b] + target;
    forall d | d in line ensures d != NUL {
      assert d in verb || d == b || d in target;
    }
    CleanIsCStr(verb);
    CleanIsCStr(line);
    NoBlank(verb);
    NoBlank(target);
    UpToBlank(verb, b, target);
  }

  lemma NoBlank(s: string)
    requires Unbroken(s)
    ensures Find(s, IsBlank) == |s|
  {
    hide Find;
    forall i | 0 <= i < |s| ensures !IsBlank(s[i]) {
      assert s[i] in s;
    }
    FindIs(s, IsBlank, |s|);
  }

  // A target in origin form is its own path ...
  lemma OriginForm(target: string)
    requires target != "" && target[0] == '/'
    ensures AfterAuthority(target) == Some(target)
  {
    DiffersAt(target, "http://", 0);
  }

  // ... and one in absolute form is what follows its authority.
  lemma AbsoluteForm(scheme: string, authority: string, path: string)
    requires SameButCase(scheme, "http://") && '/' !in authority && (path == "" || path[0] == '/')
    ensures AfterAuthority(scheme + (authority + path)) == if path == "" then None else Some(path)
  {
    hide Find, SameButCase;
    var rest := authority + path;
    SchemeLength(scheme);
    StartsExact(scheme, rest, "http://");
    assert (scheme + rest)[7..] == rest;
    forall i | 0 <= i < |authority| ensures !IsSlash(rest[i]) {
      assert rest[i] == authority[i] && authority[i] in authority;
    }
    FindIs(rest, IsSlash, |authority|);
    assert rest[|authority|..] == path;
  }

  lemma SchemeLength(scheme: string)
    requires SameButCase(scheme, "http://")
    ensures |scheme| == 7
  {
  }

  // ---- A whole request ------------------------------------------------------------------------

  function Lines(ls: seq<string>): string {
    if ls == [] then "" else ls[0] + CRLF + Lines(ls[1..])
  }

  // What a list of header lines makes of the fields, the first line first.
  function TakeHeaders(f: Fields, hs: seq<string>): (g: Fields)
    ensures g.url == f.url
    decreases |hs|
  {
    if hs == [] then f else TakeHeaders(HeaderLine(f, hs[0]), hs[1..])
  }

  predicate IsHeader(h: string) {
    NoEol(h) && CStr(h) != ""
  }

  // A line known to lie at the front of what is left.
  lemma AdvanceOver(p: Parse, s: string, line: string, rest: string)
    requires p.Reading? && Within(p, s) && s[p.at..] == line + CRLF + rest && NoEol(line)
    ensures var q := TakeLine(p, line, p.at + |line| + 2);
            Within(q, s) && Advance(p, s) == Advance(q, s) && s[p.at + |line| + 2..] == rest
  {
    hide TakeLine, Advance;
    var t := s[p.at..];
    var n := |line|;
    assert t[n] == CR && t[n + 1] == LF && t[..n] == line;
    FindIs(t, IsEol, n);
    assert s[p.at + n] == t[n] && s[p.at + n + 1] == t[n + 1];
    assert NextLine(s, p.at) == Line(p.at + n);
    assert s[p.at..p.at + n] == t[..n];
    assert s[p.at + n + 2..] == t[n + 2..] == rest;
    AdvanceLine(p, s);
  }

  lemma {:induction false} AdvanceHeaders(s: string, at: nat, f: Fields, hs: seq<string>, rest: string)
    requires at <= |s| && s[at..] == Lines(hs) + CRLF + rest && forall h :: h in hs ==> IsHeader(h)
    ensures var g := TakeHeaders(f, hs);
            Advance(Reading(Headers, at, f), s)
            == if g.contentLength != 0 then Body(|s| - |rest|, g) else Dispatch(|s| - |rest|, g)
    decreases |hs|
  {
    hide Advance, HeaderLine, CStr, NoEol, NextLine;
    var p := Reading(Headers, at, f);
    if hs == [] {
      assert Lines(hs) + CRLF + rest == "" + CRLF + rest;
      EmptyLine();
      AdvanceOver(p, s, "", rest);
      AdvanceDone(TakeLine(p, "", at + 2), s);
      assert |s[at..]| == 2 + |rest|;
    } else {
      var more := Lines(hs[1..]) + CRLF + rest;
      assert Lines(hs) + CRLF + rest == hs[0] + CRLF + more;
      assert hs[0] in hs && forall h :: h in hs[1..] ==> h in hs;
      AdvanceOver(p, s, hs[0], more);
      AdvanceHeaders(s, at + |hs[0]| + 2, HeaderLine(f, hs[0]), hs[1..], rest);
    }
  }

  lemma EmptyLine()
    ensures NoEol("") && CStr("") == ""
  {
  }

  // A request as text: its headers are taken in turn, and after the blank line comes the
  // body, if one was announced, or the answer.
  lemma WholeRequest(line: string, hs: seq<string>, rest: string)
    requires NoEol(line) && RequestTarget(line).Some? && forall h :: h in hs ==> IsHeader(h)
    ensures var s := line + CRLF + (Lines(hs) + CRLF + rest);
            var g := TakeHeaders(Fields(RequestTarget(line).value, None, false, 0), hs);
            Advance(START, s) == if g.contentLength != 0 then Body(|s| - |rest|, g) else Dispatch(|s| - |rest|, g)
  {
    hide Advance, HeaderLine, CStr, NoEol, NextLine, RequestTarget, IsHeader, TakeHeaders, Lines;
    var more := Lines(hs) + CRLF + rest;
    var s := line + CRLF + more;
    assert s[0..] == s;
    AdvanceOver(START, s, line, more);
    AdvanceHeaders(s, |line| + 2, Fields(RequestTarget(line).value, None, false, 0), hs, rest);
  }

  lemma {:induction false} TakeHeadersJoin(f: Fields, a: seq<string>, b: seq<string>)
    ensures TakeHeaders(f, a + b) == TakeHeaders(TakeHeaders(f, a), b)
    decreases |a|
  {
    hide HeaderLine;
    if a == [] {
      assert a + b == b;
    } else {
      assert (a + b)[0] == a[0] && (a + b)[1..] == a[1..] + b;
      TakeHeadersJoin(HeaderLine(f, a[0]), a[1..], b);
    }
  }

  // Lines of another name leave the length alone.
  lemma {:induction false} LengthKept(f: Fields, hs: seq<string>)
    requires forall h :: h in hs ==> NUL !in h && !Named(h, "Content-Length:")
    ensures TakeHeaders(f, hs).contentLength == f.contentLength
    decreases |hs|
  {
    hide CStr, EqualsIgnoreCase, SameButCase, SkipBlanks, Named;
    if hs != [] {
      assert hs[0] in hs && forall h :: h in hs[1..] ==> h in hs;
      CleanIsCStr(hs[0]);
      NamedExact(hs[0], "Content-Length:");
      LengthKept(HeaderLine(f, hs[0]), hs[1..]);
    }
  }

  // The last Content-Length line is the one that counts.
  lemma AnnouncedLength(
    f: Fields, before: seq<string>, name: string, blanks: string, digits: string, tail: string, after: seq<string>)
    requires SameButCase(name, "Content-Length:") && AllBlank(blanks)
    requires digits != "" && AllDigits(digits) && EndsNumber(tail) && DigitsValue(digits) < 0x8000_0000
    requires NUL !in name + blanks + (digits + tail)
    requires forall h :: h in after ==> NUL !in h && !Named(h, "Content-Length:")
    ensures TakeHeaders(f, before + [name + blanks + (digits + tail)] + after).contentLength == DigitsValue(digits)
  {
    hide TakeHeaders, HeaderLine, DigitsValue, Named, SameButCase;
    var h := name + blanks + (digits + tail);
    var g := TakeHeaders(f, before);
    TakeHeadersJoin(f, before + [h], after);
    TakeHeadersJoin(f, before, [h]);
    OneHeader(g, h);
    LengthIs(g, name, blanks, digits, tail);
    LengthKept(HeaderLine(g, h), after);
  }

  lemma OneHeader(f: Fields, h: string)
    ensures TakeHeaders(f, [h]) == HeaderLine(f, h)
  {
    hide HeaderLine;
    assert [h][1..] == [];
  }

  // A request that announces a body of n bytes and comes in one piece with what there is
  // of it is settled if and only if n bytes follow its blank line.
  lemma SettledWithBody(line: string, hs: seq<string>, body: string)
    requires NoEol(line) && RequestTarget(line).Some? && forall h :: h in hs ==> IsHeader(h)
    requires TakeHeaders(Fields(RequestTarget(line).value, None, false, 0), hs).contentLength != 0
    ensures var s := line + CRLF + (Lines(hs) + CRLF + body);
            Settles([s], 0)
            <==> |body| >= TakeHeaders(Fields(RequestTarget(line).value, None, false, 0), hs).contentLength
  {
    hide Advance, RequestTarget, TakeHeaders, Lines, IsHeader, NoEol, RestOf;
    var s := line + CRLF + (Lines(hs) + CRLF + body);
    WholeRequest(line, hs, body);
    ConcatOne(s);
    assert [s][..1] == [s] && [s][..0] == [];
    AdvanceNothing();
  }

  lemma AdvanceNothing()
    ensures Advance(START, "") == START
  {
  }

  // Of the connection: such a request is answered exactly when n bytes follow.
  method ReceiveWithBody(
    conn: Connection, fs: FileSystem, line: string, before: seq<string>, name: string, blanks: string, digits: string,
    tail: string, after: seq<string>, body: string)
    returns (code: HttpCode)
    requires conn.Fresh() && NoEol(line) && RequestTarget(line).Some?
    requires forall h :: h in before + [name + blanks + (digits + tail)] + after ==> IsHeader(h)
    requires SameButCase(name, "Content-Length:") && AllBlank(blanks)
    requires digits != "" && AllDigits(digits) && EndsNumber(tail) && 0 < DigitsValue(digits) < 0x8000_0000
    requires NUL !in name + blanks + (digits + tail)
    requires forall h :: h in after ==> NUL !in h && !Named(h, "Content-Length:")
    requires |line + CRLF + (Lines(before + [name + blanks + (digits + tail)] + after) + CRLF + body)| < 2048
    modifies conn, conn.readBuf
    ensures code != NoRequest <==> |body| >= DigitsValue(digits)
    ensures code != NoRequest ==> Serves(fs, RequestTarget(line).value, code, conn.fileSize)
  {
    hide Advance, RequestTarget, TakeHeaders, Lines, IsHeader, NoEol, RestOf, DigitsValue, Named, SameButCase, Settles,
         Serves, Concat, AllDigits, EndsNumber, AllBlank;
    var hs := before + [name + blanks + (digits + tail)] + after;
    var s := line + CRLF + (Lines(hs) + CRLF + body);
    ghost var f := Fields(RequestTarget(line).value, None, false, 0);
    AnnouncedLength(f, before, name, blanks, digits, tail, after);
    SettledWithBody(line, hs, body);
    WholeRequest(line, hs, body);
    UrlKept(f, hs);
    ConcatOne(s);
    assert [s][..1] == [s];
    var used;
    code, used := conn.ReceiveRequest([s], fs);
  }

  lemma UrlKept(f: Fields, hs: seq<string>)
    ensures TakeHeaders(f, hs).url == f.url
  {
  }
}
