// The C library's string routines, on strings and on memory that holds them.
module CStrings {

  const NUL: char := '\0'
  const CR: char := '\r'
  const LF: char := '\n'
  const CRLF: string := "\r\n"

  predicate IsBlank(c: char) { c == ' ' || c == '\t' }

  predicate NotBlank(c: char) { !IsBlank(c) }

  predicate IsSlash(c: char) { c == '/' }

  predicate IsEol(c: char) { c == CR || c == LF }

  // The string that starts at the front of the memory, without its terminator.
  function CStr(b: seq<char>): (s: string)
    ensures |s| <= |b| && s == b[..|s|] && NUL !in s
    ensures |s| < |b| ==> b[|s|] == NUL
  {
    if b == [] || b[0] == NUL then [] else [b[0]] + CStr(b[1..])
  }

  lemma {:induction false} CStrIs(b: seq<char>, n: nat)
    requires n < |b| && b[n] == NUL && NUL !in b[..n]
    ensures CStr(b) == b[..n]
  {
    if n == 0 {
    } else {
      assert b[0] == b[..n][0] && b[..n][1..] == b[1..][..n - 1];
      CStrIs(b[1..], n - 1);
    }
  }

  // The memory holds the terminated string s at address i.
  predicate Str(b: seq<char>, i: nat, s: string) {
    i + |s| < |b| && b[i..i + |s|] == s && b[i + |s|] == NUL && NUL !in s
  }

  lemma StrIsCStr(b: seq<char>, i: nat, s: string)
    requires Str(b, i, s)
    ensures CStr(b[i..]) == s
  {
    assert b[i..][..|s|] == s;
    CStrIs(b[i..], |s|);
  }

  // Only the memory up to the terminator counts.
  lemma StrFrame(b: seq<char>, c: seq<char>, i: nat, s: string)
    requires Str(b, i, s) && i + |s| < |c| && b[i..i + |s| + 1] == c[i..i + |s| + 1]
    ensures Str(c, i, s)
  {
    assert b[i..i + |s|] == b[i..i + |s| + 1][..|s|] && c[i..i + |s|] == c[i..i + |s| + 1][..|s|];
    assert b[i + |s|] == b[i..i + |s| + 1][|s|] && c[i + |s|] == c[i..i + |s| + 1][|s|];
  }

  lemma StrSuffix(b: seq<char>, i: nat, s: string, k: nat)
    requires Str(b, i, s) && k <= |s|
    ensures Str(b, i + k, s[k..])
  {
    assert b[i + k..i + |s|] == b[i..i + |s|][k..];
  }

  lemma StrFirst(b: seq<char>, i: nat, s: string)
    requires Str(b, i, s)
    ensures i + |s| < |b| && b[i] == if s == [] then NUL else s[0]
  {
    if s != [] {
      assert b[i] == b[i..i + |s|][0];
    }
  }

  // A terminator stored inside a string makes two of it.
  lemma StrCut(b: seq<char>, i: nat, s: string, k: nat)
    requires Str(b, i, s) && k < |s|
    ensures var c := b[i + k := NUL]; Str(c, i, s[..k]) && Str(c, i + k + 1, s[k + 1..])
  {
    var c := b[i + k := NUL];
    assert c[i..i + k] == b[i..i + |s|][..k];
    assert c[i + k + 1..i + |s|] == b[i..i + |s|][k + 1..];
  }

  lemma PieceParts(b: seq<char>, i: nat, piece: seq<char>, n: nat)
    requires i + |piece| < |b| && b[i..i + |piece|] == piece && n <= |piece|
    ensures b[i..i + n] == piece[..n] && (n < |piece| ==> b[i + n] == piece[n])
  {
    assert b[i..i + n] == b[i..i + |piece|][..n];
    assert n < |piece| ==> b[i + n] == b[i..i + |piece|][n];
  }

  // A terminator put after a piece of memory makes a string of it, up to the first
  // terminator it held itself.
  lemma StrOfPiece(b: seq<char>, i: nat, piece: seq<char>)
    requires i + |piece| < |b| && b[i..i + |piece|] == piece && b[i + |piece|] == NUL
    ensures Str(b, i, CStr(piece))
  {
    hide CStr;
    StrOfPrefix(b, i, piece, CStr(piece));
  }

  lemma StrOfPrefix(b: seq<char>, i: nat, piece: seq<char>, s: string)
    requires i + |piece| < |b| && b[i..i + |piece|] == piece && b[i + |piece|] == NUL
    requires |s| <= |piece| && s == piece[..|s|] && NUL !in s && (|s| < |piece| ==> piece[|s|] == NUL)
    ensures Str(b, i, s)
  {
    PieceParts(b, i, piece, |s|);
  }

  // strpbrk, strchr and strcspn: how far until a character of the kind, or the end.
  function Find(s: string, p: char -> bool): (n: nat)
    ensures n <= |s| && (n < |s| ==> p(s[n])) && forall i :: 0 <= i < n ==> !p(s[i])
  {
    if s == [] || p(s[0]) then 0 else 1 + Find(s[1..], p)
  }

  lemma FindIs(s: string, p: char -> bool, n: nat)
    requires n <= |s| && (n < |s| ==> p(s[n])) && forall i :: 0 <= i < n ==> !p(s[i])
    ensures Find(s, p) == n
  {
  }

  // strspn over blanks, then the rest.
  function SkipBlanks(s: string): (t: string)
    ensures t != [] ==> !IsBlank(t[0])
  {
    s[Find(s, NotBlank)..]
  }

  function Lower(c: char): char {
    if 'A' <= c <= 'Z' then ((c as int) + 32) as char else c
  }

  predicate EqualsIgnoreCase(a: string, b: string) {
    |a| == |b| && forall i :: 0 <= i < |a| ==> Lower(a[i]) == Lower(b[i])
  }

  predicate StartsWithIgnoreCase(s: string, prefix: string) {
    |s| >= |prefix| && EqualsIgnoreCase(s[..|prefix|], prefix)
  }

  predicate IsDigit(c: char) { '0' <= c <= '9' }

  predicate NotDigit(c: char) { !IsDigit(c) }

  predicate NotSpace(c: char) { !(c == ' ' || '\t' <= c <= '\r') }

  function DigitsValue(s: string): (n: nat)
    requires forall c :: c in s ==> IsDigit(c)
  {
    if s == [] then 0
    else assert IsDigit(s[|s| - 1]); 10 * DigitsValue(s[..|s| - 1]) + (s[|s| - 1] as int - '0' as int)
  }

  // atol for a 64-bit long.
  function AToL(s: string): (n: int)
    ensures -0x8000_0000_0000_0000 <= n < 0x8000_0000_0000_0000
  {
    var t := s[Find(s, NotSpace)..];
    var negative := t != [] && t[0] == '-';
    var u := if t != [] && (t[0] == '-' || t[0] == '+') then t[1..] else t;
    var digits := u[..Find(u, NotDigit)];
    var v: int := DigitsValue(digits);
    var w := if negative then -v else v;
    if w >= 0x8000_0000_0000_0000 then 0x7FFF_FFFF_FFFF_FFFF
    else if w < -0x8000_0000_0000_0000 then -0x8000_0000_0000_0000 else w
  }

  // Conversion of a wider integer to a 32-bit int.
  function ToInt32(n: int): (r: int)
    ensures -0x8000_0000 <= r < 0x8000_0000 && (n - r) % 0x1_0000_0000 == 0
  {
    var m := n % 0x1_0000_0000;
    if m < 0x8000_0000 then m else m - 0x1_0000_0000
  }
}
