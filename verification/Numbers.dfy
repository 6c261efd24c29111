// What decimal text means, and that numbers written out read back.
module Numbers {
  import opened CStrings
  import opened HttpResponse

  // ---- Reading ---------------------------------------------------------------------------

  predicate AllDigits(s: string) {
    forall c :: c in s ==> IsDigit(c)
  }

  lemma PowersOfTen(a: nat, b: nat)
    ensures PowerOfTen(0) == 1 && PowerOfTen(1) == 10 && PowerOfTen(a + b) == PowerOfTen(a) * PowerOfTen(b)
  {
    if a > 0 {
      PowersOfTen(a - 1, b);
      assert PowerOfTen(a + b) == 10 * PowerOfTen(a - 1 + b);
    }
  }

  lemma OneDigit(c: char)
    requires IsDigit(c)
    ensures DigitsValue([c]) == c as int - '0' as int
  {
    assert [c][..0] == [];
  }

  lemma LastDigit(s: string, c: char)
    requires AllDigits(s) && IsDigit(c)
    ensures AllDigits(s + [c]) && DigitsValue(s + [c]) == 10 * DigitsValue(s) + (c as int - '0' as int)
  {
    assert (s + [c])[..|s|] == s;
  }

  // Each digit counts ten times the one after it.
  lemma {:induction false} Positional(a: string, b: string)
    requires AllDigits(a) && AllDigits(b)
    ensures AllDigits(a + b) && DigitsValue(a + b) == DigitsValue(a) * PowerOfTen(|b|) + DigitsValue(b)
    decreases |b|
  {
    hide DigitsValue, PowerOfTen;
    PowersOfTen(0, 0);
    if b == [] {
      assert a + b == a;
      NoDigits();
    } else {
      var k := |b| - 1;
      var (init, c) := (b[..k], b[k]);
      assert c in b && forall d :: d in init ==> d in b;
      Positional(a, init);
      LastDigit(a + init, c);
      LastDigit(init, c);
      assert a + b == a + init + [c] && b == init + [c];
      TenTimes(DigitsValue(a), k);
    }
  }

  lemma NoDigits()
    ensures DigitsValue("") == 0
  {
  }

  lemma TenTimes(x: nat, k: nat)
    ensures x * PowerOfTen(k + 1) == 10 * (x * PowerOfTen(k))
  {
    var p := PowerOfTen(k);
    assert PowerOfTen(k + 1) == 10 * p;
    assert x * (10 * p) == 10 * (x * p);
  }

  function Clamped(v: int): int {
    if v > 9_223_372_036_854_775_807 then 9_223_372_036_854_775_807
    else if v < -9_223_372_036_854_775_808 then -9_223_372_036_854_775_808
    else v
  }

  predicate AllSpace(s: string) {
    forall c :: c in s ==> c in " \t\n\r" || c as int == 11 || c as int == 12
  }

  // Nothing that a number could go on with.
  predicate EndsNumber(tail: string) {
    tail == "" || !('0' <= tail[0] <= '9')
  }

  lemma SpaceSkipped(space: string, t: string)
    requires AllSpace(space) && (t == "" || (t[0] !in " \t\n\r" && t[0] as int != 11 && t[0] as int != 12))
    ensures Find(space + t, NotSpace) == |space| && (space + t)[|space|..] == t
  {
    hide Find;
    var s := space + t;
    forall i | 0 <= i < |space| ensures !NotSpace(s[i]) {
      assert s[i] == space[i] && space[i] in space;
    }
    FindIs(s, NotSpace, |space|);
  }

  lemma DigitsTaken(digits: string, tail: string)
    requires AllDigits(digits) && EndsNumber(tail)
    ensures Find(digits + tail, NotDigit) == |digits| && (digits + tail)[..|digits|] == digits
  {
    hide Find;
    var u := digits + tail;
    forall i | 0 <= i < |digits| ensures !NotDigit(u[i]) {
      assert u[i] == digits[i] && digits[i] in digits;
    }
    FindIs(u, NotDigit, |digits|);
  }

  lemma AToLParts(s: string, t: string, u: string, digits: string)
    requires t == s[Find(s, NotSpace)..] && u == (if t != "" && (t[0] == '-' || t[0] == '+') then t[1..] else t)
    requires digits == u[..Find(u, NotDigit)]
    ensures AllDigits(digits)
    ensures var v: int := DigitsValue(digits); AToL(s) == Clamped(if t != "" && t[0] == '-' then -v else v)
  {
    hide Find, DigitsValue;
  }

  // A sign before something that does not start with one.
  lemma SignTaken(sign: string, u: string)
    requires sign in {"", "+", "-"} && (sign == "" && u != "" ==> u[0] !in "+-")
    ensures var t := sign + u;
            && u == (if t != "" && (t[0] == '-' || t[0] == '+') then t[1..] else t)
            && (t != "" && t[0] == '-' <==> sign == "-")
            && (t != "" ==> t[0] == if sign == "" then u[0] else sign[0])
  {
    var t := sign + u;
    assert if sign == "" then t == u else t[1..] == u;
  }

  // White space, perhaps a sign, digits, then anything else: the number, or the nearest
  // one there is room for.
  lemma AToLExact(space: string, sign: string, digits: string, tail: string)
    requires AllSpace(space) && sign in {"", "+", "-"} && digits != "" && AllDigits(digits) && EndsNumber(tail)
    ensures var v: int := DigitsValue(digits); AToL(space + sign + digits + tail) == Clamped(if sign == "-" then -v else v)
  {
    hide Find, DigitsValue, AToL, Clamped;
    var u := digits + tail;
    assert space + sign + digits + tail == space + (sign + u);
    assert digits[0] in digits && u[0] == digits[0];
    SignTaken(sign, u);
    SpaceSkipped(space, sign + u);
    DigitsTaken(digits, tail);
    AToLParts(space + (sign + u), sign + u, u, digits);
  }

  // Without a digit it is zero.
  lemma AToLNothing(space: string, sign: string, tail: string)
    requires AllSpace(space) && sign in {"", "+", "-"} && EndsNumber(tail)
    requires sign == "" && tail != "" ==> tail[0] !in " \t\n\r+-" && tail[0] as int != 11 && tail[0] as int != 12
    ensures AToL(space + sign + tail) == 0
  {
    hide Find, DigitsValue, AToL;
    assert space + sign + tail == space + (sign + tail);
    SignTaken(sign, tail);
    SpaceSkipped(space, sign + tail);
    DigitsTaken("", tail);
    assert "" + tail == tail;
    NoDigits();
    AToLParts(space + (sign + tail), sign + tail, tail, "");
  }

  lemma SmallIsItself(n: int)
    requires -0x8000_0000 <= n < 0x8000_0000
    ensures ToInt32(Clamped(n)) == n
  {
  }

  // ---- Writing ------------------------------------------------------------------------------

  // The text is that of the number: its digits, without a zero in front.
  predicate IsDecimal(text: string, n: int) {
    if n < 0 then text != "" && text[0] == '-' && IsNatural(text[1..], -n) else IsNatural(text, n)
  }

  predicate IsNatural(text: string, n: int) {
    text != "" && AllDigits(text) && DigitsValue(text) == n && (text[0] == '0' ==> text == "0")
  }

  lemma {:induction false} DigitsReadBack(n: nat)
    ensures IsNatural(Digits(n), n)
  {
    if n < 10 {
      OneDigit(('0' as int + n) as char);
    } else {
      var c := ('0' as int + n % 10) as char;
      DigitsReadBack(n / 10);
      LastDigit(Digits(n / 10), c);
      assert Digits(n)[0] == Digits(n / 10)[0];
      OneDigit('0');
    }
  }

  lemma DecimalReadsBack(n: int)
    ensures IsDecimal(Decimal(n), n)
  {
    DigitsReadBack(if n < 0 then -n else n);
    assert n < 0 ==> Decimal(n)[1..] == Digits(-n);
  }

  // And only one text is that of a number.
  lemma {:induction false} NaturalUnique(a: string, b: string, n: nat)
    requires IsNatural(a, n) && IsNatural(b, n)
    ensures a == b
    decreases |a|
  {
    NaturalParts(a, n);
    NaturalParts(b, n);
    if n >= 10 {
      NaturalUnique(a[..|a| - 1], b[..|b| - 1], n / 10);
    }
    assert a == a[..|a| - 1] + [a[|a| - 1]] && b == b[..|b| - 1] + [b[|b| - 1]];
  }

  lemma NaturalParts(a: string, n: nat)
    requires IsNatural(a, n)
    ensures a[|a| - 1] as int == '0' as int + n % 10
    ensures if n < 10 then |a| == 1 else |a| > 1 && IsNatural(a[..|a| - 1], n / 10)
  {
    var (init, c) := (a[..|a| - 1], a[|a| - 1]);
    assert a == init + [c] && c in a && forall d :: d in init ==> d in a;
    LastDigit(init, c);
    if init != "" {
      assert init[0] == a[0];
      Leading(init);
    }
  }

  // A number not starting with zero is at least one.
  lemma {:induction false} Leading(s: string)
    requires s != "" && AllDigits(s) && s[0] != '0'
    ensures DigitsValue(s) >= 1
  {
    var k := |s| - 1;
    assert s == s[..k] + [s[k]] && s[k] in s && s[0] in s && forall d :: d in s[..k] ==> d in s;
    LastDigit(s[..k], s[k]);
    if k > 0 {
      Leading(s[..k]);
    }
  }
}
