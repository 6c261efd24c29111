// The bitwise dividers on registers wider than the divisor's order, the table of
// composite masks, and the byte-fed drivers that read it. N is the order; a
// register has at least N bits and its low N bits are the remainder.
module CrcTables {
  import opened Words
  import opened Division
  import opened Reflection

  // The low bits of a word in the order they are divided.
  function InputBits(word: Word, n: nat, reflect: bool): (bits: seq<bool>)
    requires n <= |word|
    ensures |bits| == n
  {
    if reflect then word[..n] else Rev(word[..n])
  }

  // A block of bytes in the order its bits are divided.
  function MessageBits(bytes: seq<Byte>, reflect: bool): (bits: seq<bool>)
    ensures |bits| == 8 * |bytes|
  {
    if bytes == [] then []
    else MessageBits(bytes[..|bytes| - 1], reflect) + InputBits(bytes[|bytes| - 1], 8, reflect)
  }

  // Byte by byte, and within a byte from the highest bit down, or from the lowest up.
  lemma {:induction false} MessageBit(bytes: seq<Byte>, reflect: bool, i: nat, j: nat)
    requires i < |bytes| && j < 8
    ensures MessageBits(bytes, reflect)[8 * i + j] == bytes[i][if reflect then j else 7 - j]
  {
    var k := |bytes| - 1;
    if i < k {
      MessageBit(bytes[..k], reflect, i, j);
    } else {
      var last := InputBits(bytes[k], 8, reflect);
      assert last[j] == bytes[k][..8][if reflect then j else 7 - j];
    }
  }

  // ---- Bitwise dividers -----------------------------------------------------------

  lemma WideStep(N: nat, r: Word, bit: bool, poly: Word)
    requires 0 < N <= |r| == |poly|
    ensures var r1 := Xor(r, if bit then OneHot(|r|, N - 1) else Zero(|r|));
            var r2 := Xor(Shl(r1, 1), if r1[N - 1] then poly else Zero(|r|));
            r2[..N] == Step(r[..N], bit, poly[..N])
  {
    var r1 := Xor(r, if bit then OneHot(|r|, N - 1) else Zero(|r|));
    var r2 := Xor(Shl(r1, 1), if r1[N - 1] then poly else Zero(|r|));
    assert r1[N - 1] == (r[..N][N - 1] != bit);
    assert forall i :: 0 <= i < N ==> r2[i] == Step(r[..N], bit, poly[..N])[i];
  }

  lemma WidePlainStep(N: nat, r: Word, bit: bool, poly: Word)
    requires 0 < N <= |r| == |poly|
    ensures var r1 := Or(Shl(r, 1), if bit then OneHot(|r|, 0) else Zero(|r|));
            var r2 := Xor(r1, if r[N - 1] then poly else Zero(|r|));
            r2[..N] == PlainStep(r[..N], bit, poly[..N])
  {
    var r1 := Or(Shl(r, 1), if bit then OneHot(|r|, 0) else Zero(|r|));
    var r2 := Xor(r1, if r[N - 1] then poly else Zero(|r|));
    assert forall i :: 0 <= i < N ==> r2[i] == PlainStep(r[..N], bit, poly[..N])[i];
  }

  // Taking the next bit off the bottom of the word.
  lemma NextBit(word: Word, bits: seq<bool>, k: nat)
    requires k < |bits| <= |word| && word[..|bits| - k] == bits[k..]
    ensures word[0] == bits[k] && Shr(word, 1)[..|bits| - (k + 1)] == bits[k + 1..]
    ensures bits[..k + 1][..k] == bits[..k] && bits[..k + 1][k] == bits[k]
  {
    var (n, w) := (|bits| - k, Shr(word, 1));
    assert word[0] == word[..n][0] == bits[k..][0];
    forall j | 0 <= j < n - 1 ensures w[j] == bits[k + 1 + j] {
      assert w[j] == word[j + 1] == word[..n][j + 1] == bits[k..][j + 1];
    }
  }

  lemma Masked(w: Word, n: nat)
    requires n <= |w|
    ensures And(w, LowMask(|w|, n))[..n] == w[..n] && HighClear(And(w, LowMask(|w|, n)), n)
  {
  }

  lemma FirstBits(word: Word, n: nat, reflect: bool)
    requires n <= |word|
    ensures ReflectIf(word, !reflect, n)[..n] == InputBits(word, n, reflect)
  {
  }

  method CrcModuloWordUpdate(N: nat, remainder: Word, newDividendBits: Word, truncatedDivisor: Word,
                             wordLength: nat, reflect: bool) returns (r: Word)
    requires 0 < N <= |remainder| == |truncatedDivisor| && 0 < wordLength <= |newDividendBits|
    ensures |r| == |remainder| && HighClear(r, N)
    ensures r[..N] == Divide(remainder[..N], InputBits(newDividendBits, wordLength, reflect), truncatedDivisor[..N])
  {
    hide Step, PlainStep, HighClear, Rev, Reflect, ReflectIf;
    var D := |remainder|;
    var highBitMask := OneHot(D, N - 1);
    var word := ReflectOptionally(newDividendBits, !reflect, wordLength);
    ghost var bits := InputBits(newDividendBits, wordLength, reflect);
    FirstBits(newDividendBits, wordLength, reflect);
    r := remainder;
    var i := wordLength;
    assert bits[0..] == bits && bits[..wordLength] == bits && bits[..0] == [];
    while i != 0
      invariant 0 <= i <= wordLength && |r| == D && |word| == |newDividendBits|
      invariant word[..i] == bits[wordLength - i..]
      invariant r[..N] == Divide(remainder[..N], bits[..wordLength - i], truncatedDivisor[..N])
    {
      WideStep(N, r, word[0], truncatedDivisor);
      NextBit(word, bits, wordLength - i);
      r := Xor(r, if word[0] then highBitMask else Zero(D));
      var quotient := r[N - 1];
      r := Shl(r, 1);
      r := Xor(r, if quotient then truncatedDivisor else Zero(D));
      i := i - 1;
      word := Shr(word, 1);
    }
    Masked(r, N);
    r := And(r, LowMask(D, N));
  }

  method AugmentedCrcModuloWordUpdate(N: nat, remainder: Word, newDividendBits: Word, truncatedDivisor: Word,
                                      wordLength: nat, reflect: bool) returns (r: Word)
    requires 0 < N <= |remainder| == |truncatedDivisor| && 0 < wordLength <= |newDividendBits|
    ensures |r| == |remainder|
    ensures r[..N] == PlainDivide(remainder[..N], InputBits(newDividendBits, wordLength, reflect), truncatedDivisor[..N])
  {
    hide Step, PlainStep, HighClear, Rev, Reflect, ReflectIf;
    var D := |remainder|;
    var word := ReflectOptionally(newDividendBits, !reflect, wordLength);
    ghost var bits := InputBits(newDividendBits, wordLength, reflect);
    FirstBits(newDividendBits, wordLength, reflect);
    r := remainder;
    var i := wordLength;
    assert bits[0..] == bits && bits[..wordLength] == bits && bits[..0] == [];
    while i != 0
      invariant 0 <= i <= wordLength && |r| == D && |word| == |newDividendBits|
      invariant word[..i] == bits[wordLength - i..]
      invariant r[..N] == PlainDivide(remainder[..N], bits[..wordLength - i], truncatedDivisor[..N])
    {
      WidePlainStep(N, r, word[0], truncatedDivisor);
      NextBit(word, bits, wordLength - i);
      var quotient := r[N - 1];
      r := Shl(r, 1);
      r := Or(r, if word[0] then OneHot(D, 0) else Zero(D));
      r := Xor(r, if quotient then truncatedDivisor else Zero(D));
      i := i - 1;
      word := Shr(word, 1);
    }
  }

  // ---- The table -------------------------------------------------------------------

  // What dividing the index alone does to an empty register.
  function Mask(N: nat, D: nat, poly: Word, reflect: bool, index: Word): (r: Word)
    requires 0 < N <= D == |poly|
    ensures |r| == D
  {
    var q := Divide(Zero(N), InputBits(index, |index|, reflect), poly[..N]);
    Resize(if reflect then Rev(q) else q, D)
  }

  ghost predicate IsTable(table: seq<Word>, S: nat, N: nat, D: nat, poly: Word, reflect: bool)
    requires 0 < N <= D == |poly|
  {
    && |table| == Pow2(S)
    && forall d: Word | |d| == S :: table[ToNat(d)] == Mask(N, D, poly, reflect, d)
  }

  lemma {:induction false} ToNatHighClear(w: Word, n: nat)
    requires n <= |w| && HighClear(w, n)
    ensures ToNat(w) == ToNat(w[..n])
  {
    if w == [] {
    } else if n == 0 {
      ToNatHighClear(w[1..], 0);
      assert !w[0];
    } else {
      ToNatHighClear(w[1..], n - 1);
      assert w[..n][1..] == w[1..][..n - 1];
    }
  }

  lemma ToNatInjective(a: Word, b: Word)
    requires |a| == |b| && ToNat(a) == ToNat(b)
    ensures a == b
  {
    FromNatToNat(a);
    FromNatToNat(b);
  }

  lemma {:induction false} FromNatWider(n: nat, w: nat)
    requires n < Pow2(w)
    ensures FromNat(n, w + 1) == FromNat(n, w) + [false]
  {
    if w == 0 {
      assert FromNat(0, 1) == [false];
    } else {
      FromNatWider(n / 2, w - 1);
    }
  }

  lemma RevRev(a: Word)
    ensures Rev(Rev(a)) == a
  {
  }

  // The index a dividend goes to, as a word of S bits.
  function CellOf(S: nat, reflect: bool, dividend: nat): (d: Word)
    ensures |d| == S
  {
    if reflect then Rev(FromNat(dividend, S)) else FromNat(dividend, S)
  }

  lemma CellIndex(S: nat, reflect: bool, dividend: nat)
    requires dividend < Pow2(S)
    ensures ToNat(ReflectIf(FromNat(dividend, S + 1), reflect, S)) == ToNat(CellOf(S, reflect, dividend))
    ensures InputBits(CellOf(S, reflect, dividend), S, reflect) == InputBits(FromNat(dividend, S + 1), S, false)
  {
    FromNatWider(dividend, S);
    var (v, w) := (FromNat(dividend, S), FromNat(dividend, S + 1));
    assert w[..S] == v && v[..S] == v && Rev(v)[..S] == Rev(v);
    var x := ReflectIf(w, reflect, S);
    assert x[..S] == CellOf(S, reflect, dividend);
    ToNatHighClear(x, S);
  }

  // Every index is written once.
  lemma CellSurjective(S: nat, reflect: bool, d: Word) returns (dividend: nat)
    requires |d| == S
    ensures dividend < Pow2(S) && CellOf(S, reflect, dividend) == d
  {
    var v := if reflect then Rev(d) else d;
    dividend := ToNat(v);
    FromNatToNat(v);
    RevRev(d);
  }

  lemma CellInjective(S: nat, reflect: bool, a: nat, b: nat)
    requires a < Pow2(S) && b < Pow2(S) && ToNat(CellOf(S, reflect, a)) == ToNat(CellOf(S, reflect, b))
    ensures a == b
  {
    ToNatInjective(CellOf(S, reflect, a), CellOf(S, reflect, b));
    RevRev(FromNat(a, S));
    RevRev(FromNat(b, S));
    ToNatFromNat(a, S);
    ToNatFromNat(b, S);
  }

  lemma ReflectedRemainder(N: nat, remainder: Word, reflect: bool)
    requires N <= |remainder| && HighClear(remainder, N)
    ensures ReflectIf(remainder, reflect, N)
         == Resize(if reflect then Rev(remainder[..N]) else remainder[..N], |remainder|)
  {
  }

  // The cells of the first count keys hold their values.
  ghost predicate Holds(t: seq<Word>, cell: nat -> nat, value: nat -> Word, count: nat) {
    forall d: nat | d < count :: cell(d) < |t| && t[cell(d)] == value(d)
  }

  lemma HoldsNext(t: seq<Word>, cell: nat -> nat, value: nat -> Word, count: nat)
    requires Holds(t, cell, value, count) && cell(count) < |t|
    requires forall d: nat | d < count :: cell(d) != cell(count)
    ensures Holds(t[cell(count) := value(count)], cell, value, count + 1)
  {
  }

  ghost function Cell(S: nat, reflect: bool): nat -> nat {
    (d: nat) => ToNat(CellOf(S, reflect, d))
  }

  ghost function CellValue(S: nat, N: nat, poly: Word, reflect: bool): nat -> Word
    requires 0 < N <= |poly|
  {
    (d: nat) => Mask(N, |poly|, poly, reflect, CellOf(S, reflect, d))
  }

  ghost predicate Filled(t: seq<Word>, S: nat, N: nat, poly: Word, reflect: bool, count: nat)
    requires 0 < N <= |poly|
  {
    |t| == Pow2(S) && Holds(t, Cell(S, reflect), CellValue(S, N, poly, reflect), count)
  }

  lemma FillStart(t: seq<Word>, S: nat, N: nat, poly: Word, reflect: bool)
    requires 0 < N <= |poly| && |t| == Pow2(S)
    ensures Filled(t, S, N, poly, reflect, 0)
  {
  }

  lemma FillNext(t: seq<Word>, S: nat, N: nat, poly: Word, reflect: bool, count: nat)
    requires 0 < N <= |poly| && Filled(t, S, N, poly, reflect, count) && count < Pow2(S)
    ensures var c := CellOf(S, reflect, count);
            Filled(t[ToNat(c) := Mask(N, |poly|, poly, reflect, c)], S, N, poly, reflect, count + 1)
  {
    var cell := Cell(S, reflect);
    forall d: nat | d < count
      ensures cell(d) != cell(count)
    {
      if cell(d) == cell(count) {
        CellInjective(S, reflect, d, count);
      }
    }
    HoldsNext(t, cell, CellValue(S, N, poly, reflect), count);
  }

  lemma FilledIsTable(t: seq<Word>, S: nat, N: nat, poly: Word, reflect: bool)
    requires 0 < N <= |poly| && Filled(t, S, N, poly, reflect, Pow2(S))
    ensures IsTable(t, S, N, |poly|, poly, reflect)
  {
    forall d: Word | |d| == S
      ensures t[ToNat(d)] == Mask(N, |poly|, poly, reflect, d)
    {
      var n := CellSurjective(S, reflect, d);
      assert t[Cell(S, reflect)(n)] == CellValue(S, N, poly, reflect)(n);
    }
  }

  // The mask as the loop computes it.
  lemma CellMask(S: nat, N: nat, poly: Word, reflect: bool, dividend: nat, remainder: Word)
    requires 0 < N <= |poly| == |remainder| && dividend < Pow2(S) && HighClear(remainder, N)
    requires remainder[..N] == Divide(Zero(|poly|)[..N], InputBits(FromNat(dividend, S + 1), S, false), poly[..N])
    ensures ReflectIf(remainder, reflect, N) == Mask(N, |poly|, poly, reflect, CellOf(S, reflect, dividend))
  {
    assert Zero(|poly|)[..N] == Zero(N);
    CellIndex(S, reflect, dividend);
    ReflectedRemainder(N, remainder, reflect);
  }

  method MakePartialXorProductsTable(S: nat, N: nat, truncatedDivisor: Word, reflect: bool) returns (result: array<Word>)
    requires 0 < S <= N <= |truncatedDivisor|
    ensures fresh(result)
    ensures IsTable(result[..], S, N, |truncatedDivisor|, truncatedDivisor, reflect)
  {
    hide Filled, IsTable, Mask, Divide, HighClear, InputBits, Reflect, Rev;
    var D := |truncatedDivisor|;
    result := new Word[Pow2(S)](_ => Zero(D));
    FillStart(result[..], S, N, truncatedDivisor, reflect);
    var dividend := 0;
    while dividend < result.Length
      invariant 0 <= dividend <= result.Length == Pow2(S)
      invariant Filled(result[..], S, N, truncatedDivisor, reflect, dividend)
    {
      var word := FromNat(dividend, S + 1);
      var remainder := CrcModuloWordUpdate(N, Zero(D), word, truncatedDivisor, S, false);
      var index := ReflectOptionally(word, reflect, S);
      var entry := ReflectOptionally(remainder, reflect, N);
      CellIndex(S, reflect, dividend);
      CellMask(S, N, truncatedDivisor, reflect, dividend, remainder);
      FillNext(result[..], S, N, truncatedDivisor, reflect, dividend);
      ghost var before := result[..];
      result[ToNat(index)] := entry;
      assert result[..] == before[ToNat(index) := entry];
      dividend := dividend + 1;
    }
    FilledIsTable(result[..], S, N, truncatedDivisor, reflect);
  }

  // The masks are also what plain division leaves when the index is followed by as
  // many zero bits as the register is wide.
  lemma MaskFromPlainDivision(N: nat, D: nat, poly: Word, reflect: bool, index: Word)
    requires 0 < N <= D == |poly|
    ensures var q := PlainDivide(Zero(N), InputBits(index, |index|, reflect) + Zero(N), poly[..N]);
            Mask(N, D, poly, reflect, index) == Resize(if reflect then Rev(q) else q, D)
  {
    var p := poly[..N];
    AugmentedIsUnaugmented(Zero(N), InputBits(index, |index|, reflect), p);
    SameOnZeros(Zero(N), N, p);
    ShiftOut(Zero(N), N, p);
    assert Shl(Zero(N), N) == Zero(N);
  }
}
