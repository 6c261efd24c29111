// The two computers and the free functions. Both keep their remainder in a register
// of at least eight bits that is at least as wide as the order.
module CrcComputers {
  import opened Words
  import opened Division
  import opened Reflection
  import opened CrcTables
  import opened CrcDrivers

  // What a computer reports for a remainder.
  function Output(remainder: Word, finalXor: Word, reflect: bool): (sum: Word)
    requires |remainder| <= |finalXor|
  {
    Resize(Xor(if reflect then Rev(remainder) else remainder, finalXor[..|remainder|]), |finalXor|)
  }

  // Bit by bit: the remainder's, turned around or not, against the mask's, and nothing
  // above the order.
  lemma OutputBits(remainder: Word, finalXor: Word, reflect: bool, i: nat)
    requires |remainder| <= |finalXor| && i < |finalXor|
    ensures Output(remainder, finalXor, reflect)[i]
         == (i < |remainder| && finalXor[i] != remainder[if reflect then |remainder| - 1 - i else i])
  {
    var turned := if reflect then Rev(remainder) else remainder;
    assert i < |remainder| ==> turned[i] == remainder[if reflect then |remainder| - 1 - i else i];
  }

  lemma OutputMasked(N: nat, x: Word, finalXor: Word, remainder: Word, reflect: bool)
    requires N <= |x| == |finalXor| && |remainder| == N
    requires x[..N] == if reflect then Rev(remainder) else remainder
    ensures And(Xor(x, finalXor), LowMask(|x|, N)) == Output(remainder, finalXor, reflect)
  {
    var (a, b) := (And(Xor(x, finalXor), LowMask(|x|, N)), Output(remainder, finalXor, reflect));
    forall i | 0 <= i < |x| ensures a[i] == b[i] {
      if i < N {
        assert x[i] == x[..N][i];
      }
    }
  }

  lemma MaskedIsResized(N: nat, x: Word)
    requires N <= |x|
    ensures And(x, LowMask(|x|, N)) == Resize(x[..N], |x|)
  {
  }

  // Taking the next bit off the top of a byte.
  lemma NextTopBit(b: Byte, bits: seq<bool>, k: nat)
    requires k < |bits| <= 8 && TopBits(b, |bits| - k) == bits[k..]
    ensures b[7] == bits[k] && TopBits(Shl(b, 1), |bits| - (k + 1)) == bits[k + 1..]
    ensures bits[..k + 1][..k] == bits[..k] && bits[..k + 1][k] == bits[k]
  {
    var n := |bits| - k;
    var rest := TopBits(Shl(b, 1), n - 1);
    assert b[7] == TopBits(b, n)[0] == bits[k..][0];
    forall j | 0 <= j < n - 1 ensures rest[j] == bits[k + 1 + j] {
      assert Shl(b, 1)[7 - j] == b[6 - j] == TopBits(b, n)[j + 1] == bits[k..][j + 1];
    }
  }

  // ---- Bit at a time -----------------------------------------------------------------

  class CrcBasic {
    const bitCount: nat
    var rem_: Word
    var poly_: Word
    var init_: Word
    var final_: Word
    var rftIn_: bool
    var rftOut_: bool

    predicate Valid()
      reads this
    {
      0 < bitCount <= |rem_| && 8 <= |rem_| && |rem_| == |poly_| == |init_| == |final_|
    }

    function Remainder(): (r: Word)
      reads this
      requires Valid()
    {
      rem_[..bitCount]
    }

    constructor (bits: nat, truncatedPolynomial: Word, initialRemainder: Word, finalXorValue: Word,
                 reflectInput: bool, reflectRemainder: bool)
      requires 0 < bits <= |truncatedPolynomial| && 8 <= |truncatedPolynomial|
      requires |truncatedPolynomial| == |initialRemainder| == |finalXorValue|
      ensures Valid() && bitCount == bits && rem_ == init_ == initialRemainder
      ensures poly_ == truncatedPolynomial && final_ == finalXorValue
      ensures rftIn_ == reflectInput && rftOut_ == reflectRemainder
    {
      bitCount := bits;
      rem_, poly_, init_, final_ := initialRemainder, truncatedPolynomial, initialRemainder, finalXorValue;
      rftIn_, rftOut_ := reflectInput, reflectRemainder;
    }

    method GetInterimRemainder() returns (r: Word)
      requires Valid()
      ensures r == Resize(Remainder(), |rem_|)
    {
      MaskedIsResized(bitCount, rem_);
      r := And(rem_, LowMask(|rem_|, bitCount));
    }

    method Reset(newRem: Word)
      requires Valid() && |newRem| == |rem_|
      modifies this`rem_
      ensures Valid() && |rem_| == old(|rem_|) && Remainder() == newRem[..bitCount]
    {
      rem_ := newRem;
    }

    method ProcessBit(bit: bool)
      requires Valid()
      modifies this`rem_
      ensures Valid() && |rem_| == old(|rem_|)
      ensures Remainder() == Step(old(Remainder()), bit, poly_[..bitCount])
    {
      rem_ := CrcModuloWordUpdate(bitCount, rem_, [bit], poly_, 1, false);
      assert InputBits([bit], 1, false) == [bit];
      assert [bit][..0] == [];
    }

    // Any reflection asked for at construction is ignored here.
    method ProcessBits(bits: Byte, bitLength: nat)
      requires Valid() && 0 < bitLength <= CHAR_BIT
      modifies this`rem_
      ensures Valid() && |rem_| == old(|rem_|)
      ensures Remainder() == Divide(old(Remainder()), InputBits(bits, bitLength, false), poly_[..bitCount])
    {
      var b: Byte := Shl(bits, CHAR_BIT - bitLength);
      ghost var input := InputBits(bits, bitLength, false);
      assert TopBits(b, bitLength) == input;
      assert input[0..] == input && input[..0] == [] && input[..bitLength] == input;
      var i := bitLength;
      while i > 0
        invariant 0 <= i <= bitLength && Valid() && |rem_| == old(|rem_|)
        invariant TopBits(b, i) == input[bitLength - i..]
        invariant Remainder() == Divide(old(Remainder()), input[..bitLength - i], poly_[..bitCount])
      {
        NextTopBit(b, input, bitLength - i);
        ProcessBit(b[7]);
        b := Shl(b, 1);
        i := i - 1;
      }
    }

    method ProcessByte(byte: Byte)
      requires Valid()
      modifies this`rem_
      ensures Valid() && |rem_| == old(|rem_|)
      ensures Remainder() == Divide(old(Remainder()), InputBits(byte, 8, rftIn_), poly_[..bitCount])
    {
      var b := byte;
      if rftIn_ {
        b := ReflectByte(byte);
      }
      WholeByteBits(byte, rftIn_);
      WholeByteBits(b, false);
      RevRev(byte);
      ProcessBits(b, CHAR_BIT);
    }

    method ProcessBytes(buffer: seq<Byte>)
      requires Valid()
      modifies this`rem_
      ensures Valid() && |rem_| == old(|rem_|)
      ensures Remainder() == Divide(old(Remainder()), MessageBits(buffer, rftIn_), poly_[..bitCount])
    {
      for i := 0 to |buffer|
        invariant Valid() && |rem_| == old(|rem_|)
        invariant Remainder() == Divide(old(Remainder()), MessageBits(buffer[..i], rftIn_), poly_[..bitCount])
      {
        NextByte(old(Remainder()), buffer, i, rftIn_, poly_[..bitCount]);
        ProcessByte(buffer[i]);
      }
      assert buffer[..|buffer|] == buffer;
    }

    method Checksum() returns (sum: Word)
      requires Valid()
      ensures sum == Output(Remainder(), final_, rftOut_)
    {
      var x := rem_;
      if rftOut_ {
        x := ReflectUnsigned(rem_, bitCount);
      }
      OutputMasked(bitCount, x, final_, Remainder(), rftOut_);
      sum := And(Xor(x, final_), LowMask(|x|, bitCount));
    }
  }

  // ---- Table driven --------------------------------------------------------------------

  // Up to a byte the reflection drops what lies above the order; beyond, it keeps it.
  method ReflectQ(N: nat, doIt: bool, x: Word) returns (r: Word)
    requires 0 < N <= |x| && 8 <= |x|
    ensures |r| == |x| && r[..N] == if doIt then Rev(x[..N]) else x[..N]
    ensures doIt ==> HighClear(r, N) == (N <= 8 || HighClear(x, N))
  {
    if !doIt {
      r := x;
    } else if N > CHAR_BIT {
      r := ReflectUnsigned(x, N);
      forall i | N <= i < |x| ensures r[i] == x[i] {
        ReflectAt(x, N, i);
      }
    } else {
      var y := ReflectSubByte(Resize(x, 8), N);
      r := Resize(y, |x|);
      assert Resize(x, 8)[..N] == x[..N];
    }
  }

  class CrcOptimal {
    const bitCount: nat
    const truncatedPolynominal: Word
    const initialRemainder: Word
    const finalXorValue: Word
    const reflectInput: bool
    const reflectRemainder: bool
    var rem_: Word

    predicate Valid()
      reads this
    {
      && 0 < bitCount <= |rem_| && 8 <= |rem_|
      && |rem_| == |truncatedPolynominal| == |initialRemainder| == |finalXorValue|
    }

    // Nothing above the order, where that matters.
    predicate InOrder()
      reads this
    {
      Clean(bitCount, rem_, reflectInput)
    }

    function Remainder(): (r: Word)
      reads this
      requires Valid()
    {
      CrcDrivers.Remainder(bitCount, rem_, reflectInput)
    }

    constructor (bits: nat, truncPoly: Word, initRem: Word, finalXor: Word, reflectIn: bool, reflectRem: bool, start: Word)
      requires 0 < bits <= |truncPoly| && 8 <= |truncPoly|
      requires |truncPoly| == |initRem| == |finalXor| == |start|
      ensures Valid() && bitCount == bits && truncatedPolynominal == truncPoly && initialRemainder == initRem
      ensures finalXorValue == finalXor && reflectInput == reflectIn && reflectRemainder == reflectRem
      ensures |rem_| == |truncPoly| && Remainder() == start[..bits]
      ensures InOrder() <==> Fits(bits, start, reflectIn)
    {
      bitCount := bits;
      truncatedPolynominal, initialRemainder, finalXorValue := truncPoly, initRem, finalXor;
      reflectInput, reflectRemainder := reflectIn, reflectRem;
      var r := ReflectQ(bits, reflectIn, start);
      RevRev(start[..bits]);
      rem_ := r;
    }

    method GetInterimRemainder() returns (r: Word)
      requires Valid()
      ensures r == Resize(Remainder(), |rem_|)
    {
      var x := ReflectQ(bitCount, reflectInput, rem_);
      MaskedIsResized(bitCount, x);
      r := And(x, LowMask(|rem_|, bitCount));
    }

    method Reset(newRem: Word)
      requires Valid() && |newRem| == |rem_|
      modifies this`rem_
      ensures Valid() && |rem_| == old(|rem_|) && Remainder() == newRem[..bitCount]
      ensures InOrder() <==> Fits(bitCount, newRem, reflectInput)
    {
      RevRev(newRem[..bitCount]);
      rem_ := ReflectQ(bitCount, reflectInput, newRem);
    }

    method ProcessBytes(buffer: seq<Byte>)
      requires Valid()
      modifies this`rem_
      ensures Valid() && |rem_| == old(|rem_|)
      ensures old(InOrder()) ==> InOrder()
      ensures old(InOrder()) ==>
        Remainder() == Divide(old(Remainder()), MessageBits(buffer, reflectInput), truncatedPolynominal[..bitCount])
    {
      rem_ := CrcUpdate(bitCount, truncatedPolynominal, reflectInput, rem_, buffer);
    }

    method ProcessByte(byte: Byte)
      requires Valid()
      modifies this`rem_
      ensures Valid() && |rem_| == old(|rem_|)
      ensures old(InOrder()) ==> InOrder()
      ensures old(InOrder()) ==>
        Remainder() == Divide(old(Remainder()), InputBits(byte, 8, reflectInput), truncatedPolynominal[..bitCount])
    {
      ProcessBytes([byte]);
      assert [byte][..0] == [];
      assert MessageBits([byte], reflectInput) == InputBits(byte, 8, reflectInput);
    }

    // The register is backwards already when the input is reflected, so it is turned
    // only when the two reflections differ.
    method Checksum() returns (sum: Word)
      requires Valid()
      ensures sum == Output(Remainder(), finalXorValue, reflectRemainder)
    {
      var x := ReflectQ(bitCount, reflectRemainder != reflectInput, rem_);
      RevRev(rem_[..bitCount]);
      OutputMasked(bitCount, x, finalXorValue, Remainder(), reflectRemainder);
      sum := And(Xor(x, finalXorValue), LowMask(|x|, bitCount));
    }
  }

  // The values a table-driven computer may be started from. ReflectedRunExact shows
  // that no other value will do.
  predicate Fits(bits: nat, start: Word, reflectIn: bool) {
    !reflectIn || bits <= 8 || HighClear(start, bits)
  }

  // ---- Agreement ---------------------------------------------------------------------------

  // Over every order, divisor, start, final mask, reflection setting and message the two
  // computers report the same.
  method Compare(bits: nat, poly: Word, init: Word, finalXor: Word, refIn: bool, refRem: bool, data: seq<Byte>)
    returns (basicInterim: Word, optimalInterim: Word, basicSum: Word, optimalSum: Word)
    requires 0 < bits <= |poly| == |init| == |finalXor| && 8 <= |poly| && Fits(bits, init, refIn)
    ensures basicInterim == optimalInterim
         == Resize(Divide(init[..bits], MessageBits(data, refIn), poly[..bits]), |poly|)
    ensures basicSum == optimalSum
         == Output(Divide(init[..bits], MessageBits(data, refIn), poly[..bits]), finalXor, refRem)
  {
    var basic := new CrcBasic(bits, poly, init, finalXor, refIn, refRem);
    var optimal := new CrcOptimal(bits, poly, init, finalXor, refIn, refRem, init);
    basic.ProcessBytes(data);
    optimal.ProcessBytes(data);
    basicInterim := basic.GetInterimRemainder();
    optimalInterim := optimal.GetInterimRemainder();
    basicSum := basic.Checksum();
    optimalSum := optimal.Checksum();
  }

  // Part of the input through one computer, its interim remainder into another, the
  // rest through that: the checksum of the whole, whichever kind each of them is.
  method ResumeElsewhere(bits: nat, poly: Word, init: Word, finalXor: Word, refIn: bool, refRem: bool,
                         first: seq<Byte>, rest: seq<Byte>, optimalFirst: bool, optimalThen: bool)
    returns (sum: Word)
    requires 0 < bits <= |poly| == |init| == |finalXor| && 8 <= |poly| && Fits(bits, init, refIn)
    ensures sum == Output(Divide(init[..bits], MessageBits(first + rest, refIn), poly[..bits]), finalXor, refRem)
  {
    var saved: Word;
    if optimalFirst {
      var a := new CrcOptimal(bits, poly, init, finalXor, refIn, refRem, init);
      a.ProcessBytes(first);
      saved := a.GetInterimRemainder();
    } else {
      var a := new CrcBasic(bits, poly, init, finalXor, refIn, refRem);
      a.ProcessBytes(first);
      saved := a.GetInterimRemainder();
    }
    ghost var part := Divide(init[..bits], MessageBits(first, refIn), poly[..bits]);
    LowResize(part, |poly|);
    MessageBitsAppend(first, rest, refIn);
    DivideAppend(init[..bits], MessageBits(first, refIn), MessageBits(rest, refIn), poly[..bits]);
    if optimalThen {
      var b := new CrcOptimal(bits, poly, init, finalXor, refIn, refRem, init);
      b.Reset(saved);
      b.ProcessBytes(rest);
      sum := b.Checksum();
    } else {
      var b := new CrcBasic(bits, poly, init, finalXor, refIn, refRem);
      b.Reset(saved);
      b.ProcessBytes(rest);
      sum := b.Checksum();
    }
  }

  // ---- Free functions ------------------------------------------------------------------------

  method Crc(bits: nat, poly: Word, init: Word, finalXor: Word, refIn: bool, refRem: bool, buffer: seq<Byte>)
    returns (sum: Word)
    requires 0 < bits <= |poly| == |init| == |finalXor| && 8 <= |poly| && Fits(bits, init, refIn)
    ensures sum == Output(Divide(init[..bits], MessageBits(buffer, refIn), poly[..bits]), finalXor, refRem)
  {
    var computer := new CrcOptimal(bits, poly, init, finalXor, refIn, refRem, init);
    computer.ProcessBytes(buffer);
    sum := computer.Checksum();
  }

  method AugmentedCrc(bits: nat, poly: Word, buffer: seq<Byte>, initialRemainder: Word) returns (r: Word)
    requires 8 <= bits <= |poly| == |initialRemainder|
    ensures r == Resize(PlainDivide(initialRemainder[..bits], MessageBits(buffer, false), poly[..bits]), |poly|)
  {
    var x := DirectAugmentedCrcUpdate(bits, poly, initialRemainder, buffer);
    MaskedIsResized(bits, x);
    r := And(LowMask(|poly|, bits), x);
    assert r == And(x, LowMask(|poly|, bits));
  }

  // The low bits of a register as bytes, highest first.
  function BigEndian(register: Word, n: nat): (bytes: seq<Byte>)
    requires 8 * n <= |register|
    ensures |bytes| == n
  {
    seq(n, i requires 0 <= i < n => register[8 * (n - 1 - i)..8 * (n - i)])
  }

  lemma {:induction false} BigEndianBits(register: Word, n: nat)
    requires 8 * n <= |register|
    ensures MessageBits(BigEndian(register, n), false) == Rev(register[..8 * n])
  {
    var bytes := BigEndian(register, n);
    if n == 0 {
    } else {
      var upper := register[8..];
      BigEndianBits(upper, n - 1);
      forall i | 0 <= i < n - 1 ensures bytes[i] == BigEndian(upper, n - 1)[i] {
        var (lo, hi) := (8 * (n - 2 - i), 8 * (n - 1 - i));
        assert upper[lo..hi] == register[lo + 8..hi + 8];
      }
      assert bytes[..n - 1] == BigEndian(upper, n - 1);
      WholeByteBits(bytes[n - 1], false);
      assert bytes[n - 1] == register[..8];
      RevParts(register, 8, 8 * n);
    }
  }

  lemma RevParts(w: Word, k: nat, n: nat)
    requires k <= n <= |w|
    ensures Rev(w[..n]) == Rev(w[k..][..n - k]) + Rev(w[..k])
  {
    assert w[k..][..n - k] == w[k..n];
    assert forall i :: 0 <= i < n ==> Rev(w[..n])[i] == (Rev(w[k..n]) + Rev(w[..k]))[i];
  }

  lemma ZeroBytes(n: nat)
    ensures BigEndian(Zero(8 * n), n) == seq(n, _ => Zero(8))
    ensures MessageBits(seq(n, _ => Zero(8)), false) == Zero(8 * n)
  {
    BigEndianBits(Zero(8 * n), n);
    assert Rev(Zero(8 * n)[..8 * n]) == Zero(8 * n);
    forall i | 0 <= i < n ensures BigEndian(Zero(8 * n), n)[i] == Zero(8) {
    }
  }

  // The zero-byte extension yields the checksum, and the check string that makes the
  // extended block come out as zero is that checksum in big-endian order and no other.
  method CheckBlock(n: nat, poly: Word, block: seq<Byte>, initialRemainder: Word, given: Word)
    returns (checksum: Word, residue: Word)
    requires 0 < 8 * n <= |poly| == |initialRemainder| == |given|
    ensures checksum == Resize(Divide(PlainDivide(initialRemainder[..8 * n], Zero(8 * n), poly[..8 * n]),
                                      MessageBits(block, false), poly[..8 * n]), |poly|)
    ensures residue == Zero(|poly|) <==> given[..8 * n] == checksum[..8 * n]
  {
    var bits := 8 * n;
    ghost var (r, p, m) := (initialRemainder[..bits], poly[..bits], MessageBits(block, false));
    var zeros: seq<Byte> := seq(n, _ => Zero(8));
    checksum := AugmentedCrc(bits, poly, block + zeros, initialRemainder);
    MessageBitsAppend(block, zeros, false);
    ZeroBytes(n);
    AugmentedIsUnaugmented(r, m, p);
    ghost var c := PlainDivide(r, m + Zero(bits), p);
    LowResize(c, |poly|);

    residue := AugmentedCrc(bits, poly, block + BigEndian(given, n), initialRemainder);
    MessageBitsAppend(block, BigEndian(given, n), false);
    BigEndianBits(given, n);
    CheckStringLeavesZero(r, m, Rev(given[..bits]), p);
    RevRev(given[..bits]);
    ZeroResize(PlainDivide(r, m + Rev(given[..bits]), p), |poly|);
  }

  lemma ZeroResize(a: Word, n: nat)
    requires |a| <= n
    ensures Resize(a, n) == Zero(n) <==> a == Zero(|a|)
  {
    LowResize(a, n);
    assert Zero(n)[..|a|] == Zero(|a|);
  }

  // From an empty register and with no output processing, the augmented and the
  // unaugmented function agree.
  method AugmentedMatchesCrc(n: nat, poly: Word, block: seq<Byte>) returns (a: Word, u: Word)
    requires 0 < 8 * n <= |poly|
    ensures a == u == Resize(Divide(Zero(8 * n), MessageBits(block, false), poly[..8 * n]), |poly|)
  {
    var D := |poly|;
    var zeros: seq<Byte> := seq(n, _ => Zero(8));
    a := AugmentedCrc(8 * n, poly, block + zeros, Zero(D));
    u := Crc(8 * n, poly, Zero(D), Zero(D), false, false, block);
    ghost var (p, m) := (poly[..8 * n], MessageBits(block, false));
    MessageBitsAppend(block, zeros, false);
    ZeroBytes(n);
    assert Zero(D)[..8 * n] == Zero(8 * n);
    AugmentedIsUnaugmented(Zero(8 * n), m, p);
    PlainFill(8 * n, Zero(8 * n), p);
    assert Resize(Rev(Zero(8 * n)), 8 * n) == Zero(8 * n);
    XorZero(Divide(Zero(8 * n), m, p));
  }
}
