// Modulo-2 polynomial division, one message bit at a time, on registers of exactly
// the divisor's order. Index i of a register is the coefficient of x^i; the divisor
// is given without its leading coefficient.
module Division {
  import opened Words

  // One step of the altered division that needs no zero bits after the message.
  function Step(r: Word, bit: bool, p: Word): (s: Word)
    requires |r| == |p| > 0
    ensures |s| == |r|
  {
    if r[|r| - 1] != bit then Xor(Shl(r, 1), p) else Shl(r, 1)
  }

  // The remainder after feeding bits, first element first.
  function Divide(r: Word, bits: seq<bool>, p: Word): (s: Word)
    requires |r| == |p| > 0
    ensures |s| == |r|
  {
    if bits == [] then r
    else Step(Divide(r, bits[..|bits| - 1], p), bits[|bits| - 1], p)
  }

  // One step of plain long division: the bit enters at the bottom of the register.
  function PlainStep(r: Word, bit: bool, p: Word): (s: Word)
    requires |r| == |p| > 0
    ensures |s| == |r|
  {
    var t := Shl(r, 1)[0 := bit];
    if r[|r| - 1] then Xor(t, p) else t
  }

  function PlainDivide(r: Word, bits: seq<bool>, p: Word): (s: Word)
    requires |r| == |p| > 0
    ensures |s| == |r|
  {
    if bits == [] then r
    else PlainStep(PlainDivide(r, bits[..|bits| - 1], p), bits[|bits| - 1], p)
  }

  // ---- Both divisions are folds over the message -------------------------------

  lemma {:induction false} DivideAppend(r: Word, xs: seq<bool>, ys: seq<bool>, p: Word)
    requires |r| == |p| > 0
    ensures Divide(r, xs + ys, p) == Divide(Divide(r, xs, p), ys, p)
  {
    if ys == [] {
      assert xs + ys == xs;
    } else {
      var n := |ys| - 1;
      assert (xs + ys)[..|xs + ys| - 1] == xs + ys[..n];
      DivideAppend(r, xs, ys[..n], p);
    }
  }

  lemma {:induction false} PlainDivideAppend(r: Word, xs: seq<bool>, ys: seq<bool>, p: Word)
    requires |r| == |p| > 0
    ensures PlainDivide(r, xs + ys, p) == PlainDivide(PlainDivide(r, xs, p), ys, p)
  {
    if ys == [] {
      assert xs + ys == xs;
    } else {
      var n := |ys| - 1;
      assert (xs + ys)[..|xs + ys| - 1] == xs + ys[..n];
      PlainDivideAppend(r, xs, ys[..n], p);
    }
  }

  // ---- Linearity over GF(2) ----------------------------------------------------

  lemma StepLinear(a: Word, b: Word, x: bool, y: bool, p: Word)
    requires |a| == |b| == |p| > 0
    ensures Step(Xor(a, b), x != y, p) == Xor(Step(a, x, p), Step(b, y, p))
  {
    assert Shl(Xor(a, b), 1) == Xor(Shl(a, 1), Shl(b, 1));
    var n := |a| - 1;
    assert (Xor(a, b)[n] != (x != y)) == ((a[n] != x) != (b[n] != y));
    assert Step(Xor(a, b), x != y, p) == Xor(Step(a, x, p), Step(b, y, p));
  }

  lemma {:induction false} DivideLinear(a: Word, b: Word, xs: seq<bool>, ys: seq<bool>, p: Word)
    requires |a| == |b| == |p| > 0 && |xs| == |ys|
    ensures Divide(Xor(a, b), Xor(xs, ys), p) == Xor(Divide(a, xs, p), Divide(b, ys, p))
  {
    if xs == [] {
    } else {
      var n := |xs| - 1;
      assert Xor(xs, ys)[..n] == Xor(xs[..n], ys[..n]);
      DivideLinear(a, b, xs[..n], ys[..n], p);
      StepLinear(Divide(a, xs[..n], p), Divide(b, ys[..n], p), xs[n], ys[n], p);
    }
  }

  lemma PlainStepLinear(a: Word, b: Word, x: bool, y: bool, p: Word)
    requires |a| == |b| == |p| > 0
    ensures PlainStep(Xor(a, b), x != y, p) == Xor(PlainStep(a, x, p), PlainStep(b, y, p))
  {
    assert Shl(Xor(a, b), 1)[0 := x != y] == Xor(Shl(a, 1)[0 := x], Shl(b, 1)[0 := y]);
    assert PlainStep(Xor(a, b), x != y, p) == Xor(PlainStep(a, x, p), PlainStep(b, y, p));
  }

  lemma {:induction false} PlainDivideLinear(a: Word, b: Word, xs: seq<bool>, ys: seq<bool>, p: Word)
    requires |a| == |b| == |p| > 0 && |xs| == |ys|
    ensures PlainDivide(Xor(a, b), Xor(xs, ys), p) == Xor(PlainDivide(a, xs, p), PlainDivide(b, ys, p))
  {
    if xs == [] {
    } else {
      var n := |xs| - 1;
      assert Xor(xs, ys)[..n] == Xor(xs[..n], ys[..n]);
      PlainDivideLinear(a, b, xs[..n], ys[..n], p);
      PlainStepLinear(PlainDivide(a, xs[..n], p), PlainDivide(b, ys[..n], p), xs[n], ys[n], p);
    }
  }

  // The state and the message contribute independently.
  lemma DivideSplit(r: Word, bits: seq<bool>, p: Word)
    requires |r| == |p| > 0
    ensures Divide(r, bits, p) == Xor(Divide(r, Zero(|bits|), p), Divide(Zero(|r|), bits, p))
  {
    XorZero(r);
    XorZero(bits);
    DivideLinear(r, Zero(|r|), Zero(|bits|), bits, p);
  }

  lemma PlainDivideSplit(r: Word, bits: seq<bool>, p: Word)
    requires |r| == |p| > 0
    ensures PlainDivide(r, bits, p) == Xor(PlainDivide(r, Zero(|bits|), p), PlainDivide(Zero(|r|), bits, p))
  {
    XorZero(r);
    XorZero(bits);
    PlainDivideLinear(r, Zero(|r|), Zero(|bits|), bits, p);
  }

  // ---- Superposition: several steps at once ------------------------------------

  // bits laid into the top of an n-bit register, first bit highest.
  function TopAligned(n: nat, bits: seq<bool>): (r: Word)
    requires |bits| <= n
    ensures |r| == n && forall i :: 0 <= i < n ==> r[i] == (n - 1 - i < |bits| && bits[n - 1 - i])
  {
    seq(n, i requires 0 <= i < n => n - 1 - i < |bits| && bits[n - 1 - i])
  }

  // The top k bits of r, highest first.
  function TopBits(r: Word, k: nat): (bits: seq<bool>)
    requires k <= |r|
    ensures |bits| == k && forall j :: 0 <= j < k ==> bits[j] == r[|r| - 1 - j]
  {
    seq(k, j requires 0 <= j < k => r[|r| - 1 - j])
  }

  // While only zeros reach the top, dividing is shifting.
  lemma {:induction false} ShiftOut(r: Word, k: nat, p: Word)
    requires |r| == |p| > 0 && k <= |r|
    requires forall i :: |r| - k <= i < |r| ==> !r[i]
    ensures Divide(r, Zero(k), p) == Shl(r, k)
  {
    if k == 0 {
      ShlZero(r);
    } else {
      assert Zero(k)[..k - 1] == Zero(k - 1);
      ShiftOut(r, k - 1, p);
      ShlShl(r, k - 1, 1);
      assert !Shl(r, k - 1)[|r| - 1];
    }
  }

  // Flipping the top bit of the register is flipping the message bit.
  lemma StepFlip(r: Word, b: bool, p: Word)
    requires |r| == |p| > 0
    ensures Step(Xor(r, TopUnit(|r|, 0, b)), false, p) == Step(r, b, p)
  {
    var s := Xor(r, TopUnit(|r|, 0, b));
    assert Shl(s, 1) == Shl(r, 1);
  }

  // The word whose only possibly set bit is the one k places below the top.
  function TopUnit(n: nat, k: nat, b: bool): (r: Word)
    requires k < n
    ensures |r| == n
  {
    if b then OneHot(n, n - 1 - k) else Zero(n)
  }

  lemma TopUnitShift(n: nat, k: nat, b: bool, p: Word)
    requires k < n == |p|
    ensures Divide(TopUnit(n, k, b), Zero(k), p) == TopUnit(n, 0, b)
  {
    ShiftOut(TopUnit(n, k, b), k, p);
    var (u, v) := (Shl(TopUnit(n, k, b), k), TopUnit(n, 0, b));
    assert forall i :: 0 <= i < n ==> u[i] == v[i];
  }

  lemma TopAlignedSnoc(n: nat, bits: seq<bool>)
    requires 0 < |bits| <= n
    ensures TopAligned(n, bits)
         == Xor(TopAligned(n, bits[..|bits| - 1]), TopUnit(n, |bits| - 1, bits[|bits| - 1]))
  {
    var k := |bits| - 1;
    var (u, v) := (TopAligned(n, bits), Xor(TopAligned(n, bits[..k]), TopUnit(n, k, bits[k])));
    assert forall i :: 0 <= i < n ==> u[i] == v[i];
  }

  // Feeding bits into an empty register is dividing a register that holds them on top.
  lemma {:induction false} FeedIsPreload(n: nat, bits: seq<bool>, p: Word)
    requires |p| == n > 0 && |bits| <= n
    ensures Divide(Zero(n), bits, p) == Divide(TopAligned(n, bits), Zero(|bits|), p)
  {
    if bits == [] {
      assert TopAligned(n, bits) == Zero(n);
    } else {
      var k := |bits| - 1;
      var (init, b) := (bits[..k], bits[k]);
      FeedIsPreload(n, init, p);
      TopAlignedSnoc(n, bits);
      XorZero(Zero(k));
      DivideLinear(TopAligned(n, init), TopUnit(n, k, b), Zero(k), Zero(k), p);
      TopUnitShift(n, k, b, p);
      assert Zero(k + 1)[..k] == Zero(k);
      StepFlip(Divide(Zero(n), init, p), b, p);
    }
  }

  // r with its top k bits cleared.
  function BelowTop(r: Word, k: nat): (s: Word)
    requires k <= |r|
    ensures |s| == |r|
  {
    And(r, LowMask(|r|, |r| - k))
  }

  lemma TopAndRest(r: Word, k: nat)
    requires k <= |r|
    ensures r == Xor(BelowTop(r, k), TopAligned(|r|, TopBits(r, k)))
    ensures Shl(BelowTop(r, k), k) == Shl(r, k)
  {
    var s := Xor(BelowTop(r, k), TopAligned(|r|, TopBits(r, k)));
    assert forall i :: 0 <= i < |r| ==> r[i] == s[i];
    assert forall i :: 0 <= i < |r| ==> Shl(BelowTop(r, k), k)[i] == Shl(r, k)[i];
  }

  // Zeros through a register: the top bits go through the lookup, the rest shift.
  lemma ZerosThrough(r: Word, k: nat, p: Word)
    requires |r| == |p| > 0 && k <= |r|
    ensures Divide(r, Zero(k), p) == Xor(Shl(r, k), Divide(Zero(|r|), TopBits(r, k), p))
  {
    TopAndRest(r, k);
    XorZero(Zero(k));
    DivideLinear(BelowTop(r, k), TopAligned(|r|, TopBits(r, k)), Zero(k), Zero(k), p);
    ShiftOut(BelowTop(r, k), k, p);
    FeedIsPreload(|r|, TopBits(r, k), p);
  }

  // The fast form: k steps are one shift and one lookup keyed by the top k bits of
  // the register combined with the message bits.
  lemma Superposition(r: Word, bits: seq<bool>, p: Word)
    requires |r| == |p| > 0 && |bits| <= |r|
    ensures Divide(r, bits, p)
         == Xor(Shl(r, |bits|), Divide(Zero(|r|), Xor(TopBits(r, |bits|), bits), p))
  {
    var (n, k) := (|r|, |bits|);
    var top := TopBits(r, k);
    DivideSplit(r, bits, p);
    ZerosThrough(r, k, p);
    XorZero(Zero(n));
    DivideLinear(Zero(n), Zero(n), top, bits, p);
    XorAssoc(Shl(r, k), Divide(Zero(n), top, p), Divide(Zero(n), bits, p));
  }

  // ---- Plain and altered division ----------------------------------------------

  // On zero bits the two divisions take the same steps.
  lemma {:induction false} SameOnZeros(r: Word, k: nat, p: Word)
    requires |r| == |p| > 0
    ensures PlainDivide(r, Zero(k), p) == Divide(r, Zero(k), p)
  {
    if k == 0 {
    } else {
      assert Zero(k)[..k - 1] == Zero(k - 1);
      SameOnZeros(r, k - 1, p);
      var s := Divide(r, Zero(k - 1), p);
      assert Shl(s, 1)[0 := false] == Shl(s, 1);
    }
  }

  // x^n reduces to the truncated divisor.
  lemma UnitThroughRegister(n: nat, p: Word)
    requires |p| == n > 0
    ensures Divide(OneHot(n, 0), Zero(n), p) == p
  {
    ShiftOut(OneHot(n, 0), n - 1, p);
    assert Zero(n)[..n - 1] == Zero(n - 1);
    assert Shl(OneHot(n, 0), n - 1) == OneHot(n, n - 1);
    assert Xor(Shl(OneHot(n, n - 1), 1), p) == p;
  }

  // Augmenting the message with as many zero bits as the register is wide turns plain
  // division into the altered one, from the register that the zeros alone would leave.
  lemma {:induction false} AugmentedIsUnaugmented(r: Word, bits: seq<bool>, p: Word)
    requires |r| == |p| > 0
    ensures PlainDivide(r, bits + Zero(|r|), p) == Divide(PlainDivide(r, Zero(|r|), p), bits, p)
  {
    var n := |r|;
    if bits == [] {
      assert bits + Zero(n) == Zero(n);
    } else {
      var k := |bits| - 1;
      var (init, b) := (bits[..k], bits[k]);
      var s := PlainDivide(r, init, p);
      AugmentedIsUnaugmented(r, init, p);
      PlainDivideAppend(r, init, Zero(n), p);
      PlainDivideAppend(r, bits, Zero(n), p);
      BitBeforeZeros(s, b, p);
    }
  }

  lemma ZeroStepFirst(s: Word, n: nat, p: Word)
    requires |s| == |p| > 0
    ensures Divide(Step(s, false, p), Zero(n), p) == Step(Divide(s, Zero(n), p), false, p)
  {
    assert Zero(1) + Zero(n) == Zero(n) + Zero(1);
    assert Divide(s, Zero(1), p) == Step(s, false, p) by {
      assert Zero(1)[..0] == [];
      assert Divide(s, [], p) == s;
    }
    DivideAppend(s, Zero(1), Zero(n), p);
    assert (Zero(n) + Zero(1))[..n] == Zero(n);
  }

  // The bottom bit of a plain step, and what it becomes after n zeros.
  lemma PlainStepBit(s: Word, b: bool, p: Word)
    requires |s| == |p| > 0
    ensures PlainStep(s, b, p) == Xor(Step(s, false, p), if b then OneHot(|s|, 0) else Zero(|s|))
  {
    var unit := if b then OneHot(|s|, 0) else Zero(|s|);
    assert forall i :: 0 <= i < |s| ==> PlainStep(s, b, p)[i] == Xor(Step(s, false, p), unit)[i];
  }

  lemma StepBit(s: Word, b: bool, p: Word)
    requires |s| == |p| > 0
    ensures Step(s, b, p) == Xor(Step(s, false, p), if b then p else Zero(|s|))
  {
    var d := if b then p else Zero(|s|);
    assert forall i :: 0 <= i < |s| ==> Step(s, b, p)[i] == Xor(Step(s, false, p), d)[i];
  }

  lemma BitBeforeZeros(s: Word, b: bool, p: Word)
    requires |s| == |p| > 0
    ensures PlainDivide(PlainStep(s, b, p), Zero(|s|), p) == Step(PlainDivide(s, Zero(|s|), p), b, p)
  {
    var n := |s|;
    var unit := if b then OneHot(n, 0) else Zero(n);
    SameOnZeros(PlainStep(s, b, p), n, p);
    SameOnZeros(s, n, p);
    PlainStepBit(s, b, p);
    XorZero(Zero(n));
    DivideLinear(Step(s, false, p), unit, Zero(n), Zero(n), p);
    ZeroStepFirst(s, n, p);
    StepBit(Divide(s, Zero(n), p), b, p);
    if b {
      UnitThroughRegister(n, p);
    } else {
      ShiftOut(Zero(n), n, p);
      assert Shl(Zero(n), n) == Zero(n);
    }
  }

  // Bits that fit the register enter it unchanged.
  lemma {:induction false} PlainFill(n: nat, bits: seq<bool>, p: Word)
    requires |p| == n > 0 && |bits| <= n
    ensures PlainDivide(Zero(n), bits, p) == Resize(Rev(bits), n)
  {
    if bits == [] {
      assert Resize(Rev(bits), n) == Zero(n);
    } else {
      var k := |bits| - 1;
      PlainFill(n, bits[..k], p);
      assert Shl(Resize(Rev(bits[..k]), n), 1)[0 := bits[k]] == Resize(Rev(bits), n);
    }
  }

  // The checksum left by the zero augmentation is the one string that, put in place
  // of the zeros, leaves remainder zero.
  lemma CheckStringLeavesZero(r: Word, bits: seq<bool>, c: seq<bool>, p: Word)
    requires |r| == |p| == |c| > 0
    ensures PlainDivide(r, bits + c, p) == Xor(PlainDivide(r, bits + Zero(|r|), p), Rev(c))
    ensures PlainDivide(r, bits + c, p) == Zero(|r|) <==> Rev(c) == PlainDivide(r, bits + Zero(|r|), p)
  {
    var n := |r|;
    var s := PlainDivide(r, bits, p);
    PlainDivideAppend(r, bits, c, p);
    PlainDivideAppend(r, bits, Zero(n), p);
    PlainDivideSplit(s, c, p);
    PlainFill(n, c, p);
    ResizeSame(Rev(c));
    XorCancels(PlainDivide(r, bits + Zero(n), p), Rev(c));
  }

  // One lookup serves plain division too: the table keyed by the top bits alone.
  lemma PlainSuperposition(r: Word, bits: seq<bool>, p: Word)
    requires |r| == |p| > 0 && |bits| <= |r|
    ensures PlainDivide(r, bits, p)
         == Xor(Or(Shl(r, |bits|), Resize(Rev(bits), |r|)), Divide(Zero(|r|), TopBits(r, |bits|), p))
  {
    var (n, k) := (|r|, |bits|);
    PlainDivideSplit(r, bits, p);
    SameOnZeros(r, k, p);
    Superposition(r, Zero(k), p);
    assert Xor(TopBits(r, k), Zero(k)) == TopBits(r, k);
    PlainFill(n, bits, p);
    var (sh, t, low) := (Shl(r, k), Divide(Zero(n), TopBits(r, k), p), Resize(Rev(bits), n));
    assert Xor(Xor(sh, t), low) == Xor(Or(sh, low), t);
  }
}
