// Machine words as bit sequences: index i holds the 2^i bit. Every operation keeps
// the width of its operand, so the bits that a shift pushes past the top are lost,
// as they are in an unsigned register.
module Words {

  type Word = seq<bool>
  type Byte = w: Word | |w| == 8 witness [false, false, false, false, false, false, false, false]

  function Zero(n: nat): (r: Word)
    ensures |r| == n
  {
    seq(n, _ => false)
  }

  function OneHot(n: nat, k: nat): (r: Word)
    ensures |r| == n
  {
    seq(n, i => i == k)
  }

  function LowMask(n: nat, k: nat): (r: Word)
    ensures |r| == n
  {
    seq(n, i => i < k)
  }

  function Xor(a: Word, b: Word): (r: Word)
    requires |a| == |b|
    ensures |r| == |a|
  {
    seq(|a|, i requires 0 <= i < |a| => a[i] != b[i])
  }

  function And(a: Word, b: Word): (r: Word)
    requires |a| == |b|
    ensures |r| == |a|
  {
    seq(|a|, i requires 0 <= i < |a| => a[i] && b[i])
  }

  function Or(a: Word, b: Word): (r: Word)
    requires |a| == |b|
    ensures |r| == |a|
  {
    seq(|a|, i requires 0 <= i < |a| => a[i] || b[i])
  }

  function Shl(a: Word, k: nat): (r: Word)
    ensures |r| == |a|
  {
    seq(|a|, i requires 0 <= i < |a| => i >= k && a[i - k])
  }

  function Shr(a: Word, k: nat): (r: Word)
    ensures |r| == |a|
  {
    seq(|a|, i requires 0 <= i < |a| => i + k < |a| && a[i + k])
  }

  // Conversion between unsigned types: truncates or extends with zeros.
  function Resize(a: Word, n: nat): (r: Word)
    ensures |r| == n
  {
    seq(n, i requires 0 <= i < n => i < |a| && a[i])
  }

  // The whole sequence backwards.
  function Rev(a: Word): (r: Word)
    ensures |r| == |a|
  {
    seq(|a|, i requires 0 <= i < |a| => a[|a| - 1 - i])
  }

  lemma XorZero(a: Word)
    ensures Xor(a, Zero(|a|)) == a && Xor(Zero(|a|), a) == a
  {
  }

  lemma ResizeSame(a: Word)
    ensures Resize(a, |a|) == a
  {
  }

  lemma XorCancels(a: Word, b: Word)
    requires |a| == |b|
    ensures Xor(a, b) == Zero(|a|) <==> a == b
  {
    if Xor(a, b) == Zero(|a|) {
      forall i | 0 <= i < |a| ensures a[i] == b[i] {
        assert !Xor(a, b)[i];
      }
    }
  }

  lemma XorAssoc(a: Word, b: Word, c: Word)
    requires |a| == |b| == |c|
    ensures Xor(Xor(a, b), c) == Xor(a, Xor(b, c))
  {
    var (u, v) := (Xor(Xor(a, b), c), Xor(a, Xor(b, c)));
    assert forall i :: 0 <= i < |a| ==> u[i] == v[i];
  }

  lemma ShlShl(a: Word, j: nat, k: nat)
    ensures Shl(Shl(a, j), k) == Shl(a, j + k)
  {
    var (u, v) := (Shl(Shl(a, j), k), Shl(a, j + k));
    assert forall i :: 0 <= i < |a| ==> u[i] == v[i];
  }

  lemma ShlZero(a: Word)
    ensures Shl(a, 0) == a
  {
    assert forall i :: 0 <= i < |a| ==> Shl(a, 0)[i] == a[i];
  }

  predicate HighClear(a: Word, n: nat) {
    forall i :: n <= i < |a| ==> !a[i]
  }

  // ---- Words as table indices ------------------------------------------------

  function Pow2(n: nat): (r: nat)
    ensures r >= 1
  {
    if n == 0 then 1 else 2 * Pow2(n - 1)
  }

  function ToNat(w: Word): (n: nat)
    ensures n < Pow2(|w|)
  {
    if w == [] then 0 else (if w[0] then 1 else 0) + 2 * ToNat(w[1..])
  }

  function FromNat(n: nat, width: nat): (w: Word)
    ensures |w| == width
  {
    if width == 0 then [] else [n % 2 == 1] + FromNat(n / 2, width - 1)
  }

  lemma {:induction false} ToNatFromNat(n: nat, width: nat)
    requires n < Pow2(width)
    ensures ToNat(FromNat(n, width)) == n
  {
    if width == 0 {
    } else {
      ToNatFromNat(n / 2, width - 1);
      assert FromNat(n, width)[1..] == FromNat(n / 2, width - 1);
    }
  }

  lemma {:induction false} FromNatToNat(w: Word)
    ensures FromNat(ToNat(w), |w|) == w
  {
    if w == [] {
    } else {
      FromNatToNat(w[1..]);
      assert ToNat(w) / 2 == ToNat(w[1..]);
    }
  }
}
