// Bit reflection: the swapping loop, the cached byte table and the sub-byte form.
module Reflection {
  import opened Words

  const CHAR_BIT: nat := 8

  // The low n bits in reverse order; the others stay.
  function Reflect(x: Word, n: nat): (r: Word)
    requires n <= |x|
    ensures |r| == |x|
  {
    Rev(x[..n]) + x[n..]
  }

  function ReflectIf(x: Word, reflect: bool, n: nat): (r: Word)
    requires n <= |x|
    ensures |r| == |x|
  {
    if reflect then Reflect(x, n) else x
  }

  lemma ReflectAt(x: Word, n: nat, i: nat)
    requires n <= |x| && i < |x|
    ensures Reflect(x, n)[i] == if i < n then x[n - 1 - i] else x[i]
  {
  }

  lemma ReflectInvolution(x: Word, n: nat)
    requires n <= |x|
    ensures Reflect(Reflect(x, n), n) == x
  {
    assert Reflect(x, n)[..n] == Rev(x[..n]);
    assert Rev(Rev(x[..n])) == x[..n];
    assert Reflect(Reflect(x, n), n) == x[..n] + x[n..];
  }

  lemma ReflectXor(x: Word, y: Word, n: nat)
    requires n <= |x| == |y|
    ensures Reflect(Xor(x, y), n) == Xor(Reflect(x, n), Reflect(y, n))
  {
    var (u, v) := (Reflect(Xor(x, y), n), Xor(Reflect(x, n), Reflect(y, n)));
    forall i | 0 <= i < |x| ensures u[i] == v[i] {
      ReflectAt(Xor(x, y), n, i);
      ReflectAt(x, n, i);
      ReflectAt(y, n, i);
    }
  }

  // Swaps the outermost pair of unequal bits, then the next pair inward. The loop's
  // single-bit masks are OneHot(l) and OneHot(h).
  method ReflectUnsigned(x: Word, wordLength: nat) returns (r: Word)
    requires 0 < wordLength <= |x|
    ensures r == Reflect(x, wordLength)
  {
    r := x;
    var l, h := 0, wordLength - 1;
    while h > l
      invariant 0 <= l <= wordLength && h == wordLength - 1 - l
      invariant l <= h + 2
      invariant |r| == |x|
      invariant forall i {:trigger r[i]} :: 0 <= i < |x| ==>
        r[i] == if i < wordLength && (i < l || i > h) then x[wordLength - 1 - i] else x[i]
    {
      var m := Or(OneHot(|r|, h), OneHot(|r|, l));
      var t := And(r, m);
      SwapTest(r, l, h);
      if t == OneHot(|r|, h) || t == OneHot(|r|, l) {
        r := Xor(r, m);
      }
      h := h - 1;
      l := l + 1;
    }
    forall i | 0 <= i < |x| ensures r[i] == Reflect(x, wordLength)[i] {
      ReflectAt(x, wordLength, i);
    }
  }

  // The masked value is one of the two masks exactly when the two bits differ.
  lemma SwapTest(r: Word, l: nat, h: nat)
    requires l < h < |r|
    ensures var t := And(r, Or(OneHot(|r|, h), OneHot(|r|, l)));
            (t == OneHot(|r|, h) || t == OneHot(|r|, l)) <==> r[h] != r[l]
  {
    var t := And(r, Or(OneHot(|r|, h), OneHot(|r|, l)));
    assert t[h] == r[h] && t[l] == r[l];
    assert OneHot(|r|, h)[h] && !OneHot(|r|, h)[l] && OneHot(|r|, l)[l] && !OneHot(|r|, l)[h];
    if r[h] && !r[l] {
      assert t == OneHot(|r|, h);
    } else if r[l] && !r[h] {
      assert t == OneHot(|r|, l);
    }
  }

  method ReflectOptionally(x: Word, reflect: bool, wordLength: nat) returns (r: Word)
    requires 0 < wordLength <= |x|
    ensures r == ReflectIf(x, reflect, wordLength)
  {
    if reflect {
      r := ReflectUnsigned(x, wordLength);
    } else {
      r := x;
    }
  }

  // ---- The byte table -----------------------------------------------------------

  ghost predicate ReversesBytes(table: seq<Byte>) {
    && |table| == 256
    && forall b: Byte :: table[ToNat(b)] == Rev(b)
  }

  lemma ByteIndex(b: Byte)
    ensures ToNat(b) < 256 && FromNat(ToNat(b), 8) == b
  {
    FromNatToNat(b);
    Pow2Of8();
  }

  lemma Pow2Of8()
    ensures Pow2(8) == 256
  {
    assert Pow2(4) == 16;
  }

  // The loop counter is an unsigned char: it stops by wrapping to zero.
  method MakeByteReflectionTable() returns (result: array<Byte>)
    ensures fresh(result) && ReversesBytes(result[..])
  {
    result := new Byte[256];
    var i := 0;
    ghost var done := 0;
    while true
      invariant 0 <= i < 256 && done == i
      invariant forall d :: 0 <= d < i ==> result[d] == Rev(FromNat(d, 8))
      decreases 256 - i
    {
      var x := FromNat(i, 8);
      var y := ReflectUnsigned(x, CHAR_BIT);
      WholeByte(x);
      result[i] := y;
      done := done + 1;
      i := (i + 1) % 256;
      if i == 0 {
        break;
      }
    }
    forall b: Byte ensures result[..][ToNat(b)] == Rev(b) {
      ByteIndex(b);
    }
  }

  lemma WholeByte(x: Word)
    ensures Reflect(x, |x|) == Rev(x)
  {
    assert x[..|x|] == x;
  }

  method ReflectByte(x: Byte) returns (r: Byte)
    ensures r == Rev(x)
  {
    var table := MakeByteReflectionTable();
    ByteIndex(x);
    r := table[ToNat(x)];
    assert r == table[..][ToNat(x)];
  }

  // Reverses the low wordLength bits and, unlike ReflectUnsigned, drops the others.
  method ReflectSubByte(x: Byte, wordLength: nat) returns (r: Byte)
    requires 0 < wordLength <= CHAR_BIT
    ensures r == Resize(Rev(x[..wordLength]), CHAR_BIT)
    ensures HighClear(x, wordLength) ==> r == Reflect(x, wordLength)
  {
    var y := ReflectByte(x);
    r := Shr(y, CHAR_BIT - wordLength);
    assert forall i :: 0 <= i < 8 ==> r[i] == Resize(Rev(x[..wordLength]), CHAR_BIT)[i];
  }
}
