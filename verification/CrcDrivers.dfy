// The byte-fed drivers: table-driven for orders of a byte or more, direct and
// reflected, with and without augmentation, and the bitwise ones for smaller orders.
module CrcDrivers {
  import opened Words
  import opened Division
  import opened Reflection
  import opened CrcTables

  // The remainder a register stands for; a reflecting driver keeps it backwards.
  function Remainder(N: nat, register: Word, reflect: bool): (r: Word)
    requires N <= |register|
    ensures |r| == N
  {
    if reflect then Rev(register[..N]) else register[..N]
  }

  // Whether a register is one a reflecting driver leaves behind.
  predicate Clean(N: nat, register: Word, reflect: bool) {
    reflect ==> HighClear(register, N)
  }

  lemma NextByte(r: Word, bytes: seq<Byte>, i: nat, reflect: bool, p: Word)
    requires |r| == |p| > 0 && i < |bytes|
    ensures Divide(r, MessageBits(bytes[..i + 1], reflect), p)
         == Divide(Divide(r, MessageBits(bytes[..i], reflect), p), InputBits(bytes[i], 8, reflect), p)
  {
    assert bytes[..i + 1][..i] == bytes[..i];
    DivideAppend(r, MessageBits(bytes[..i], reflect), InputBits(bytes[i], 8, reflect), p);
  }

  lemma NextPlainByte(r: Word, bytes: seq<Byte>, i: nat, reflect: bool, p: Word)
    requires |r| == |p| > 0 && i < |bytes|
    ensures PlainDivide(r, MessageBits(bytes[..i + 1], reflect), p)
         == PlainDivide(PlainDivide(r, MessageBits(bytes[..i], reflect), p), InputBits(bytes[i], 8, reflect), p)
  {
    assert bytes[..i + 1][..i] == bytes[..i];
    PlainDivideAppend(r, MessageBits(bytes[..i], reflect), InputBits(bytes[i], 8, reflect), p);
  }

  // ---- One byte through the table -------------------------------------------------

  function LeadingByte(N: nat, register: Word): (b: Byte)
    requires 8 <= N <= |register|
  {
    Resize(And(Shr(register, N - 8), LowMask(|register|, 8)), 8)
  }

  function LowByte(register: Word): (b: Byte) {
    Resize(And(register, LowMask(|register|, 8)), 8)
  }

  lemma LeadingByteIsTop(N: nat, register: Word)
    requires 8 <= N <= |register|
    ensures Rev(LeadingByte(N, register)) == TopBits(register[..N], 8)
  {
  }

  lemma LowByteIsTop(N: nat, register: Word)
    requires 8 <= N <= |register|
    ensures LowByte(register) == TopBits(Rev(register[..N]), 8)
  {
  }

  lemma RevXor(a: Word, b: Word)
    requires |a| == |b|
    ensures Rev(Xor(a, b)) == Xor(Rev(a), Rev(b))
  {
  }

  lemma WholeByteBits(b: Byte, reflect: bool)
    ensures InputBits(b, 8, reflect) == if reflect then b else Rev(b)
  {
    assert b[..8] == b;
  }

  lemma LowXor(N: nat, a: Word, b: Word)
    requires N <= |a| == |b|
    ensures Xor(a, b)[..N] == Xor(a[..N], b[..N])
  {
  }

  lemma LowShl(N: nat, a: Word, k: nat)
    requires N <= |a|
    ensures Shl(a, k)[..N] == Shl(a[..N], k)
  {
  }

  lemma LowResize(a: Word, n: nat)
    requires |a| <= n
    ensures Resize(a, n)[..|a|] == a && HighClear(Resize(a, n), |a|)
  {
  }

  lemma DirectByte(N: nat, r: Word, byte: Byte, poly: Word)
    requires 8 <= N <= |r| == |poly|
    ensures Xor(Shl(r, 8), Mask(N, |r|, poly, false, Xor(LeadingByte(N, r), byte)))[..N]
         == Divide(r[..N], InputBits(byte, 8, false), poly[..N])
  {
    var index := Xor(LeadingByte(N, r), byte);
    Superposition(r[..N], InputBits(byte, 8, false), poly[..N]);
    WholeByteBits(byte, false);
    WholeByteBits(index, false);
    RevXor(LeadingByte(N, r), byte);
    LeadingByteIsTop(N, r);
    LowXor(N, Shl(r, 8), Mask(N, |r|, poly, false, index));
    LowShl(N, r, 8);
    LowResize(Divide(Zero(N), InputBits(index, 8, false), poly[..N]), |r|);
  }

  lemma RevShr(N: nat, r: Word, k: nat)
    requires N <= |r| && HighClear(r, N)
    ensures Rev(Shr(r, k)[..N]) == Shl(Rev(r[..N]), k) && HighClear(Shr(r, k), N)
  {
    var (u, v) := (Rev(Shr(r, k)[..N]), Shl(Rev(r[..N]), k));
    forall i | 0 <= i < N ensures u[i] == v[i] {
      assert u[i] == Shr(r, k)[N - 1 - i];
    }
  }

  lemma HighClearXor(N: nat, a: Word, b: Word)
    requires |a| == |b| && HighClear(a, N) && HighClear(b, N)
    ensures HighClear(Xor(a, b), N)
  {
  }

  lemma ReflectedByte(N: nat, r: Word, byte: Byte, poly: Word)
    requires 8 <= N <= |r| == |poly| && HighClear(r, N)
    ensures var s := Xor(Shr(r, 8), Mask(N, |r|, poly, true, Xor(LowByte(r), byte)));
            HighClear(s, N)
            && Rev(s[..N]) == Divide(Rev(r[..N]), InputBits(byte, 8, true), poly[..N])
  {
    var index := Xor(LowByte(r), byte);
    var (a, m) := (Shr(r, 8), Mask(N, |r|, poly, true, index));
    Superposition(Rev(r[..N]), InputBits(byte, 8, true), poly[..N]);
    WholeByteBits(byte, true);
    WholeByteBits(index, true);
    LowByteIsTop(N, r);
    var q := Divide(Zero(N), index, poly[..N]);
    LowResize(Rev(q), |r|);
    RevRev(q);
    RevShr(N, r, 8);
    HighClearXor(N, a, m);
    LowXor(N, a, m);
    RevXor(a[..N], m[..N]);
  }

  lemma DirectPlainByte(N: nat, r: Word, byte: Byte, poly: Word)
    requires 8 <= N <= |r| == |poly|
    ensures Xor(Or(Shl(r, 8), Resize(byte, |r|)), Mask(N, |r|, poly, false, LeadingByte(N, r)))[..N]
         == PlainDivide(r[..N], InputBits(byte, 8, false), poly[..N])
  {
    var index := LeadingByte(N, r);
    PlainSuperposition(r[..N], InputBits(byte, 8, false), poly[..N]);
    WholeByteBits(byte, false);
    WholeByteBits(index, false);
    RevRev(byte);
    LeadingByteIsTop(N, r);
    var low := Or(Shl(r, 8), Resize(byte, |r|));
    LowXor(N, low, Mask(N, |r|, poly, false, index));
    LowShl(N, r, 8);
    assert low[..N] == Or(Shl(r[..N], 8), Resize(byte, N));
    LowResize(Divide(Zero(N), InputBits(index, 8, false), poly[..N]), |r|);
  }

  // A byte put at the top of a reflected register.
  lemma RevOrTop(N: nat, a: Word, byte: Byte)
    requires 8 <= N <= |a| && HighClear(a, N)
    ensures var s := Or(a, Shl(Resize(byte, |a|), N - 8));
            HighClear(s, N) && Rev(s[..N]) == Or(Rev(a[..N]), Resize(Rev(byte), N))
  {
    var s := Or(a, Shl(Resize(byte, |a|), N - 8));
    var v := Or(Rev(a[..N]), Resize(Rev(byte), N));
    forall i | 0 <= i < N ensures Rev(s[..N])[i] == v[i] {
      assert Rev(s[..N])[i] == s[N - 1 - i];
    }
  }

  lemma ReflectedPlainByte(N: nat, r: Word, byte: Byte, poly: Word)
    requires 8 <= N <= |r| == |poly| && HighClear(r, N)
    ensures var s := Xor(Or(Shr(r, 8), Shl(Resize(byte, |r|), N - 8)), Mask(N, |r|, poly, true, LowByte(r)));
            HighClear(s, N)
            && Rev(s[..N]) == PlainDivide(Rev(r[..N]), InputBits(byte, 8, true), poly[..N])
  {
    var index := LowByte(r);
    var (a, m) := (Or(Shr(r, 8), Shl(Resize(byte, |r|), N - 8)), Mask(N, |r|, poly, true, index));
    PlainSuperposition(Rev(r[..N]), InputBits(byte, 8, true), poly[..N]);
    WholeByteBits(byte, true);
    WholeByteBits(index, true);
    LowByteIsTop(N, r);
    var q := Divide(Zero(N), index, poly[..N]);
    LowResize(Rev(q), |r|);
    RevRev(q);
    RevShr(N, r, 8);
    RevOrTop(N, Shr(r, 8), byte);
    HighClearXor(N, a, m);
    LowXor(N, a, m);
    RevXor(a[..N], m[..N]);
  }

  // ---- Drivers for orders of a byte or more -----------------------------------------

  // The byte table of these parameters, never changed once built.
  method GetTable(N: nat, poly: Word, reflect: bool) returns (table: seq<Word>)
    requires 8 <= N <= |poly|
    ensures IsTable(table, 8, N, |poly|, poly, reflect)
  {
    var cells := MakePartialXorProductsTable(8, N, poly, reflect);
    table := cells[..];
  }

  lemma LookUp(table: seq<Word>, N: nat, poly: Word, reflect: bool, index: Byte)
    requires 8 <= N <= |poly| && IsTable(table, 8, N, |poly|, poly, reflect)
    ensures ToNat(index) < |table| && table[ToNat(index)] == Mask(N, |poly|, poly, reflect, index)
  {
  }

  // Bits pushed above the order are never cleared, and never matter.
  method DirectCrcUpdate(N: nat, poly: Word, remainder: Word, bytes: seq<Byte>) returns (r: Word)
    requires 8 <= N <= |remainder| == |poly|
    ensures |r| == |remainder|
    ensures r[..N] == Divide(remainder[..N], MessageBits(bytes, false), poly[..N])
  {
    var table := GetTable(N, poly, false);
    r := remainder;
    for i := 0 to |bytes|
      invariant |r| == |remainder|
      invariant r[..N] == Divide(remainder[..N], MessageBits(bytes[..i], false), poly[..N])
    {
      NextByte(remainder[..N], bytes, i, false, poly[..N]);
      DirectByte(N, r, bytes[i], poly);
      var index := Xor(LeadingByte(N, r), bytes[i]);
      LookUp(table, N, poly, false, index);
      r := Shl(r, 8);
      r := Xor(r, table[ToNat(index)]);
    }
    assert bytes[..|bytes|] == bytes;
  }

  // The registers a reflecting driver goes through, started from any register.
  function ReflectedRun(N: nat, poly: Word, register: Word, bytes: seq<Byte>): (r: Word)
    requires 8 <= N <= |register| == |poly|
    ensures |r| == |register|
  {
    if bytes == [] then register
    else
      var s := ReflectedRun(N, poly, register, bytes[..|bytes| - 1]);
      var index := Xor(LowByte(s), bytes[|bytes| - 1]);
      Xor(Shr(s, 8), Mask(N, |s|, poly, true, index))
  }

  lemma {:induction false} ReflectedRunDivides(N: nat, poly: Word, register: Word, bytes: seq<Byte>)
    requires 8 <= N <= |register| == |poly| && HighClear(register, N)
    ensures var r := ReflectedRun(N, poly, register, bytes);
            HighClear(r, N) && Rev(r[..N]) == Divide(Rev(register[..N]), MessageBits(bytes, true), poly[..N])
  {
    if bytes == [] {
    } else {
      var k := |bytes| - 1;
      ReflectedRunDivides(N, poly, register, bytes[..k]);
      ReflectedByte(N, ReflectedRun(N, poly, register, bytes[..k]), bytes[k], poly);
      assert bytes[..k + 1] == bytes;
      NextByte(Rev(register[..N]), bytes, k, true, poly[..N]);
    }
  }

  lemma {:induction false} ReflectedRunFirst(N: nat, poly: Word, register: Word, bytes: seq<Byte>)
    requires 8 <= N <= |register| == |poly| && bytes != []
    ensures ReflectedRun(N, poly, register, bytes)
         == ReflectedRun(N, poly, ReflectedRun(N, poly, register, bytes[..1]), bytes[1..])
  {
    var k := |bytes| - 1;
    if k == 0 {
      assert bytes[..1] == bytes;
    } else {
      ReflectedRunFirst(N, poly, register, bytes[..k]);
      assert bytes[..k][..1] == bytes[..1] && bytes[..k][1..] == bytes[1..][..k - 1];
    }
  }

  // One byte into a register that may have bits above the order: they move down by
  // eight, and those that enter the remainder are added to what division gives.
  lemma DirtyByte(N: nat, poly: Word, register: Word, byte: Byte) returns (next: Word, right: Word)
    requires 8 <= N <= |register| == |poly|
    ensures next == ReflectedRun(N, poly, register, [byte])
    ensures right == Divide(Rev(register[..N]), MessageBits([byte], true), poly[..N])
    ensures forall i :: N <= i < |register| ==> next[i] == (i + 8 < |register| && register[i + 8])
    ensures forall i :: 0 <= i < N ==> next[i] == (right[N - 1 - i] != (N <= i + 8 < |register| && register[i + 8]))
  {
    var D := |register|;
    var clean := And(register, LowMask(D, N));
    Masked(register, N);
    SameLowByte(register, clean, N);
    ReflectedRunDivides(N, poly, clean, [byte]);
    assert [byte][..0] == [];
    var m := Mask(N, D, poly, true, Xor(LowByte(register), byte));
    assert ReflectedRun(N, poly, register, [byte]) == Xor(Shr(register, 8), m);
    assert ReflectedRun(N, poly, clean, [byte]) == Xor(Shr(clean, 8), m);
    next := Xor(Shr(register, 8), m);
    right := Divide(Rev(register[..N]), MessageBits([byte], true), poly[..N]);
    ShiftedDirt(N, register, m, right);
  }

  lemma SameLowByte(a: Word, b: Word, N: nat)
    requires 8 <= N <= |a| == |b| && a[..N] == b[..N]
    ensures LowByte(a) == LowByte(b)
  {
    assert forall i :: 0 <= i < 8 ==> a[i] == a[..N][i] == b[i];
  }

  lemma ShiftedDirt(N: nat, register: Word, m: Word, right: Word)
    requires 8 <= N <= |register| == |m| && |right| == N
    requires var c := Xor(Shr(And(register, LowMask(|register|, N)), 8), m);
             HighClear(c, N) && Rev(c[..N]) == right
    ensures var next := Xor(Shr(register, 8), m);
            && (forall i :: N <= i < |register| ==> next[i] == (i + 8 < |register| && register[i + 8]))
            && (forall i :: 0 <= i < N ==> next[i] == (right[N - 1 - i] != (N <= i + 8 < |register| && register[i + 8])))
  {
    var D := |register|;
    var clean := And(register, LowMask(D, N));
    var (next, c) := (Xor(Shr(register, 8), m), Xor(Shr(clean, 8), m));
    forall i | 0 <= i < D
      ensures next[i] == (c[i] != (N <= i + 8 < D && register[i + 8]))
    {
      assert next[i] == (Shr(register, 8)[i] != m[i]) && c[i] == (Shr(clean, 8)[i] != m[i]);
    }
    forall i | 0 <= i < N ensures c[i] == right[N - 1 - i] {
      assert right[N - 1 - i] == c[..N][i];
    }
  }

  // Every bit set above the order of a reflected register reaches the remainder, with
  // zero bytes alone.
  lemma {:induction false} DirtyRegisterDiverges(N: nat, poly: Word, register: Word, j: nat) returns (bytes: seq<Byte>)
    requires 8 <= N <= |register| == |poly|
    requires N + j < |register| && register[N + j] && forall i :: N <= i < N + j ==> !register[i]
    ensures Rev(ReflectedRun(N, poly, register, bytes)[..N])
         != Divide(Rev(register[..N]), MessageBits(bytes, true), poly[..N])
    ensures forall b :: b in bytes ==> b == Zero(8)
    decreases j
  {
    var zero: Byte := Zero(8);
    var next, right := DirtyByte(N, poly, register, zero);
    if j < 8 {
      bytes := [zero];
      var i := N + j - 8;
      assert next[i] != right[N - 1 - i];
      assert Rev(next[..N])[N - 1 - i] == next[i];
    } else {
      assert Rev(next[..N]) == right;
      var rest := DirtyRegisterDiverges(N, poly, next, j - 8);
      bytes := [zero] + rest;
      ReflectedRunFirst(N, poly, register, bytes);
      assert bytes[..1] == [zero] && bytes[1..] == rest;
      MessageBitsAppend([zero], rest, true);
      DivideAppend(Rev(register[..N]), MessageBits([zero], true), MessageBits(rest, true), poly[..N]);
    }
  }

  lemma {:induction false} MessageBitsAppend(a: seq<Byte>, b: seq<Byte>, reflect: bool)
    ensures MessageBits(a + b, reflect) == MessageBits(a, reflect) + MessageBits(b, reflect)
  {
    if b == [] {
      assert a + b == a;
    } else {
      var k := |b| - 1;
      assert (a + b)[..|a + b| - 1] == a + b[..k];
      MessageBitsAppend(a, b[..k], reflect);
    }
  }

  // A reflecting driver divides every message correctly exactly when it starts from a
  // register with nothing above the order.
  lemma ReflectedRunExact(N: nat, poly: Word, register: Word)
    requires 8 <= N <= |register| == |poly|
    ensures HighClear(register, N) <==>
      forall bytes: seq<Byte> :: Rev(ReflectedRun(N, poly, register, bytes)[..N])
                              == Divide(Rev(register[..N]), MessageBits(bytes, true), poly[..N])
  {
    if HighClear(register, N) {
      forall bytes: seq<Byte>
        ensures Rev(ReflectedRun(N, poly, register, bytes)[..N])
             == Divide(Rev(register[..N]), MessageBits(bytes, true), poly[..N])
      {
        ReflectedRunDivides(N, poly, register, bytes);
      }
    } else {
      var j := LowestSet(register, N);
      var bytes := DirtyRegisterDiverges(N, poly, register, j);
    }
  }

  lemma LowestSet(register: Word, N: nat) returns (j: nat)
    requires N <= |register| && !HighClear(register, N)
    ensures N + j < |register| && register[N + j] && forall i :: N <= i < N + j ==> !register[i]
  {
    j := 0;
    while !register[N + j]
      invariant N + j < |register| && forall i :: N <= i < N + j ==> !register[i]
      decreases |register| - j
    {
      j := j + 1;
    }
  }

  lemma ReflectedRunEmpty(N: nat, poly: Word, register: Word)
    requires 8 <= N <= |register| == |poly|
    ensures ReflectedRun(N, poly, register, []) == register
  {
  }

  lemma ReflectedRunNext(N: nat, poly: Word, register: Word, bytes: seq<Byte>, i: nat)
    requires 8 <= N <= |register| == |poly| && i < |bytes|
    ensures var s := ReflectedRun(N, poly, register, bytes[..i]);
            ReflectedRun(N, poly, register, bytes[..i + 1])
            == Xor(Shr(s, 8), Mask(N, |s|, poly, true, Xor(LowByte(s), bytes[i])))
  {
    hide Mask, LowByte;
    assert bytes[..i + 1][..i] == bytes[..i];
  }

  method ReflectedCrcUpdate(N: nat, poly: Word, remainder: Word, bytes: seq<Byte>) returns (r: Word)
    requires 8 <= N <= |remainder| == |poly|
    ensures r == ReflectedRun(N, poly, remainder, bytes)
  {
    hide ReflectedRun, Mask, IsTable;
    var table := GetTable(N, poly, true);
    r := remainder;
    ReflectedRunEmpty(N, poly, remainder);
    assert bytes[..0] == [];
    for i := 0 to |bytes|
      invariant |r| == |poly| && r == ReflectedRun(N, poly, remainder, bytes[..i])
    {
      ReflectedRunNext(N, poly, remainder, bytes, i);
      var index := Xor(LowByte(r), bytes[i]);
      LookUp(table, N, poly, true, index);
      r := Shr(r, 8);
      r := Xor(r, table[ToNat(index)]);
    }
    assert bytes[..|bytes|] == bytes;
  }

  method DirectAugmentedCrcUpdate(N: nat, poly: Word, remainder: Word, bytes: seq<Byte>) returns (r: Word)
    requires 8 <= N <= |remainder| == |poly|
    ensures |r| == |remainder|
    ensures r[..N] == PlainDivide(remainder[..N], MessageBits(bytes, false), poly[..N])
  {
    var table := GetTable(N, poly, false);
    r := remainder;
    for i := 0 to |bytes|
      invariant |r| == |remainder|
      invariant r[..N] == PlainDivide(remainder[..N], MessageBits(bytes[..i], false), poly[..N])
    {
      NextPlainByte(remainder[..N], bytes, i, false, poly[..N]);
      DirectPlainByte(N, r, bytes[i], poly);
      var index := LeadingByte(N, r);
      LookUp(table, N, poly, false, index);
      r := Shl(r, 8);
      r := Or(r, Resize(bytes[i], |r|));
      r := Xor(r, table[ToNat(index)]);
    }
    assert bytes[..|bytes|] == bytes;
  }

  // The registers the reflecting augmented driver goes through.
  function ReflectedPlainRun(N: nat, poly: Word, register: Word, bytes: seq<Byte>): (r: Word)
    requires 8 <= N <= |register| == |poly|
    ensures |r| == |register|
  {
    if bytes == [] then register
    else
      var s := ReflectedPlainRun(N, poly, register, bytes[..|bytes| - 1]);
      Xor(Or(Shr(s, 8), Shl(Resize(bytes[|bytes| - 1], |s|), N - 8)), Mask(N, |s|, poly, true, LowByte(s)))
  }

  lemma ReflectedPlainRunEmpty(N: nat, poly: Word, register: Word)
    requires 8 <= N <= |register| == |poly|
    ensures ReflectedPlainRun(N, poly, register, []) == register
  {
  }

  lemma ReflectedPlainRunNext(N: nat, poly: Word, register: Word, bytes: seq<Byte>, i: nat)
    requires 8 <= N <= |register| == |poly| && i < |bytes|
    ensures var s := ReflectedPlainRun(N, poly, register, bytes[..i]);
            ReflectedPlainRun(N, poly, register, bytes[..i + 1])
            == Xor(Or(Shr(s, 8), Shl(Resize(bytes[i], |s|), N - 8)), Mask(N, |s|, poly, true, LowByte(s)))
  {
    hide Mask, LowByte;
    assert bytes[..i + 1][..i] == bytes[..i];
  }

  lemma {:induction false} ReflectedPlainRunDivides(N: nat, poly: Word, register: Word, bytes: seq<Byte>)
    requires 8 <= N <= |register| == |poly| && HighClear(register, N)
    ensures var r := ReflectedPlainRun(N, poly, register, bytes);
            HighClear(r, N) && Rev(r[..N]) == PlainDivide(Rev(register[..N]), MessageBits(bytes, true), poly[..N])
  {
    hide Mask, LowByte, Xor, Or, Shr, Shl, Resize, ReflectedPlainRun, HighClear, Rev, InputBits;
    if bytes == [] {
      ReflectedPlainRunEmpty(N, poly, register);
    } else {
      var k := |bytes| - 1;
      ReflectedPlainRunDivides(N, poly, register, bytes[..k]);
      ReflectedPlainByte(N, ReflectedPlainRun(N, poly, register, bytes[..k]), bytes[k], poly);
      assert bytes[..k + 1] == bytes;
      ReflectedPlainRunNext(N, poly, register, bytes, k);
      NextPlainByte(Rev(register[..N]), bytes, k, true, poly[..N]);
    }
  }

  lemma ZeroByteAdds(N: nat, s: Word)
    requires 8 <= N <= |s|
    ensures Or(Shr(s, 8), Shl(Resize(Zero(8), |s|), N - 8)) == Shr(s, 8) && Xor(LowByte(s), Zero(8)) == LowByte(s)
  {
    var u := Or(Shr(s, 8), Shl(Resize(Zero(8), |s|), N - 8));
    assert forall i :: 0 <= i < |s| ==> u[i] == Shr(s, 8)[i];
    XorZero(LowByte(s));
  }

  lemma {:induction false} ZeroMessage(bytes: seq<Byte>)
    requires forall b :: b in bytes ==> b == Zero(8)
    ensures MessageBits(bytes, true) == Zero(8 * |bytes|)
  {
    if bytes == [] {
    } else {
      var k := |bytes| - 1;
      assert bytes[k] in bytes && forall b :: b in bytes[..k] ==> b in bytes;
      ZeroMessage(bytes[..k]);
      WholeByteBits(bytes[k], true);
      assert Zero(8 * k) + Zero(8) == Zero(8 * |bytes|);
    }
  }

  // Over zero bytes the two reflecting drivers take the same steps, as the two divisions do.
  lemma {:induction false} ZeroBytesAgree(N: nat, poly: Word, register: Word, bytes: seq<Byte>)
    requires 8 <= N <= |register| == |poly| && forall b :: b in bytes ==> b == Zero(8)
    ensures ReflectedPlainRun(N, poly, register, bytes) == ReflectedRun(N, poly, register, bytes)
  {
    hide Mask, LowByte, Xor, Or, Shr, Shl, Resize, ReflectedRun, ReflectedPlainRun;
    ReflectedRunEmpty(N, poly, register);
    ReflectedPlainRunEmpty(N, poly, register);
    if bytes != [] {
      var k := |bytes| - 1;
      assert bytes[k] in bytes && bytes[..k + 1] == bytes && forall b :: b in bytes[..k] ==> b in bytes;
      ZeroBytesAgree(N, poly, register, bytes[..k]);
      ZeroByteAdds(N, ReflectedRun(N, poly, register, bytes[..k]));
      ReflectedRunNext(N, poly, register, bytes, k);
      ReflectedPlainRunNext(N, poly, register, bytes, k);
    }
  }

  // The reflecting augmented driver, too, divides every message correctly exactly when
  // it starts from a register with nothing above the order.
  lemma ReflectedPlainRunExact(N: nat, poly: Word, register: Word)
    requires 8 <= N <= |register| == |poly|
    ensures HighClear(register, N) <==>
      forall bytes: seq<Byte> :: Rev(ReflectedPlainRun(N, poly, register, bytes)[..N])
                              == PlainDivide(Rev(register[..N]), MessageBits(bytes, true), poly[..N])
  {
    hide ReflectedPlainRun, ReflectedRun, Divide, PlainDivide, MessageBits;
    if HighClear(register, N) {
      forall bytes: seq<Byte>
        ensures Rev(ReflectedPlainRun(N, poly, register, bytes)[..N])
             == PlainDivide(Rev(register[..N]), MessageBits(bytes, true), poly[..N])
      {
        ReflectedPlainRunDivides(N, poly, register, bytes);
      }
    } else {
      var j := LowestSet(register, N);
      var bytes := DirtyRegisterDiverges(N, poly, register, j);
      ZeroBytesAgree(N, poly, register, bytes);
      ZeroMessage(bytes);
      SameOnZeros(Rev(register[..N]), 8 * |bytes|, poly[..N]);
    }
  }

  method ReflectedAugmentedCrcUpdate(N: nat, poly: Word, remainder: Word, bytes: seq<Byte>) returns (r: Word)
    requires 8 <= N <= |remainder| == |poly|
    ensures r == ReflectedPlainRun(N, poly, remainder, bytes)
    ensures HighClear(remainder, N) ==>
      HighClear(r, N) && Rev(r[..N]) == PlainDivide(Rev(remainder[..N]), MessageBits(bytes, true), poly[..N])
  {
    hide ReflectedPlainRun, Mask, IsTable, PlainDivide, MessageBits;
    var table := GetTable(N, poly, true);
    r := remainder;
    assert bytes[..0] == [] && bytes[..|bytes|] == bytes;
    ReflectedPlainRunEmpty(N, poly, remainder);
    for i := 0 to |bytes|
      invariant |r| == |poly| && r == ReflectedPlainRun(N, poly, remainder, bytes[..i])
    {
      ReflectedPlainRunNext(N, poly, remainder, bytes, i);
      var index := LowByte(r);
      LookUp(table, N, poly, true, index);
      r := Shr(r, 8);
      r := Or(r, Shl(Resize(bytes[i], |r|), N - 8));
      r := Xor(r, table[ToNat(index)]);
    }
    if HighClear(remainder, N) {
      ReflectedPlainRunDivides(N, poly, remainder, bytes);
    }
  }

  // ---- Drivers for orders below a byte -------------------------------------------------

  method DirectSubByteCrcUpdate(N: nat, poly: Word, remainder: Word, bytes: seq<Byte>) returns (r: Word)
    requires 0 < N < 8 <= |remainder| == |poly|
    ensures |r| == |remainder|
    ensures r[..N] == Divide(remainder[..N], MessageBits(bytes, false), poly[..N])
  {
    r := remainder;
    for i := 0 to |bytes|
      invariant |r| == |remainder|
      invariant r[..N] == Divide(remainder[..N], MessageBits(bytes[..i], false), poly[..N])
    {
      NextByte(remainder[..N], bytes, i, false, poly[..N]);
      r := CrcModuloWordUpdate(N, r, bytes[i], poly, CHAR_BIT, false);
    }
    assert bytes[..|bytes|] == bytes;
  }

  lemma SubByteReflected(N: nat, register: Word, y: Byte)
    requires 0 < N < 8 <= |register|
    requires y == Resize(Rev(Resize(register, 8)[..N]), 8)
    ensures var r := Resize(y, |register|);
            r[..N] == Rev(register[..N]) && HighClear(r, N)
  {
    assert Resize(register, 8)[..N] == register[..N];
    LowResize(Rev(register[..N]), 8);
    var r := Resize(y, |register|);
    assert r[..N] == y[..N];
  }

  // Reflects once before the loop and once after it; the bytes are read bottom up.
  method ReflectedSubByteCrcUpdate(N: nat, poly: Word, remainder: Word, bytes: seq<Byte>) returns (r: Word)
    requires 0 < N < 8 <= |remainder| == |poly|
    ensures |r| == |remainder| && HighClear(r, N)
    ensures Rev(r[..N]) == Divide(Rev(remainder[..N]), MessageBits(bytes, true), poly[..N])
  {
    var D := |remainder|;
    var y := ReflectSubByte(Resize(remainder, 8), N);
    SubByteReflected(N, remainder, y);
    r := Resize(y, D);
    ghost var start := r[..N];
    for i := 0 to |bytes|
      invariant |r| == D
      invariant r[..N] == Divide(start, MessageBits(bytes[..i], true), poly[..N])
    {
      NextByte(start, bytes, i, true, poly[..N]);
      r := CrcModuloWordUpdate(N, r, bytes[i], poly, CHAR_BIT, true);
    }
    assert bytes[..|bytes|] == bytes;
    var z := ReflectSubByte(Resize(r, 8), N);
    SubByteReflected(N, r, z);
    RevRev(r[..N]);
    r := Resize(z, D);
  }

  method DirectSubByteAugmentedCrcUpdate(N: nat, poly: Word, remainder: Word, bytes: seq<Byte>) returns (r: Word)
    requires 0 < N < 8 <= |remainder| == |poly|
    ensures |r| == |remainder|
    ensures r[..N] == PlainDivide(remainder[..N], MessageBits(bytes, false), poly[..N])
  {
    r := remainder;
    for i := 0 to |bytes|
      invariant |r| == |remainder|
      invariant r[..N] == PlainDivide(remainder[..N], MessageBits(bytes[..i], false), poly[..N])
    {
      NextPlainByte(remainder[..N], bytes, i, false, poly[..N]);
      r := AugmentedCrcModuloWordUpdate(N, r, bytes[i], poly, CHAR_BIT, false);
    }
    assert bytes[..|bytes|] == bytes;
  }

  method ReflectedSubByteAugmentedCrcUpdate(N: nat, poly: Word, remainder: Word, bytes: seq<Byte>) returns (r: Word)
    requires 0 < N < 8 <= |remainder| == |poly|
    ensures |r| == |remainder| && HighClear(r, N)
    ensures Rev(r[..N]) == PlainDivide(Rev(remainder[..N]), MessageBits(bytes, true), poly[..N])
  {
    var D := |remainder|;
    var y := ReflectSubByte(Resize(remainder, 8), N);
    SubByteReflected(N, remainder, y);
    r := Resize(y, D);
    ghost var start := r[..N];
    for i := 0 to |bytes|
      invariant |r| == D
      invariant r[..N] == PlainDivide(start, MessageBits(bytes[..i], true), poly[..N])
    {
      NextPlainByte(start, bytes, i, true, poly[..N]);
      r := AugmentedCrcModuloWordUpdate(N, r, bytes[i], poly, CHAR_BIT, true);
    }
    assert bytes[..|bytes|] == bytes;
    var z := ReflectSubByte(Resize(r, 8), N);
    SubByteReflected(N, r, z);
    RevRev(r[..N]);
    r := Resize(z, D);
  }

  // ---- The driver a computer gets --------------------------------------------------------

  method CrcUpdate(N: nat, poly: Word, reflect: bool, remainder: Word, bytes: seq<Byte>) returns (r: Word)
    requires 0 < N <= |remainder| == |poly| && 8 <= |remainder|
    ensures |r| == |remainder|
    ensures Clean(N, remainder, reflect) || N < 8 ==>
      Clean(N, r, reflect)
      && Remainder(N, r, reflect) == Divide(Remainder(N, remainder, reflect), MessageBits(bytes, reflect), poly[..N])
  {
    if N < CHAR_BIT {
      if reflect {
        r := ReflectedSubByteCrcUpdate(N, poly, remainder, bytes);
      } else {
        r := DirectSubByteCrcUpdate(N, poly, remainder, bytes);
      }
    } else {
      if reflect {
        r := ReflectedCrcUpdate(N, poly, remainder, bytes);
        if HighClear(remainder, N) {
          ReflectedRunDivides(N, poly, remainder, bytes);
        }
      } else {
        r := DirectCrcUpdate(N, poly, remainder, bytes);
      }
    }
  }
}
