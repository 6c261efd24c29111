// Division as polynomials over GF(2) know it: what the dividers leave is the remainder,
// of which there is one. A word's index is the power of x its bit belongs to.
module Polynomials {
  import opened Words
  import opened Division

  // The product of the divisor x^|p| + p with a quotient, whose highest bit comes first.
  function Times(q: seq<bool>, p: Word): (w: Word)
    ensures |w| == |q| + |p|
  {
    if q == [] then Zero(|p|)
    else
      var k := |q| - 1;
      Xor([false] + Times(q[..k], p), if q[k] then p + [true] + Zero(k) else Zero(|q| + |p|))
  }

  // One step: the register with the next bit below it is the new register, and the
  // divisor once if the step took it away.
  lemma StepTakesAway(r: Word, b: bool, p: Word, k: nat)
    requires |r| == |p| > 0
    ensures var top := r[|r| - 1];
            [b] + r + Zero(k)
            == Xor(PlainStep(r, b, p) + [false] + Zero(k), if top then p + [true] + Zero(k) else Zero(|p| + 1 + k))
  {
    var (n, top) := (|r|, r[|r| - 1]);
    var (u, v) := ([b] + r + Zero(k), PlainStep(r, b, p) + [false] + Zero(k));
    var w := if top then p + [true] + Zero(k) else Zero(n + 1 + k);
    forall i | 0 <= i < |u| ensures u[i] == Xor(v, w)[i] {
      if i < n {
        assert v[i] == PlainStep(r, b, p)[i];
        assert top ==> w[i] == p[i];
      }
    }
  }

  // A register r before the bits: r above, the bits below, is a multiple of the divisor
  // and what plain division leaves.
  lemma {:induction false} PlainDivideIsRemainder(r: Word, bits: seq<bool>, p: Word) returns (q: seq<bool>)
    requires |r| == |p| > 0
    ensures |q| == |bits|
    ensures Rev(bits) + r == Xor(Times(q, p), PlainDivide(r, bits, p) + Zero(|bits|))
  {
    hide Xor, PlainStep;
    if bits == [] {
      q := [];
      NothingDivided(r);
    } else {
      var k := |bits| - 1;
      var (init, b) := (bits[..k], bits[k]);
      var rest := PlainDivideIsRemainder(r, init, p);
      var s := PlainDivide(r, init, p);
      q := rest + [s[|s| - 1]];
      assert q[..k] == rest && bits == init + [b];
      StepTakesAway(s, b, p, k);
      OneMoreBit(r, init, b, p, rest, s);
    }
  }

  lemma NothingDivided(r: Word)
    ensures Rev([]) + r == r == Xor(Zero(|r|), r + Zero(0))
  {
    assert r + Zero(0) == r;
    XorZero(r);
  }

  lemma OneMoreBit(r: Word, init: seq<bool>, b: bool, p: Word, q: seq<bool>, s: Word)
    requires |r| == |p| == |s| > 0 && |q| == |init|
    requires Rev(init) + r == Xor(Times(q, p), s + Zero(|init|))
    requires var (top, k) := (s[|s| - 1], |init|);
             [b] + s + Zero(k)
             == Xor(PlainStep(s, b, p) + [false] + Zero(k), if top then p + [true] + Zero(k) else Zero(|p| + 1 + k))
    ensures Rev(init + [b]) + r
         == Xor(Times(q + [s[|s| - 1]], p), PlainStep(s, b, p) + Zero(|init| + 1))
  {
    hide PlainStep, Times, Xor, Rev, Zero;
    var (k, top, t) := (|init|, s[|s| - 1], Times(q, p));
    var d := if top then p + [true] + Zero(k) else Zero(|p| + 1 + k);
    var v := PlainStep(s, b, p) + Zero(k + 1);
    Lengths(s, b, p, q);
    TimesLast(q, top, p);
    RevLast(init, b);
    OneZeroMore(PlainStep(s, b, p), k);
    Regroup([b], s, Zero(k));
    Regroup([b], Rev(init), r);
    ZeroLengths(p, k);
    Chain(Rev(init) + r, t, s + Zero(k), b, v, d);
  }

  lemma Regroup(a: Word, b: Word, c: Word)
    ensures a + b + c == a + (b + c)
  {
  }

  lemma OneZeroMore(w: Word, k: nat)
    ensures w + [false] + Zero(k) == w + Zero(k + 1)
  {
    assert [false] + Zero(k) == Zero(k + 1);
    Regroup(w, [false], Zero(k));
  }

  lemma ZeroLengths(p: Word, k: nat)
    ensures |Zero(k)| == k && |Zero(k + 1)| == k + 1 && |Zero(|p| + 1 + k)| == |Zero(k + 1 + |p|)| == |p| + 1 + k
  {
  }

  lemma Lengths(s: Word, b: bool, p: Word, q: seq<bool>)
    requires |s| == |p| > 0
    ensures |PlainStep(s, b, p)| == |p| && |Times(q, p)| == |q| + |p|
  {
  }

  lemma Chain(x: Word, t: Word, s: Word, b: bool, v: Word, d: Word)
    requires |x| == |t| == |s| && |v| == |d| == |s| + 1 && x == Xor(t, s) && [b] + s == Xor(v, d)
    ensures [b] + x == Xor(Xor([false] + t, d), v)
  {
    hide Xor;
    ShiftIn(b, t, s);
    XorSwap([false] + t, d, v);
  }

  lemma TimesLast(q: seq<bool>, b: bool, p: Word)
    ensures Times(q + [b], p) == Xor([false] + Times(q, p), if b then p + [true] + Zero(|q|) else Zero(|q| + 1 + |p|))
  {
    hide Xor;
    assert (q + [b])[..|q|] == q;
  }

  lemma RevLast(init: seq<bool>, b: bool)
    ensures Rev(init + [b]) == [b] + Rev(init)
  {
  }

  lemma ShiftIn(b: bool, x: Word, y: Word)
    requires |x| == |y|
    ensures [b] + Xor(x, y) == Xor([false] + x, [b] + y)
  {
    var (u, v) := ([b] + Xor(x, y), Xor([false] + x, [b] + y));
    forall i | 0 <= i < |u| ensures u[i] == v[i] {
      if i > 0 {
        assert u[i] == Xor(x, y)[i - 1];
      }
    }
  }

  lemma XorSwap(x: Word, d: Word, v: Word)
    requires |x| == |d| == |v|
    ensures Xor(x, Xor(v, d)) == Xor(Xor(x, d), v)
  {
  }

  // ---- There is only one remainder ----------------------------------------------------

  lemma {:induction false} TimesLinear(q: seq<bool>, s: seq<bool>, p: Word)
    requires |q| == |s|
    ensures Times(Xor(q, s), p) == Xor(Times(q, p), Times(s, p))
  {
    hide Times;
    if q == [] {
      TimesNone(p);
      XorZero(Zero(|p|));
      assert Xor(q, s) == [] && s == [];
    } else {
      var k := |q| - 1;
      TimesLinear(q[..k], s[..k], p);
      assert q == q[..k] + [q[k]] && s == s[..k] + [s[k]];
      assert Xor(q, s) == Xor(q[..k], s[..k]) + [q[k] != s[k]];
      TimesLast(q[..k], q[k], p);
      TimesLast(s[..k], s[k], p);
      TimesLast(Xor(q[..k], s[..k]), q[k] != s[k], p);
      FourParts(Times(q[..k], p), Times(s[..k], p), q[k], s[k], p + [true] + Zero(k));
    }
  }

  lemma TimesNone(p: Word)
    ensures Times([], p) == Zero(|p|)
  {
  }

  lemma FourParts(x: Word, y: Word, a: bool, b: bool, d: Word)
    requires |x| == |y| && |d| == |x| + 1
    ensures var z := Zero(|d|);
            Xor([false] + Xor(x, y), if a != b then d else z)
            == Xor(Xor([false] + x, if a then d else z), Xor([false] + y, if b then d else z))
  {
    ShiftIn(false, x, y);
  }

  // A multiple of the divisor other than zero has a bit beyond the register's.
  lemma {:induction false} MultipleIsHigh(q: seq<bool>, p: Word, j: nat)
    requires j < |q| && q[j] && forall i :: 0 <= i < j ==> !q[i]
    ensures Times(q, p)[|p| + |q| - 1 - j]
  {
    var k := |q| - 1;
    var at := |p| + k - j;
    if j < k {
      MultipleIsHigh(q[..k], p, j);
      assert ([false] + Times(q[..k], p))[at] == Times(q[..k], p)[at - 1];
    } else {
      TimesZero(q[..k], p);
    }
  }

  lemma {:induction false} TimesZero(q: seq<bool>, p: Word)
    requires forall i :: 0 <= i < |q| ==> !q[i]
    ensures Times(q, p) == Zero(|q| + |p|)
  {
    if q != [] {
      TimesZero(q[..|q| - 1], p);
    }
  }

  lemma RemainderUnique(q: seq<bool>, r: Word, q': seq<bool>, r': Word, p: Word)
    requires |q| == |q'| && |r| == |r'| == |p|
    requires Xor(Times(q, p), r + Zero(|q|)) == Xor(Times(q', p), r' + Zero(|q|))
    ensures q == q' && r == r'
  {
    hide Xor, Times;
    var (u, v) := (r + Zero(|q|), r' + Zero(|q|));
    TimesLength(q, p);
    TimesLength(q', p);
    Crosswise(Times(q, p), u, Times(q', p), v);
    TimesLinear(q, q', p);
    SameQuotient(q, q', p, r, r');
    SameWhenZero(q, q');
    TimesZero(Xor(q, q'), p);
    TimesLength(Xor(q, q'), p);
    XorLength(q, q');
    ZeroMeansSame(u, v);
    assert r == u[..|p|] && r' == v[..|p|];
  }

  lemma TimesLength(q: seq<bool>, p: Word)
    ensures |Times(q, p)| == |q| + |p|
  {
  }

  lemma XorLength(a: Word, b: Word)
    requires |a| == |b|
    ensures |Xor(a, b)| == |a|
  {
  }

  lemma Crosswise(x: Word, u: Word, y: Word, v: Word)
    requires |x| == |u| == |y| == |v| && Xor(x, u) == Xor(y, v)
    ensures Xor(x, y) == Xor(u, v)
  {
    forall i | 0 <= i < |x| ensures (x[i] != y[i]) == (u[i] != v[i]) {
      assert Xor(x, u)[i] == Xor(y, v)[i];
    }
  }

  // The difference of two remainders has no bit beyond the register's.
  lemma SameQuotient(q: seq<bool>, q': seq<bool>, p: Word, r: Word, r': Word)
    requires |q| == |q'| && |r| == |r'| == |p|
    requires Times(Xor(q, q'), p) == Xor(r + Zero(|q|), r' + Zero(|q|))
    ensures forall i :: 0 <= i < |q| ==> !Xor(q, q')[i]
  {
    var d := Xor(q, q');
    if j: nat :| j < |d| && d[j] {
      var m := FirstSet(d, j);
      MultipleIsHigh(d, p, m);
    }
  }

  lemma SameWhenZero(a: Word, b: Word)
    requires |a| == |b| && forall i :: 0 <= i < |a| ==> !Xor(a, b)[i]
    ensures a == b
  {
    forall i | 0 <= i < |a| ensures a[i] == b[i] {
      assert !Xor(a, b)[i];
    }
  }

  lemma ZeroMeansSame(a: Word, b: Word)
    requires |a| == |b| && Xor(a, b) == Zero(|a|)
    ensures a == b
  {
    SameWhenZero(a, b);
  }

  lemma FirstSet(d: seq<bool>, j: nat) returns (m: nat)
    requires j < |d| && d[j]
    ensures m < |d| && d[m] && forall i :: 0 <= i < m ==> !d[i]
  {
    m := 0;
    while !d[m]
      invariant m <= j && forall i :: 0 <= i < m ==> !d[i]
      decreases j - m
    {
      m := m + 1;
    }
  }

  // ---- The CRC ----------------------------------------------------------------------------

  // From an empty register the altered division leaves the remainder of the message, with
  // as many zeros behind it as the order, by the divisor.
  lemma CrcIsRemainder(bits: seq<bool>, p: Word) returns (q: seq<bool>)
    requires |p| > 0
    ensures |q| == |bits| + |p|
    ensures Rev(bits + Zero(|p|)) + Zero(|p|) == Xor(Times(q, p), Divide(Zero(|p|), bits, p) + Zero(|q|))
  {
    hide Times, Xor;
    var n := |p|;
    q := PlainDivideIsRemainder(Zero(n), bits + Zero(n), p);
    AugmentedIsUnaugmented(Zero(n), bits, p);
    ZeroStaysZero(n, p);
  }

  lemma ZeroStaysZero(n: nat, p: Word)
    requires |p| == n > 0
    ensures PlainDivide(Zero(n), Zero(n), p) == Zero(n)
  {
    SameOnZeros(Zero(n), n, p);
    ShiftOut(Zero(n), n, p);
    assert Shl(Zero(n), n) == Zero(n);
  }
}
