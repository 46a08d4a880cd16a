/** The imperative core of ternary.c: the one-trit adder, the word operations built on it, and the
    conversions from words to C integers. */
module Ternary {
  import opened Powers
  import opened Words
  import opened Adder

  /** A trit variable that sum_t reaches through a pointer. Its first content is arbitrary. */
  class TritCell {
    var t: int
  }

  function GetTrit8(tr: Tr8, pos: nat): int {
    if pos > 7 then 0 else tr[pos]
  }

  function GetTrit16(tr: Tr16, pos: nat): int {
    if pos > 15 then 0 else tr[pos]
  }

  function GetTrit32(tr: Tr32, pos: nat): int {
    if pos > 31 then 0 else Sign(tr[pos])
  }

  function SetTrit32(tr: Tr32, pos: nat, t: int): Tr32 {
    if pos > 31 then tr else tr[pos := t]
  }

  /** The switch of sum_t: the digit and the carry for each sum of three trits. */
  function SumCase(total: int): (r: (int, int))
    ensures IsTrit(r.0) && IsTrit(r.1)
    ensures -3 <= total <= 3 ==> r.0 + 3 * r.1 == total
  {
    match total
    case -3 => (0, -1)
    case -2 => (1, -1)
    case -1 => (-1, 0)
    case 0 => (0, 0)
    case 1 => (1, 0)
    case 2 => (-1, 1)
    case 3 => (0, 1)
    case _ => (0, 0)
  }

  /** One-trit addition with carry. The old contents of the two output cells do not matter. The
      three inputs may alias one another, and even an output: they are all read before it is written. */
  method SumT(a: TritCell, b: TritCell, p0: TritCell, s: TritCell, p1: TritCell)
    requires s != p1
    modifies a, b, p0, s, p1
    ensures IsTrit(s.t) && IsTrit(p1.t)
    ensures s.t + 3 * p1.t == old(Sign(a.t) + Sign(b.t) + Sign(p0.t))
    ensures a != s && a != p1 ==> a.t == Sign(old(a.t))
    ensures b != s && b != p1 ==> b.t == Sign(old(b.t))
    ensures p0 != s && p0 != p1 ==> p0.t == Sign(old(p0.t))
  {
    a.t := Sign(a.t);
    b.t := Sign(b.t);
    p0.t := Sign(p0.t);
    s.t := Sign(s.t);
    p1.t := Sign(p1.t);
    var (digit, carry) := SumCase(a.t + b.t + p0.t);
    s.t := digit;
    p1.t := carry;
  }

  /** The first i digits of r, with the carry into trit i, hold the sum of the first i digits. */
  ghost predicate Rippled(x: Tr32, y: Tr32, r: Tr32, i: nat, carry: int)
    requires i <= 32
  {
    && IsTrits(r[..i]) && IsTrit(carry)
    && Value(r[..i]) + Pow3(i) * carry == Value(Norm(x)[..i]) + Value(Norm(y)[..i])
  }

  lemma RippleStep(x: Tr32, y: Tr32, r: Tr32, i: nat,
                   carryIn: int, digit: int, carryOut: int)
    requires i < 32 && Rippled(x, y, r, i, carryIn)
    requires IsTrit(digit) && IsTrit(carryOut)
    requires digit + 3 * carryOut == Sign(x[i]) + Sign(y[i]) + carryIn
    ensures Rippled(x, y, r[i := digit], i + 1, carryOut)
  {
    assert r[i := digit][..i + 1] == r[..i] + [digit];
    CarryStep(r[..i], Norm(x), Norm(y), i, carryIn, digit, carryOut);
  }

  /** One position of the ripple: the digits done so far and the carry hold the sum of the prefixes. */
  lemma CarryStep(done: seq<int>, x: seq<int>, y: seq<int>, i: nat,
                  carryIn: int, digit: int, carryOut: int)
    requires i < |x| && i < |y| && |done| == i
    requires Value(done) + Pow3(i) * carryIn == Value(x[..i]) + Value(y[..i])
    requires digit + 3 * carryOut == x[i] + y[i] + carryIn
    ensures Value(done + [digit]) + Pow3(i + 1) * carryOut == Value(x[..i + 1]) + Value(y[..i + 1])
  {
    ValueSnoc(done, digit);
    ValuePrefix(x, i);
    ValuePrefix(y, i);
    var p := Pow3(i);
    Triple(p, carryOut);
    Factor(p, digit, 3 * carryOut);
    Factor(p, x[i], y[i]);
    Factor(p, x[i] + y[i], carryIn);
  }

  lemma RippleDone(x: Tr32, y: Tr32, r: Tr32, carry: int)
    requires Rippled(x, y, r, 32, carry)
    ensures r == Add(x, y)
    ensures carry == DroppedCarry(x, y)
    ensures IsTrit(carry) && Num(r) + Pow3(32) * carry == Num(x) + Num(y)
  {
    assert r[..32] == r && Norm(x)[..32] == Norm(x) && Norm(y)[..32] == Norm(y);
    SumIsAdd(x, y, r, carry);
  }

  lemma {:induction false} SumIsAdd(x: seq<int>, y: seq<int>, r: seq<int>, carry: int)
    requires |x| == |y| == |r| && IsTrits(r)
    requires Value(r) + Pow3(|r|) * carry == Num(x) + Num(y)
    ensures r == Add(x, y) && carry == DroppedCarry(x, y) && Num(r) == Value(r)
  {
    ValueBound(r);
    EncodeUnique(|r|, Num(x) + Num(y), Value(r), carry);
    ValueUnique(r, Add(x, y));
    NormOfTrits(r);
  }

  /** The ripple loop adds modulo 3^32, and the carry left after trit 31 is the dropped one. */
  method AddTrs(x: Tr32, y: Tr32) returns (r: Tr32, ghost carry: int)
    ensures r == Add(x, y)
    ensures carry == DroppedCarry(x, y)
    ensures IsTrit(carry) && Num(r) + Pow3(32) * carry == Num(x) + Num(y)
  {
    var a, b, s, p0, p1 := new TritCell, new TritCell, new TritCell, new TritCell, new TritCell;
    var m := 0;
    r := *;
    p0.t := 0;
    p1.t := 0;
    for i := 0 to 32
      invariant m == i
      invariant Rippled(x, y, r, i, p0.t)
    {
      a.t := GetTrit32(x, i);
      b.t := GetTrit32(y, i);
      ghost var before, p := r, p0.t;
      SumT(a, b, p0, s, p1);
      RippleStep(x, y, before, i, p, s.t, p1.t);
      r := r[m := if s.t > 0 then 1 else if s.t < 0 then -1 else 0];
      assert r == before[i := s.t];
      m := m + 1;
      p0.t := p1.t;
      p1.t := 0;
    }
    carry := p0.t;
    RippleDone(x, y, r, carry);
  }

  /** The subtraction loop ripples x plus the negation of y. */
  ghost predicate RippledDown(x: Tr32, y: Tr32, r: Tr32, i: nat, carry: int)
    requires i <= 32
  {
    Rippled(x, Neg(y), r, i, carry)
  }

  lemma RippleDownStep(x: Tr32, y: Tr32, r: Tr32, i: nat,
                       carryIn: int, digit: int, carryOut: int)
    requires i < 32 && RippledDown(x, y, r, i, carryIn)
    requires IsTrit(digit) && IsTrit(carryOut)
    requires digit + 3 * carryOut == Sign(x[i]) - Sign(y[i]) + carryIn
    ensures RippledDown(x, y, r[i := digit], i + 1, carryOut)
  {
    assert Sign(Neg(y)[i]) == -Sign(y[i]);
    RippleStep(x, Neg(y), r, i, carryIn, digit, carryOut);
  }

  method SubTrs(x: Tr32, y: Tr32) returns (r: Tr32, ghost carry: int)
    ensures r == Sub(x, y)
    ensures IsTrit(carry) && Num(r) + Pow3(32) * carry == Num(x) - Num(y)
  {
    var a, b, s, p0, p1 := new TritCell, new TritCell, new TritCell, new TritCell, new TritCell;
    var m := 0;
    r := *;
    p0.t := 0;
    p1.t := 0;
    for i := 0 to 32
      invariant m == i
      invariant RippledDown(x, y, r, i, p0.t)
    {
      a.t := GetTrit32(x, i);
      b.t := GetTrit32(y, i);
      b.t := -b.t;
      ghost var before, p := r, p0.t;
      SumT(a, b, p0, s, p1);
      RippleDownStep(x, y, before, i, p, s.t, p1.t);
      r := r[m := if s.t > 0 then 1 else if s.t < 0 then -1 else 0];
      assert r == before[i := s.t];
      m := m + 1;
      p0.t := p1.t;
      p1.t := 0;
    }
    carry := p0.t;
    SubtractionDone(x, y, r, carry);
  }

  lemma SubtractionDone(x: Tr32, y: Tr32, r: Tr32, carry: int)
    requires RippledDown(x, y, r, 32, carry)
    ensures r == Sub(x, y)
    ensures IsTrit(carry) && Num(r) + Pow3(32) * carry == Num(x) - Num(y)
  {
    RippleDone(x, Neg(y), r, carry);
    SubIsAddNeg(x, y);
    NegNum(y);
  }

  method NotTrs(x: Tr32) returns (r: Tr32)
    ensures r == Neg(x)
  {
    r := *;
    for i := 0 to 32
      invariant forall k :: 0 <= k < i ==> r[k] == -x[k]
    {
      r := r[i := -x[i]];
    }
  }

  method NegTrs(x: Tr32) returns (r: Tr32)
    ensures r == Neg(x)
  {
    r := NotTrs(x);
  }

  lemma WholeWord(w: Tr32)
    ensures w[..32] == w
  {
  }

  // ---------------------------------------------------------------- conversions to C integers

  const INT64_MAX := 0x7FFF_FFFF_FFFF_FFFF

  lemma Pow3Of16()
    ensures Pow3(16) == 43046721
  {
    assert Pow3(4) == 81;
    assert Pow3(8) == 6561;
    assert Pow3(12) == 531441;
  }

  lemma Pow3Of39()
    ensures Pow3(32) == 1853020188851841
    ensures Pow3(39) == 4052555153018976267 <= INT64_MAX
  {
    Pow3Of16();
    assert Pow3(20) == 3486784401;
    assert Pow3(24) == 282429536481;
    assert Pow3(28) == 22876792454961;
    assert Pow3(32) == 1853020188851841;
    assert Pow3(36) == 150094635296999121;
  }

  /** An int64 holds the powers of three up to the 39th and no other. */
  lemma Pow3FitsInt64(x: nat)
    ensures Pow3(x) <= INT64_MAX <==> x <= 39
  {
    Pow3Of39();
    if x <= 39 {
      Pow3Monotone(x, 39);
    } else {
      Pow3Monotone(40, x);
    }
  }

  /** Powers of three by repeated multiplication, for the exponents whose power an int64 holds. */
  method Pow3Int64(x: int) returns (r: int)
    requires x <= 39
    ensures r == if x <= 0 then 1 else Pow3(x)
    ensures 1 <= r <= INT64_MAX
  {
    r := 1;
    if x == 0 {
      return;
    }
    var i := 0;
    while i < x
      invariant 0 <= i && (i <= x || i == 0)
      invariant r == Pow3(i)
      invariant r <= INT64_MAX
    {
      r := r * 3;
      i := i + 1;
      Pow3FitsInt64(i);
    }
  }

  lemma PartialSum(tr: Tr32, i: nat)
    requires i < 32
    ensures Value(Norm(tr)[..i + 1]) == Value(Norm(tr)[..i]) + Pow3(i) * Sign(tr[i])
    ensures -HalfRange(i + 1) <= Value(Norm(tr)[..i + 1]) <= HalfRange(i + 1)
  {
    ValuePrefix(Norm(tr), i);
    ValueBound(Norm(tr)[..i + 1]);
  }

  /** The number of a word. Every partial sum stays within (3^i - 1)/2, so no step overflows. */
  method Tr32ToInt64(tr: Tr32) returns (n: int)
    ensures n == Num(tr)
    ensures -926510094425920 <= n <= 926510094425920
  {
    n := 0;
    for i := 0 to 32
      invariant n == Value(Norm(tr)[..i])
      invariant -HalfRange(i) <= n <= HalfRange(i)
    {
      var x := GetTrit32(tr, i);
      PartialSum(tr, i);
      if x != 0 {
        var p := Pow3Int64(i);
        n := n + p * x;
      }
    }
    WholeWord(Norm(tr));
    Pow3Of39();
  }

  /** Conversion of a wider integer to int32: the low 32 bits, read in two's complement. */
  function ToInt32(v: int): (r: int)
    ensures -0x8000_0000 <= r < 0x8000_0000
  {
    (v + 0x8000_0000) % 0x1_0000_0000 - 0x8000_0000
  }

  /** It is the only number of 32 signed bits that differs from v by a multiple of 2^32. */
  lemma ToInt32Exact(v: int, r: int)
    ensures r == ToInt32(v) <==> -0x8000_0000 <= r < 0x8000_0000 && (v - r) % 0x1_0000_0000 == 0
  {
  }

  lemma ToInt32Absorbs(u: int, v: int)
    ensures ToInt32(ToInt32(u) + v) == ToInt32(u + v)
  {
  }

  /** tr16_to_int32 reads trits as stored, without taking their sign, and truncates each partial
      sum to 32 bits; the truncations only show in the final result. */
  method Tr16ToInt32(tr: Tr16) returns (n: int)
    ensures n == ToInt32(Value(tr))
  {
    n := 0;
    for i := 0 to 16
      invariant n == ToInt32(Value(tr[..i]))
    {
      var x := GetTrit16(tr, i);
      ValuePrefix(tr, i);
      if x != 0 {
        Pow3Monotone(i, 39);
        var p := Pow3Int64(i);
        ToInt32Absorbs(Value(tr[..i]), p * x);
        n := ToInt32(n + p * x);
      }
    }
    assert tr[..16] == tr;
  }

  /** On normalised trits the 16-trit conversion is exact. */
  lemma Tr16Exact(tr: Tr16)
    requires IsTrits(tr)
    ensures ToInt32(Value(tr)) == Value(tr) == Num(tr)
    ensures -21523360 <= Value(tr) <= 21523360
  {
    NormOfTrits(tr);
    ValueBound(tr);
    Pow3Of16();
  }

  // ---------------------------------------------------------------- the two result flags

  /** The lowest non-zero trit of a word, or 0 when there is none. */
  function LowestNonzero(w: seq<int>): (t: int) {
    if |w| == 0 then 0 else if Sign(w[0]) != 0 then Sign(w[0]) else LowestNonzero(w[1..])
  }

  /** The highest non-zero trit of a word, or 0 when there is none. */
  function HighestNonzero(w: seq<int>): (t: int) {
    if |w| == 0 then 0
    else if Sign(w[|w| - 1]) != 0 then Sign(w[|w| - 1])
    else HighestNonzero(w[..|w| - 1])
  }

  method TrsFlagZero(res: Tr32) returns (flag: int)
    ensures flag == 1 || flag == -1
    ensures flag == 1 <==> Norm(res) == Zeros(32)
  {
    var n := Tr32ToInt64(res);
    ZeroIsUnique(res);
    if n == 0 {
      flag := 1;
    } else {
      flag := -1;
    }
  }

  method TrsFlagSign(res: Tr32) returns (flag: int)
    ensures flag == LowestNonzero(res)
  {
    for i := 0 to 32
      invariant LowestNonzero(res) == LowestNonzero(res[i..])
    {
      var sng := GetTrit32(res, i);
      assert res[i..][0] == res[i] && res[i..][1..] == res[i + 1..];
      if sng != 0 {
        return sng;
      }
    }
    return 0;
  }

  lemma ZeroIsUnique(w: seq<int>)
    ensures Num(w) == 0 <==> Norm(w) == Zeros(|w|)
  {
    ValueZeros(|w|);
    if Num(w) == 0 {
      ValueUnique(Norm(w), Zeros(|w|));
    }
  }

  lemma ZeroSplits(w: seq<int>)
    requires |w| > 0
    ensures Norm(w) == Zeros(|w|) <==> Sign(w[0]) == 0 && Norm(w[1..]) == Zeros(|w| - 1)
  {
    assert Norm(w) == [Sign(w[0])] + Norm(w[1..]);
    assert Zeros(|w|) == [0] + Zeros(|w| - 1);
    assert Norm(w)[0] == Sign(w[0]) && Norm(w)[1..] == Norm(w[1..]);
    assert Zeros(|w|)[0] == 0 && Zeros(|w|)[1..] == Zeros(|w| - 1);
  }

  lemma {:induction false} LowestNonzeroZero(w: seq<int>)
    ensures LowestNonzero(w) == 0 <==> Norm(w) == Zeros(|w|)
  {
    if |w| == 0 {
    } else {
      LowestNonzeroZero(w[1..]);
      ZeroSplits(w);
    }
  }

  /** The two flag scans agree on zero, though one sums weighted trits and the other only scans. */
  lemma FlagsAgreeOnZero(w: seq<int>)
    ensures Num(w) == 0 <==> LowestNonzero(w) == 0
    ensures Num(w) == 0 <==> forall i :: 0 <= i < |w| ==> Sign(w[i]) == 0
  {
    ZeroIsUnique(w);
    LowestNonzeroZero(w);
    if forall i :: 0 <= i < |w| ==> Sign(w[i]) == 0 {
      assert Norm(w) == Zeros(|w|);
    } else {
      var i :| 0 <= i < |w| && Sign(w[i]) != 0;
      assert Norm(w)[i] != Zeros(|w|)[i];
    }
  }

  /** The sign of a number is its highest non-zero trit. */
  lemma {:induction false} HighestTritIsSign(w: seq<int>)
    ensures Sign(Num(w)) == HighestNonzero(w)
  {
    if |w| > 0 {
      var top := |w| - 1;
      SplitTop(w);
      if Sign(w[top]) == 0 {
        HighestTritIsSign(w[..top]);
      } else {
        TopTritDominates(HalfRange(top), Pow3(top), Num(w[..top]), Sign(w[top]));
      }
    }
  }

  lemma TopTritDominates(h: int, p: int, v: int, t: int)
    requires p == 2 * h + 1 && -h <= v <= h && IsTrit(t) && t != 0
    ensures Sign(v + p * t) == t
  {
  }

  /** Position lo holds the first non-zero trit counting from trit 0. */
  predicate IsLowest(w: seq<int>, lo: nat) {
    lo < |w| && Sign(w[lo]) != 0 && forall i :: 0 <= i < lo ==> Sign(w[i]) == 0
  }

  /** Position hi holds the last one. */
  predicate IsHighest(w: seq<int>, hi: nat) {
    hi < |w| && Sign(w[hi]) != 0 && forall i :: hi < i < |w| ==> Sign(w[i]) == 0
  }

  lemma {:induction false} LowestAt(w: seq<int>, lo: nat)
    requires IsLowest(w, lo)
    ensures LowestNonzero(w) == Sign(w[lo])
  {
    if lo == 0 {
    } else {
      assert Sign(w[0]) == 0;
      LowestAt(w[1..], lo - 1);
    }
  }

  lemma {:induction false} HighestAt(w: seq<int>, hi: nat)
    requires IsHighest(w, hi)
    ensures HighestNonzero(w) == Sign(w[hi])
  {
    if hi == |w| - 1 {
    } else {
      assert Sign(w[|w| - 1]) == 0;
      HighestAt(w[..|w| - 1], hi);
    }
  }

  /** Every word is zero or has a lowest and a highest non-zero trit. */
  lemma ZeroOrEnds(w: seq<int>) returns (lo: nat, hi: nat)
    ensures Norm(w) == Zeros(|w|) || (IsLowest(w, lo) && IsHighest(w, hi))
  {
    lo := 0;
    while lo < |w| && Sign(w[lo]) == 0
      invariant lo <= |w| && forall i :: 0 <= i < lo ==> Sign(w[i]) == 0
    {
      lo := lo + 1;
    }
    hi := 0;
    if lo < |w| {
      hi := |w| - 1;
      while Sign(w[hi]) == 0
        invariant lo <= hi < |w| && forall i :: hi < i < |w| ==> Sign(w[i]) == 0
        decreases hi
      {
        hi := hi - 1;
      }
    } else {
      assert Norm(w) == Zeros(|w|);
    }
  }

  /** trs_flag_sign scans from the low end: on a word that is not zero it is the sign of the number
      exactly when the trits at the two ends of the non-zero part are equal. */
  lemma FlagSignIsSign(w: seq<int>, lo: nat, hi: nat)
    requires IsLowest(w, lo) && IsHighest(w, hi)
    ensures LowestNonzero(w) == Sign(Num(w)) <==> Sign(w[lo]) == Sign(w[hi])
  {
    LowestAt(w, lo);
    HighestAt(w, hi);
    HighestTritIsSign(w);
  }

  /** On the word of the number 2 the flag is negative. */
  lemma FlagSignFails() returns (w: Tr32)
    ensures Num(w) == 2 && LowestNonzero(w) == -1
  {
    w := [-1, 1] + Zeros(30);
    assert Norm(w) == [-1, 1] + Zeros(30);
    ValueZeroFill([-1, 1], 30);
    assert Value([-1, 1]) == 2;
  }
}
