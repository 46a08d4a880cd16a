/** Unsigned C integers as naturals: shifts, masks and single bits, and the conversions between
    binary numbers and words. */
module Bits {
  import opened Powers
  import opened Words

  /** v >> k */
  function Shr(v: nat, k: nat): nat {
    if k == 0 then v else Shr(v / 2, k - 1)
  }

  function Bit(v: nat, i: nat): (b: nat)
    ensures b <= 1
  {
    Shr(v, i) % 2
  }

  /** Bitwise a & b. */
  function And(a: nat, b: nat): (r: nat)
    ensures r <= a && r <= b
  {
    if a == 0 || b == 0 then 0 else (if a % 2 == 1 && b % 2 == 1 then 1 else 0) + 2 * And(a / 2, b / 2)
  }

  /** Bitwise a | b. */
  function Or(a: nat, b: nat): (r: nat)
    ensures a <= r <= a + b
  {
    if b == 0 then a
    else (if a % 2 == 1 || b % 2 == 1 then 1 else 0) + 2 * Or(a / 2, b / 2)
  }

  lemma {:induction false} ShrIsDiv(v: nat, k: nat)
    ensures Shr(v, k) == v / Pow2(k)
  {
    if k == 0 {
    } else {
      ShrIsDiv(v / 2, k - 1);
      DivTwice(v, Pow2(k - 1));
    }
  }

  lemma DivTwice(v: nat, m: nat)
    requires m > 0
    ensures v / 2 / m == v / (2 * m)
  {
    var q, r := v / 2 / m, v / 2 % m;
    assert v / 2 == m * q + r;
    assert 2 * m * q <= v < 2 * m * (q + 1) by {
      assert 2 * (m * q) == 2 * m * q;
      assert 2 * m * (q + 1) == 2 * (m * q) + 2 * m;
    }
    DivIs(v, 2 * m, q);
  }

  lemma {:induction false} ShrStep(v: nat, k: nat)
    ensures Shr(v, k + 1) == Shr(v, k) / 2
  {
    if k == 0 {
    } else {
      ShrStep(v / 2, k - 1);
    }
  }

  lemma {:induction false} ShrSmall(v: nat, k: nat)
    requires v < Pow2(k)
    ensures Shr(v, k) == 0
  {
    if k == 0 {
    } else {
      ShrSmall(v / 2, k - 1);
    }
  }

  lemma BitOfZero(i: nat)
    ensures Bit(0, i) == 0
  {
    ShrSmall(0, i);
  }

  lemma AndHalves(a: nat, b: nat)
    ensures And(a, b) / 2 == And(a / 2, b / 2)
    ensures And(a, b) % 2 == if a % 2 == 1 && b % 2 == 1 then 1 else 0
  {
  }

  lemma {:induction false} BitOfAnd(a: nat, b: nat, i: nat)
    ensures Bit(And(a, b), i) == if Bit(a, i) == 1 && Bit(b, i) == 1 then 1 else 0
  {
    AndHalves(a, b);
    if i == 0 {
    } else {
      BitOfAnd(a / 2, b / 2, i - 1);
    }
  }

  lemma OrHalves(a: nat, b: nat)
    ensures Or(a, b) / 2 == Or(a / 2, b / 2)
    ensures Or(a, b) % 2 == if a % 2 == 1 || b % 2 == 1 then 1 else 0
  {
  }

  lemma {:induction false} BitOfOr(a: nat, b: nat, i: nat)
    ensures Bit(Or(a, b), i) == if Bit(a, i) == 1 || Bit(b, i) == 1 then 1 else 0
  {
    OrHalves(a, b);
    if i == 0 {
    } else {
      BitOfOr(a / 2, b / 2, i - 1);
    }
  }

  lemma {:induction false} BitOfPow2(i: nat, k: nat)
    ensures Bit(Pow2(i), k) == if i == k then 1 else 0
  {
    if k == 0 {
    } else if i == 0 {
      BitOfZero(k - 1);
    } else {
      BitOfPow2(i - 1, k - 1);
    }
  }

  lemma {:induction false} OrBelow(a: nat, b: nat, n: nat)
    requires a < Pow2(n) && b < Pow2(n)
    ensures Or(a, b) < Pow2(n)
  {
    if n == 0 || b == 0 {
    } else {
      OrBelow(a / 2, b / 2, n - 1);
    }
  }

  /** Numbers of n bits with the same bits are equal. */
  lemma {:induction false} SameBits(a: nat, b: nat, n: nat)
    requires a < Pow2(n) && b < Pow2(n)
    requires forall i :: 0 <= i < n ==> Bit(a, i) == Bit(b, i)
    ensures a == b
  {
    if n == 0 {
    } else {
      forall i | 0 <= i < n - 1
        ensures Bit(a / 2, i) == Bit(b / 2, i)
      {
        assert Bit(a, i + 1) == Bit(b, i + 1);
      }
      SameBits(a / 2, b / 2, n - 1);
      assert Bit(a, 0) == Bit(b, 0);
    }
  }

  lemma {:induction false} BitOfComplement(v: nat, n: nat, i: nat)
    requires v < Pow2(n) && i < n
    ensures Bit(Pow2(n) - 1 - v, i) == 1 - Bit(v, i)
  {
    if i == 0 {
    } else {
      assert (Pow2(n) - 1 - v) / 2 == Pow2(n - 1) - 1 - v / 2;
      BitOfComplement(v / 2, n - 1, i - 1);
    }
  }

  /** The test v & (1 << i) singles out bit i. */
  lemma {:induction false} AndPow2(v: nat, i: nat)
    ensures And(v, Pow2(i)) > 0 <==> Bit(v, i) == 1
  {
    if v == 0 {
      BitOfZero(i);
    } else if i > 0 {
      AndPow2(v / 2, i - 1);
    }
  }

  lemma AndOne(v: nat)
    ensures And(v, 1) == v % 2
  {
    assert And(v / 2, 0) == 0;
  }

  /** The low k bits of v. */
  function Low(v: nat, k: nat): (r: nat)
    ensures r < Pow2(k)
  {
    if k == 0 then 0 else v % 2 + 2 * Low(v / 2, k - 1)
  }

  lemma {:induction false} LowIsMod(v: nat, k: nat)
    ensures Low(v, k) == v % Pow2(k)
  {
    if k == 0 {
    } else {
      LowIsMod(v / 2, k - 1);
      ModTwice(v, Pow2(k - 1));
    }
  }

  /** Masking with k ones is reduction modulo 2^k. */
  lemma AndMask(v: nat, k: nat)
    ensures And(v, Pow2(k) - 1) == v % Pow2(k)
  {
    AndOnes(v, k);
    LowIsMod(v, k);
  }

  lemma {:induction false} AndOnes(v: nat, k: nat)
    ensures And(v, Pow2(k) - 1) == Low(v, k)
  {
    if v == 0 {
      LowOfZero(k);
    } else if k > 0 {
      AndOnes(v / 2, k - 1);
      assert (Pow2(k) - 1) / 2 == Pow2(k - 1) - 1;
    }
  }

  lemma {:induction false} LowOfZero(k: nat)
    ensures Low(0, k) == 0
  {
    if k == 0 {
    } else {
      LowOfZero(k - 1);
    }
  }

  lemma ModTwice(v: nat, m: nat)
    requires m > 0
    ensures v % (2 * m) == v % 2 + 2 * (v / 2 % m)
  {
    var q, r := v / 2 / m, v / 2 % m;
    assert v / 2 == m * q + r;
    assert v == 2 * m * q + (2 * r + v % 2) by {
      assert 2 * (m * q) == 2 * m * q;
    }
    assert 2 * m * (q + 1) == 2 * m * q + 2 * m;
    DivIs(v, 2 * m, q);
  }

  // ---------------------------------------------------------------- binary numbers and words

  /** The word whose trit i is bit i of v. */
  function BitTrits(n: nat, v: nat): (w: seq<int>)
    ensures |w| == n
    ensures forall i :: 0 <= i < n ==> w[i] == Bit(v, i)
    ensures IsTrits(w)
  {
    seq(n, i requires 0 <= i < n => Bit(v, i) as int)
  }

  /** The binary digits of v, read in base 3. */
  function InBase3(v: nat): int {
    if v == 0 then 0 else v % 2 + 3 * InBase3(v / 2)
  }

  /** The word of a binary number denotes its digits read in base 3. */
  lemma {:induction false} ValueOfBits(n: nat, v: nat)
    requires v < Pow2(n)
    ensures Value(BitTrits(n, v)) == InBase3(v)
  {
    if n == 0 {
    } else {
      assert BitTrits(n, v)[1..] == BitTrits(n - 1, v / 2);
      assert BitTrits(n, v)[0] == v % 2;
      ValueOfBits(n - 1, v / 2);
    }
  }

  /** The binary number with a one at each position where the trit of w is t. */
  function Plane(w: seq<int>, t: int): (v: nat)
    ensures v < Pow2(|w|)
  {
    if |w| == 0 then 0 else (if w[0] == t then 1 else 0) + 2 * Plane(w[1..], t)
  }

  lemma {:induction false} BitOfPlane(w: seq<int>, t: int, i: nat)
    requires i < |w|
    ensures Bit(Plane(w, t), i) == if w[i] == t then 1 else 0
  {
    var rest := Plane(w[1..], t);
    HalfOf(if w[0] == t then 1 else 0, rest);
    if i == 0 {
    } else {
      BitOfPlane(w[1..], t, i - 1);
      assert Bit(Plane(w, t), i) == Bit(rest, i - 1);
    }
  }

  lemma HalfOf(b: nat, rest: nat)
    requires b <= 1
    ensures (b + 2 * rest) / 2 == rest && (b + 2 * rest) % 2 == b
  {
  }

  /** Reading a binary number back from its word. */
  lemma BinaryRoundTrip(n: nat, v: nat)
    requires v < Pow2(n)
    ensures Plane(BitTrits(n, v), 1) == v
  {
    var w := BitTrits(n, v);
    forall i | 0 <= i < n
      ensures Bit(Plane(w, 1), i) == Bit(v, i)
    {
      BitOfPlane(w, 1, i);
    }
    SameBits(Plane(w, 1), v, n);
  }

  /** The other direction loses the minus trits: it is exact just on words of zeros and ones. */
  lemma BinaryWords(w: seq<int>)
    ensures BitTrits(|w|, Plane(w, 1)) == w <==> forall i :: 0 <= i < |w| ==> w[i] == 0 || w[i] == 1
  {
    var u := BitTrits(|w|, Plane(w, 1));
    forall i | 0 <= i < |w|
      ensures u[i] == if w[i] == 1 then 1 else 0
    {
      BitOfPlane(w, 1, i);
    }
    if forall i :: 0 <= i < |w| ==> w[i] == 0 || w[i] == 1 {
      assert forall i :: 0 <= i < |w| ==> u[i] == w[i];
    }
  }

  method Uint8ToTr8(rt: array<int>, v: nat)
    requires rt.Length == 8 && v < 256
    modifies rt
    ensures rt[..] == BitTrits(8, v)
  {
    for i := 0 to 8
      invariant forall k :: 0 <= k < i ==> rt[k] == Bit(v, k)
    {
      AndPow2(v, i);
      if And(v, Pow2(i)) > 0 {
        rt[i] := 1;
      } else {
        rt[i] := 0;
      }
    }
  }

  method Uint16ToTr16(rt: array<int>, v: nat)
    requires rt.Length == 16 && v < 0x1_0000
    modifies rt
    ensures rt[..] == BitTrits(16, v)
  {
    for i := 0 to 16
      invariant forall k :: 0 <= k < i ==> rt[k] == Bit(v, k)
    {
      AndPow2(v, i);
      if And(v, Pow2(i)) > 0 {
        rt[i] := 1;
      } else {
        rt[i] := 0;
      }
    }
  }

  method Uint32ToTr32(rt: array<int>, v: nat)
    requires rt.Length == 32 && v < 0x1_0000_0000
    modifies rt
    ensures rt[..] == BitTrits(32, v)
  {
    for i := 0 to 32
      invariant forall k :: 0 <= k < i ==> rt[k] == Bit(v, k)
    {
      AndPow2(v, i);
      if And(v, Pow2(i)) > 0 {
        rt[i] := 1;
      } else {
        rt[i] := 0;
      }
    }
  }

  function Getbool(t: int): (b: int) {
    if t == 1 then 1 else 0
  }

  /** r with bit i of an n-bit number set or cleared, as the two masks of the source do it. */
  function PutBit(n: nat, r: nat, i: nat, on: bool): (q: nat)
    requires i < n && r < Pow2(n)
    ensures q < Pow2(n)
  {
    Pow2Monotone(i, n - 1);
    if on then OrBelow(r, Pow2(i), n); Or(r, Pow2(i)) else And(r, Pow2(n) - 1 - Pow2(i))
  }

  lemma {:induction false} BitOfPutBit(n: nat, r: nat, i: nat, on: bool, k: nat)
    requires i < n && k < n && r < Pow2(n)
    ensures Bit(PutBit(n, r, i, on), k) == if k == i then (if on then 1 else 0) else Bit(r, k)
  {
    Pow2Monotone(i, n - 1);
    BitOfPow2(i, k);
    BitOfOr(r, Pow2(i), k);
    BitOfAnd(r, Pow2(n) - 1 - Pow2(i), k);
    BitOfComplement(Pow2(i), n, k);
  }

  /** The accumulator starts uninitialised, yet every bit is written, so the result is determined. */
  method TritsToUint8(ts: Tr8) returns (r: nat)
    ensures r == Plane(ts, 1) < 256
  {
    assert Pow2(8) == 256;
    r :| r < 256;
    for i := 0 to 8
      invariant r < Pow2(8)
      invariant forall k :: 0 <= k < i ==> Bit(r, k) == if ts[k] == 1 then 1 else 0
    {
      var q := PutBit(8, r, i, Getbool(ts[i]) > 0);
      forall k | 0 <= k < 8
        ensures Bit(q, k) == if k == i then (if ts[i] == 1 then 1 else 0) else Bit(r, k)
      {
        BitOfPutBit(8, r, i, Getbool(ts[i]) > 0, k);
      }
      r := q;
    }
    forall k | 0 <= k < 8
      ensures Bit(r, k) == Bit(Plane(ts, 1), k)
    {
      BitOfPlane(ts, 1, k);
    }
    SameBits(r, Plane(ts, 1), 8);
  }

  method TritsToUint16(ts: Tr16) returns (r: nat)
    ensures r == Plane(ts, 1) < 0x1_0000
  {
    assert Pow2(8) == 256;
    assert Pow2(16) == 0x1_0000;
    r := 0;
    for i := 0 to 16
      invariant r < Pow2(16)
      invariant forall k :: 0 <= k < i ==> Bit(r, k) == if ts[k] == 1 then 1 else 0
    {
      var q := PutBit(16, r, i, Getbool(ts[i]) > 0);
      forall k | 0 <= k < 16
        ensures Bit(q, k) == if k == i then (if ts[i] == 1 then 1 else 0) else Bit(r, k)
      {
        BitOfPutBit(16, r, i, Getbool(ts[i]) > 0, k);
      }
      r := q;
    }
    forall k | 0 <= k < 16
      ensures Bit(r, k) == Bit(Plane(ts, 1), k)
    {
      BitOfPlane(ts, 1, k);
    }
    SameBits(r, Plane(ts, 1), 16);
  }
}
