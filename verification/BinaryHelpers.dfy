/** The 16-bit helpers of the binary instruction set: field extraction, sign extension, flags. */
module BinaryHelpers {
  import opened Powers
  import opened Bits

  /** The number of mask bits for the positions s .. e of a 32-bit value. */
  function FieldWidth(s: int, e: int): (n: nat)
    ensures 1 <= n <= 32
  {
    if e <= s then 1 else if e - s >= 32 then 32 else e - s + 1
  }

  /** Field extraction. The result is a uint16, so a field wider than 16 bits is cut. */
  method GetBits(t: nat, s: nat, e: int) returns (r: nat)
    requires t < 0x1_0000_0000 && s < 32
    ensures r == Field(t, s, e)
  {
    var bitLen := e - s;
    var bitMask := 1;
    var i := 0;
    assert Pow2(32) == 0x1_0000_0000 by { Pow2Constants(); }
    while i < bitLen
      invariant 0 <= i && (i <= bitLen || i == 0)
      invariant bitMask == Pow2(FieldWidth(0, i)) - 1
    {
      MaskGrows(FieldWidth(0, i));
      bitMask := (bitMask * 2 + 1) % 0x1_0000_0000;
      i := i + 1;
    }
    assert FieldWidth(s, e) == FieldWidth(0, i);
    AndMask(Shr(t, s), FieldWidth(s, e));
    ShrIsDiv(t, s);
    r := And(Shr(t, s), bitMask) % 0x1_0000;
  }

  lemma Pow2Constants()
    ensures Pow2(15) == 0x8000 && Pow2(16) == 0x1_0000 && Pow2(32) == 0x1_0000_0000
  {
    assert Pow2(8) == 256;
    assert Pow2(15) == 0x8000;
    assert Pow2(24) == 0x100_0000;
  }

  /** One more mask bit, until the 32 bits are full. */
  lemma MaskGrows(n: nat)
    requires 1 <= n <= 32
    ensures ((Pow2(n) - 1) * 2 + 1) % 0x1_0000_0000 == Pow2(if n == 32 then 32 else n + 1) - 1
  {
    Pow2Constants();
    if n < 32 {
      Pow2Monotone(n + 1, 32);
    }
  }

  function Field(t: nat, s: nat, e: int): (r: nat) {
    t / Pow2(s) % Pow2(FieldWidth(s, e)) % 0x1_0000
  }

  /** A field of at most 16 bits is exact, a wider one is cut to 16 bits, and an end that is not above
      the start gives one bit. */
  lemma FieldExact(t: nat, s: nat, e: int)
    ensures Field(t, s, e) == t / Pow2(s) % (if e <= s then 2 else if e < s + 16 then Pow2(e - s + 1) else 0x1_0000)
  {
    var n := FieldWidth(s, e);
    Pow2Constants();
    assert Pow2(1) == 2;
    if n <= 16 {
      Pow2Monotone(n, 16);
    } else {
      Pow2Adds(16, n - 16);
      LowerModulus(t / Pow2(s), 0x1_0000, Pow2(n - 16));
    }
  }

  lemma FieldBit(t: nat, s: nat)
    ensures Field(t, s, s) == Bit(t, s)
  {
    ShrIsDiv(t, s);
    assert Pow2(1) == 2;
  }

  // ---------------------------------------------------------------- sign extension

  /** The signed number that the low b + 1 bits of t denote in two's complement. */
  function SignedLow(t: nat, b: nat): int {
    var u := t % Pow2(b + 1);
    if u >= Pow2(b) then u - Pow2(b + 1) else u
  }

  /** Ones from bit b up to bit n - 1. */
  function OnesAbove(b: nat, n: nat): (m: nat)
    requires b <= n
    ensures m + Pow2(b) == Pow2(n)
  {
    if b > 0 then 2 * OnesAbove(b - 1, n - 1) else if n > 0 then 2 * OnesAbove(0, n - 1) + 1 else 0
  }

  /** What sign_ext returns: the bits from the sign bit up to bit 15 are set when the sign bit is. */
  function SignExtended(t: nat, b: nat): nat {
    Or(t, if Bit(t, b) == 0 || b >= 16 then 0 else OnesAbove(b, 16)) % 0x1_0000
  }

  lemma OneMore(b: nat, n: nat)
    requires b <= n
    ensures Or(OnesAbove(b, n), Pow2(n)) == OnesAbove(b, n + 1)
  {
    OrDisjoint(OnesAbove(b, n), n, 1);
  }

  method SignExt(t: nat, signBit: nat) returns (r: nat)
    requires t < 0x1_0000_0000 && signBit < 32
    ensures r == SignExtended(t, signBit)
  {
    var signV := 0;
    var sign := GetBits(t, signBit, signBit);
    FieldBit(t, signBit);
    var i := signBit;
    while i < 16
      invariant signBit <= i && (i <= 16 || i == signBit)
      invariant signV == if sign == 0 then 0 else OnesAbove(signBit, i)
    {
      var shifted := if sign == 0 then 0 else Pow2(i);
      if sign != 0 {
        OneMore(signBit, i);
      }
      signV := Or(signV, shifted);
      i := i + 1;
    }
    r := Or(t, signV) % 0x1_0000;
  }

  lemma {:induction false} OrDisjoint(a: nat, k: nat, m: nat)
    requires a < Pow2(k)
    ensures Or(a, m * Pow2(k)) == a + m * Pow2(k)
    decreases k
  {
    if k == 0 {
      OrZero(m);
    } else {
      OrDisjoint(a / 2, k - 1, m);
      HalfOfDouble(m, Pow2(k - 1));
    }
  }

  lemma HalfOfDouble(m: nat, p: nat)
    ensures m * (2 * p) % 2 == 0 && m * (2 * p) / 2 == m * p
  {
    assert m * (2 * p) == 2 * (m * p);
  }

  lemma {:induction false} OrZero(m: nat)
    ensures Or(0, m) == m
  {
    if m == 0 {
    } else {
      OrZero(m / 2);
    }
  }

  /** The low b + 1 bits of t, split at bit b. */
  lemma SplitAtBit(t: nat, b: nat)
    ensures t % Pow2(b + 1) == t % Pow2(b) + Pow2(b) * Bit(t, b)
    ensures Bit(t, b) == 1 <==> t % Pow2(b + 1) >= Pow2(b)
  {
    var p := Pow2(b);
    var q := t / p;
    ShrIsDiv(t, b);
    SplitArithmetic(t, p, q, t % p, q / 2, q % 2);
  }

  lemma SplitArithmetic(t: nat, p: nat, q: nat, lo: nat, h: nat, bit: nat)
    requires p > 0 && t == p * q + lo && lo < p && q == 2 * h + bit && bit <= 1
    ensures t % (2 * p) == lo + p * bit
  {
    assert p * q == 2 * p * h + p * bit by {
      assert p * (2 * h) == 2 * p * h;
      Factor(p, 2 * h, bit);
    }
    assert 2 * p * (h + 1) == 2 * p * h + 2 * p;
    assert p * bit <= p;
    DivIs(t, 2 * p, h);
  }

  lemma OrDoubles(v: nat, m: nat)
    ensures Or(v, 2 * m) == v % 2 + 2 * Or(v / 2, m)
    ensures Or(v, 2 * m + 1) == 1 + 2 * Or(v / 2, m)
  {
    HalfOf(0, m);
    HalfOf(1, m);
    if m == 0 {
      assert Or(v / 2, 0) == v / 2;
    }
  }

  lemma LowStep(v: nat, bit: nat, half: nat, k: nat)
    requires v == bit + 2 * half && bit <= 1 && k > 0
    ensures Low(v, k) == bit + 2 * Low(half, k - 1)
  {
    HalfOf(bit, half);
  }

  lemma LowOrDoubles(v: nat, m: nat, k: nat)
    requires k > 0
    ensures Low(Or(v, 2 * m), k) == v % 2 + 2 * Low(Or(v / 2, m), k - 1)
    ensures Low(Or(v, 2 * m + 1), k) == 1 + 2 * Low(Or(v / 2, m), k - 1)
  {
    OrDoubles(v, m);
    LowStep(Or(v, 2 * m), v % 2, Or(v / 2, m), k);
    LowStep(Or(v, 2 * m + 1), 1, Or(v / 2, m), k);
  }

  lemma {:induction false} OrOnes(v: nat, k: nat)
    ensures Low(Or(v, OnesAbove(0, k)), k) == OnesAbove(0, k)
  {
    if k == 0 {
    } else {
      var m := OnesAbove(0, k - 1);
      OrOnes(v / 2, k - 1);
      LowOrDoubles(v, m, k);
      assert OnesAbove(0, k) == 2 * m + 1;
    }
  }

  lemma {:induction false} OrOnesAbove(t: nat, b: nat, n: nat)
    requires b <= n
    ensures Low(Or(t, OnesAbove(b, n)), n) == Low(t, b) + OnesAbove(b, n)
  {
    if b == 0 {
      OrOnes(t, n);
    } else {
      OrOnesAbove(t / 2, b - 1, n - 1);
      LowOrDoubles(t, OnesAbove(b - 1, n - 1), n);
    }
  }

  /** With the sign bit set, sign_ext puts ones above the low b bits. */
  lemma SignExtendedNegative(t: nat, b: nat)
    requires b < 16 && Bit(t, b) == 1
    ensures SignExtended(t, b) == t % Pow2(b) + 0x1_0000 - Pow2(b)
  {
    Pow2Constants();
    OrOnesAbove(t, b, 16);
    LowIsMod(t, b);
    LowIsMod(Or(t, OnesAbove(b, 16)), 16);
  }

  /** The result on every input: the bits above a set sign bit become ones; otherwise, and for a sign bit
      beyond 15, the low 16 bits stay. */
  lemma SignExtExact(t: nat, b: nat)
    ensures SignExtended(t, b)
         == if b < 16 && Bit(t, b) == 1 then t % Pow2(b) + 0x1_0000 - Pow2(b) else t % 0x1_0000
  {
    if b < 16 && Bit(t, b) == 1 {
      SignExtendedNegative(t, b);
    }
  }

  /** sign_ext widens the signed number in the low b + 1 bits to 16 bits, exactly when the sign bit
      is set or no bit of the low 16 lies above it: a stray high bit survives a clear sign bit. */
  lemma SignExtWidens(t: nat, b: nat)
    requires b < 16
    ensures SignedLow(SignExtended(t, b), 15) == SignedLow(t, b)
       <==> Bit(t, b) == 1 || t % 0x1_0000 < Pow2(b + 1)
  {
    Pow2Constants();
    Pow2Monotone(b, 15);
    SignedBySplit(t, b);
    if Bit(t, b) == 1 {
      SignExtendedNegative(t, b);
      SignedWord(SignExtended(t, b));
    } else {
      StrayBits(t, b);
      SignedWord(t % 0x1_0000);
    }
  }

  lemma SignedBySplit(t: nat, b: nat)
    ensures t % Pow2(b) < Pow2(b)
    ensures Bit(t, b) == 1 ==> SignedLow(t, b) == t % Pow2(b) - Pow2(b)
    ensures Bit(t, b) == 0 ==> SignedLow(t, b) == t % Pow2(b + 1) == t % Pow2(b)
  {
    SplitAtBit(t, b);
  }

  lemma StrayBits(t: nat, b: nat)
    requires b < 16
    ensures t % Pow2(b + 1) <= t % 0x1_0000
    ensures t % Pow2(b + 1) == t % 0x1_0000 <==> t % 0x1_0000 < Pow2(b + 1)
  {
    Pow2Constants();
    Pow2Adds(b + 1, 15 - b);
    LowerModulus(t, Pow2(b + 1), Pow2(15 - b));
    ResidueOfSmall(t % 0x1_0000, Pow2(b + 1));
  }

  lemma ResidueOfSmall(r: nat, m: nat)
    requires m > 0
    ensures r % m <= r && r % m < m
    ensures r % m == r <==> r < m
  {
    if r < m {
      DivIs(r, m, 0);
    } else {
      var q := r / m;
      assert r == m * q + r % m;
      assert q <= 0 ==> m * q <= 0;
      assert q >= 1 ==> m * q >= m;
    }
  }

  lemma SignedWord(r: nat)
    requires r < 0x1_0000
    ensures SignedLow(r, 15) == if r >= 0x8000 then r - 0x1_0000 else r
  {
    Pow2Constants();
  }

  /** Reducing modulo a multiple first does not change the smaller residue. */
  lemma LowerModulus(t: nat, m: nat, k: nat)
    requires m > 0 && k > 0
    ensures t % (m * k) % m == t % m
  {
    assert m * k > 0;
    var q, r := t / (m * k), t % (m * k);
    var d := r / m;
    assert t == m * (k * q + d) + r % m by {
      assert m * k * q == m * (k * q);
      Factor(m, k * q, d);
    }
    Factor(m, k * q + d, 1);
    DivIs(t, m, k * q + d);
  }

  /** A clear sign bit with a stray bit above it: the field of 2 up to bit 0 is 0, but 2 comes back. */
  lemma SignExtFails()
    ensures SignedLow(SignExtended(2, 0), 15) == 2 && SignedLow(2, 0) == 0
  {
    Pow2Constants();
    assert Pow2(1) == 2;
    assert Bit(2, 0) == 0;
    assert Or(2, 0) == 2;
    assert 2 % Pow2(0 + 1) == 0;
  }

  /** A value that fits in the field below its sign bit is always widened. */
  lemma SignExtOfField(t: nat, b: nat)
    requires b < 16 && t < Pow2(b + 1)
    ensures SignedLow(SignExtended(t, b), 15) == SignedLow(t, b)
  {
    Pow2Constants();
    Pow2Monotone(b + 1, 16);
    SignExtWidens(t, b);
  }

  // ---------------------------------------------------------------- flags

  function FlagSign(res: nat): nat {
    Field(res, 15, 15)
  }

  function FlagOverflow(s1: nat, s2: nat, res: nat): (flag: nat) {
    var s1Sign, s2Sign, resSign := Field(s1, 15, 15), Field(s2, 15, 15), Field(res, 15, 15);
    if s1Sign == s2Sign && s2Sign != resSign then 1 else 0
  }

  lemma TopBit(t: nat)
    ensures Field(t, 15, 15) == if t % 0x1_0000 >= 0x8000 then 1 else 0
    ensures SignedLow(t, 15) == if t % 0x1_0000 >= 0x8000 then t % 0x1_0000 - 0x1_0000 else t % 0x1_0000
  {
    Pow2Constants();
    FieldBit(t, 15);
    SplitAtBit(t, 15);
  }

  lemma FlagSignIsNegative(res: nat)
    ensures FlagSign(res) == if SignedLow(res, 15) < 0 then 1 else 0
  {
    TopBit(res);
  }

  /** The overflow flag of the masked 16-bit sum says exactly that the signed sum is out of range. */
  lemma FlagOverflowExact(a: nat, b: nat)
    ensures FlagOverflow(a, b, (a + b) % 0x1_0000)
         == if -0x8000 <= SignedLow(a, 15) + SignedLow(b, 15) < 0x8000 then 0 else 1
  {
    TopBit(a);
    TopBit(b);
    TopBit((a + b) % 0x1_0000);
    SumOfResidues(a, b);
  }

  lemma SumOfResidues(a: nat, b: nat)
    ensures var x, y, z := a % 0x1_0000, b % 0x1_0000, (a + b) % 0x1_0000;
            z % 0x1_0000 == z == if x + y >= 0x1_0000 then x + y - 0x1_0000 else x + y
  {
  }
}
