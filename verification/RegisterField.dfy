/** The register index that the load instruction decodes. The code sums 3 ^ (i * t) over the trits of
    the field, where ^ is C's exclusive-or. */
module RegisterField {
  import opened Words
  import opened Ternary

  /** 3 ^ v in two's complement: the two low bits are flipped and the others are kept. */
  function Xor3(v: int): (r: int)
    ensures r / 4 == v / 4 && r % 4 == 3 - v % 4
  {
    v + 3 - 2 * (v % 4)
  }

  /** The sum over the trits at positions s to e. */
  function XorSum(tr: Tr32, s: int, e: int): int
    requires 0 <= s
    decreases e - s
  {
    if e < s || e > 31 then 0 else XorSum(tr, s, e - 1) + Xor3(e * GetTrit32(tr, e))
  }

  /** The sum is taken from either end: one term for each position of the field. */
  lemma {:induction false} XorSumFront(tr: Tr32, s: nat, e: nat)
    requires s <= e <= 31
    ensures XorSum(tr, s, e) == Xor3(s * Sign(tr[s])) + if s < e then XorSum(tr, s + 1, e) else 0
    decreases e
  {
    if s == e {
      assert XorSum(tr, s, s - 1) == 0;
    } else {
      XorSumFront(tr, s, e - 1);
      if s == e - 1 {
        assert XorSum(tr, e, e - 1) == 0;
      }
    }
  }

  /** Invalid positions give zero. */
  method TrsGetTrits(tr: Tr32, s: int, e: int) returns (r: int)
    ensures r == if s < 0 || s > 31 || e < 0 || e > 31 || s > e then 0 else XorSum(tr, s, e)
  {
    r := 0;
    if s < 0 || s > 31 || e < 0 || e > 31 || s > e {
      return;
    }
    var i := s;
    while i <= e
      invariant s <= i <= e + 1
      invariant r == XorSum(tr, s, i - 1)
    {
      var t := GetTrit32(tr, i);
      r := r + Xor3(i * t);
      i := i + 1;
    }
  }

  /** The field of the destination register, cut to a byte. */
  function RegIndex(inst: Tr32): (r: nat)
    ensures r < 256
  {
    XorSum(inst, 7, 11) % 256
  }

  /** The number in the field. */
  function RegNumber(inst: Tr32): int {
    Num(inst[7..12])
  }

  /** What a trit adds to the sum, beyond the 3 that a zero trit gives. */
  function Excess(i: nat, t: int): int {
    if t == 0 then 0
    else if i == 7 then (if t > 0 then 1 else -9)
    else if i == 8 then (if t > 0 then 8 else -8)
    else if i == 9 then (if t > 0 then 7 else -15)
    else if i == 10 then (if t > 0 then 6 else -14)
    else (if t > 0 then 5 else -13)
  }

  lemma TermIsExcess(i: nat, t: int)
    requires 7 <= i <= 11 && IsTrit(t)
    ensures Xor3(i * t) == 3 + Excess(i, t)
  {
  }

  lemma SumIsExcess(inst: Tr32)
    ensures XorSum(inst, 7, 11) == 15 + Excess(7, Sign(inst[7])) + Excess(8, Sign(inst[8]))
                                   + Excess(9, Sign(inst[9])) + Excess(10, Sign(inst[10]))
                                   + Excess(11, Sign(inst[11]))
  {
    TermIsExcess(7, Sign(inst[7]));
    TermIsExcess(8, Sign(inst[8]));
    TermIsExcess(9, Sign(inst[9]));
    TermIsExcess(10, Sign(inst[10]));
    TermIsExcess(11, Sign(inst[11]));
    assert XorSum(inst, 7, 6) == 0;
    assert XorSum(inst, 7, 7) == XorSum(inst, 7, 6) + Xor3(7 * Sign(inst[7]));
    assert XorSum(inst, 7, 8) == XorSum(inst, 7, 7) + Xor3(8 * Sign(inst[8]));
    assert XorSum(inst, 7, 9) == XorSum(inst, 7, 8) + Xor3(9 * Sign(inst[9]));
    assert XorSum(inst, 7, 10) == XorSum(inst, 7, 9) + Xor3(10 * Sign(inst[10]));
  }

  /** The index on every word: 15, what each trit of the field adds, and the cut to a byte. */
  lemma IndexExactly(inst: Tr32)
    ensures RegIndex(inst) == (15 + Excess(7, Sign(inst[7])) + Excess(8, Sign(inst[8]))
                                  + Excess(9, Sign(inst[9])) + Excess(10, Sign(inst[10]))
                                  + Excess(11, Sign(inst[11]))) % 256
  {
    SumIsExcess(inst);
  }

  lemma NumberOfFive(inst: Tr32)
    ensures RegNumber(inst) == Sign(inst[7]) + 3 * Sign(inst[8]) + 9 * Sign(inst[9])
                               + 27 * Sign(inst[10]) + 81 * Sign(inst[11])
  {
    var a, b, c, d, e := Sign(inst[7]), Sign(inst[8]), Sign(inst[9]), Sign(inst[10]), Sign(inst[11]);
    assert Norm(inst[7..12]) == [a, b, c, d, e];
    ValueOfFive(a, b, c, d, e);
  }

  lemma ValueOfFive(a: int, b: int, c: int, d: int, e: int)
    ensures Value([a, b, c, d, e]) == a + 3 * b + 9 * c + 27 * d + 81 * e
  {
    assert [a, b, c, d, e][1..] == [b, c, d, e];
    assert [b, c, d, e][1..] == [c, d, e];
    assert [c, d, e][1..] == [d, e];
    assert [d, e][1..] == [e];
    assert Value([e]) == e;
    assert Value([d, e]) == d + 3 * e;
    assert Value([c, d, e]) == c + 3 * d + 9 * e;
  }

  /** The decoded index is the number in the field, cut to a byte, for one field only: that of 5. */
  lemma IndexIsNumberOnlyForFive(inst: Tr32)
    ensures RegIndex(inst) == RegNumber(inst) % 256 <==> RegNumber(inst) == 5
  {
    SumIsExcess(inst);
    NumberOfFive(inst);
    OnlyFive(RegNumber(inst), XorSum(inst, 7, 11),
             Sign(inst[7]), Sign(inst[8]), Sign(inst[9]), Sign(inst[10]), Sign(inst[11]));
  }

  /** A word with -3 in the field decodes to register 7. */
  lemma IndexFails() returns (inst: Tr32)
    ensures RegNumber(inst) == -3 && RegIndex(inst) == 7
  {
    inst := Zeros(8) + [-1] + Zeros(23);
    assert Sign(inst[7]) == 0 && Sign(inst[8]) == -1;
    IndexExactly(inst);
    NumberOfFive(inst);
  }

  lemma OnlyFive(n: int, s: int, a: int, b: int, c: int, d: int, e: int)
    requires IsTrit(a) && IsTrit(b) && IsTrit(c) && IsTrit(d) && IsTrit(e)
    requires n == a + 3 * b + 9 * c + 27 * d + 81 * e
    requires s == 15 + Excess(7, a) + Excess(8, b) + Excess(9, c) + Excess(10, d) + Excess(11, e)
    ensures s % 256 == n % 256 <==> n == 5
  {
    Bytes(s, n);
  }

  lemma Bytes(s: int, n: int)
    requires -44 <= s <= 42 && -121 <= n <= 121
    ensures s % 256 == n % 256 <==> s == n
  {
  }

  /** On the word of a binary instruction only the zero field names a register, and that is 15. */
  lemma IndexOfBinaryField(inst: Tr32)
    requires forall i :: 7 <= i <= 11 ==> 0 <= Sign(inst[i])
    ensures if RegNumber(inst) == 0 then RegIndex(inst) == 15 else 16 <= RegIndex(inst) <= 42
  {
    SumIsExcess(inst);
    NumberOfFive(inst);
    BinarySum(RegNumber(inst), XorSum(inst, 7, 11),
              Sign(inst[7]), Sign(inst[8]), Sign(inst[9]), Sign(inst[10]), Sign(inst[11]));
  }

  lemma BinarySum(n: int, s: int, a: int, b: int, c: int, d: int, e: int)
    requires 0 <= a <= 1 && 0 <= b <= 1 && 0 <= c <= 1 && 0 <= d <= 1 && 0 <= e <= 1
    requires n == a + 3 * b + 9 * c + 27 * d + 81 * e
    requires s == 15 + Excess(7, a) + Excess(8, b) + Excess(9, c) + Excess(10, d) + Excess(11, e)
    ensures s % 256 == s && if n == 0 then s == 15 else 16 <= s <= 42
  {
  }
}
