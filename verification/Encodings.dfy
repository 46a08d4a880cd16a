/** The entries of the decode tables as conditions on the numbers in an instruction: opcode in bits 0
    to 6, funct3 in bits 12 to 14, and the six bits from 15 up that some entries fix. */
module Encodings {
  import opened Powers
  import opened Words
  import opened Bits
  import opened Dispatch
  import opened Decoder

  // ---------------------------------------------------------------- bits as numbers

  /** Reading binary digits in base 3 loses nothing. */
  lemma {:induction false} InBase3Unique(x: nat, y: nat)
    ensures InBase3(x) == InBase3(y) <==> x == y
  {
    if x == 0 && y == 0 {
    } else if InBase3(x) == InBase3(y) {
      assert x % 2 - y % 2 == 3 * (InBase3(y / 2) - InBase3(x / 2));
      InBase3Unique(x / 2, y / 2);
    }
  }

  /** n bits of v from bit lo up. */
  function BitField(v: nat, lo: nat, n: nat): nat {
    Low(Shr(v, lo), n)
  }

  lemma {:induction false} BitOfShr(v: nat, lo: nat, i: nat)
    ensures Bit(Shr(v, lo), i) == Bit(v, lo + i)
  {
    if lo == 0 {
    } else {
      BitOfShr(v / 2, lo - 1, i);
    }
  }

  lemma {:induction false} BitOfLow(v: nat, n: nat, i: nat)
    requires i < n
    ensures Bit(Low(v, n), i) == Bit(v, i)
  {
    HalfOf(v % 2, Low(v / 2, n - 1));
    if i == 0 {
    } else {
      BitOfLow(v / 2, n - 1, i - 1);
    }
  }

  /** A field of the word of v holds the bits of v there, read in base 3. */
  lemma FieldOfBits(v: nat, lo: nat, n: nat)
    requires lo + n <= 32
    ensures FieldNumber(BitTrits(32, v), lo, n) == InBase3(BitField(v, lo, n))
  {
    var x := BitField(v, lo, n);
    forall i | 0 <= i < n
      ensures BitTrits(32, v)[lo..lo + n][i] == BitTrits(n, x)[i]
    {
      BitOfLow(Shr(v, lo), n, i);
      BitOfShr(v, lo, i);
    }
    assert BitTrits(32, v)[lo..lo + n] == BitTrits(n, x);
    ValueOfBits(n, x);
  }

  lemma FieldIs(v: nat, lo: nat, n: nat, code: nat, number: int)
    requires lo + n <= 32 && number == InBase3(code)
    ensures FieldNumber(BitTrits(32, v), lo, n) == number <==> BitField(v, lo, n) == code
  {
    FieldOfBits(v, lo, n);
    InBase3Unique(BitField(v, lo, n), code);
  }

  lemma FieldDivMod(v: nat, lo: nat, n: nat)
    ensures BitField(v, lo, n) == v / Pow2(lo) % Pow2(n)
  {
    ShrIsDiv(v, lo);
    LowIsMod(Shr(v, lo), n);
  }

  lemma Weights()
    ensures Pow2(0) == 1 && Pow2(1) == 2 && Pow2(3) == 8 && Pow2(5) == 32 && Pow2(7) == 128
    ensures Pow2(12) == 0x1000 && Pow2(15) == 0x8000 && Pow2(20) == 0x10_0000
  {
    assert Pow2(4) == 16;
    assert Pow2(8) == 256;
    assert Pow2(16) == 0x1_0000;
  }

  predicate Opcode(v: nat, opcode: nat) {
    v % 128 == opcode
  }

  predicate OpcodeFunct3(v: nat, opcode: nat, funct3: nat) {
    v % 128 == opcode && v / 0x1000 % 8 == funct3
  }

  /** Bit 20 is clear, and the five bits from 15 up hold k. */
  predicate FixedBits(v: nat, k: nat) {
    v / 0x10_0000 % 2 == 0 && v / 0x8000 % 32 == k
  }

  // ---------------------------------------------------------------- one entry

  lemma OpcodeIs(v: nat, code: nat, number: int)
    requires number == InBase3(code)
    ensures OpcodeNumber(BitTrits(32, v)) == number <==> Opcode(v, code)
  {
    Weights();
    FieldIs(v, 0, 7, code, number);
    FieldDivMod(v, 0, 7);
  }

  lemma Funct3Is(v: nat, code: nat, number: int)
    requires number == InBase3(code)
    ensures Funct3Number(BitTrits(32, v)) == number <==> v / 0x1000 % 8 == code
  {
    Weights();
    FieldIs(v, 12, 3, code, number);
    FieldDivMod(v, 12, 3);
  }

  lemma FixedBitsAre(v: nat, code: nat, number: int)
    requires number == InBase3(code)
    ensures BitTrits(32, v)[20] == 0 && Rs1Number(BitTrits(32, v)) == number <==> FixedBits(v, code)
  {
    Weights();
    FieldIs(v, 15, 5, code, number);
    FieldDivMod(v, 15, 5);
    ShrIsDiv(v, 20);
  }

  lemma BitHitIsNumbers(v: nat, i: nat)
    requires i < 37
    ensures BitHit(v, i) <==> RowAsks(BitTrits(32, v), i)
  {
    HitsAgree(v, i);
    HitIsNumbers(BitTrits(32, v), i);
    NormOfTrits(BitTrits(32, v));
  }

  // ---------------------------------------------------------------- the codes of the rows

  const OPCODES: seq<nat> := [
    0x03, 0x03, 0x03, 0x03, 0x03, 0x13, 0x13, 0x13, 0x13, 0x13, 0x13, 0x13, 0x13, 0x13,
    0x17, 0x23, 0x13, 0x13, 0x33, 0x33, 0x33, 0x33, 0x33, 0x33, 0x33, 0x33, 0x33, 0x33,
    0x37, 0x63, 0x63, 0x63, 0x63, 0x63, 0x63, 0x67, 0x6F
  ]

  const FUNCT3S: seq<nat> := [
    0, 1, 2, 4, 5, 0, 1, 2, 3, 4, 5, 2, 6, 7,
    0, 0, 1, 2, 0, 0, 1, 2, 3, 4, 5, 5, 6, 7,
    0, 0, 1, 4, 5, 6, 7, 0, 0
  ]

  /** The fixed bits of an entry that has some. */
  function FixedCode(i: nat): nat {
    if RowRs1(i) == 81 then 16 else 0
  }

  lemma SmallCodes()
    ensures InBase3(0) == 0 && InBase3(1) == 1 && InBase3(2) == 3 && InBase3(3) == 4
    ensures InBase3(4) == 9 && InBase3(5) == 10 && InBase3(6) == 12 && InBase3(7) == 13
  {
  }

  lemma MiddleCodes()
    ensures InBase3(16) == 81 && InBase3(0x13) == 85 && InBase3(0x17) == 94 && InBase3(0x23) == 247
  {
    assert InBase3(8) == 27 && InBase3(9) == 28 && InBase3(11) == 31 && InBase3(17) == 82;
  }

  lemma LargeCodes()
    ensures InBase3(0x33) == 328 && InBase3(0x37) == 337
    ensures InBase3(0x63) == 976 && InBase3(0x67) == 985 && InBase3(0x6F) == 1012
  {
    assert InBase3(12) == 36 && InBase3(13) == 37;
    assert InBase3(24) == 108 && InBase3(25) == 109 && InBase3(27) == 112;
    assert InBase3(49) == 325 && InBase3(51) == 328 && InBase3(55) == 337;
  }

  lemma OpcodesOfRows()
    ensures |OPCODES| == 37
    ensures forall i :: 0 <= i < 37 ==> RowOpcode(i) == InBase3(OPCODES[i])
  {
    SmallCodes();
    MiddleCodes();
    LargeCodes();
  }

  lemma Funct3sOfRows()
    ensures |FUNCT3S| == 37 == |ROW_FUNCT3|
    ensures forall i :: 0 <= i < 37 ==> ROW_FUNCT3[i] == InBase3(FUNCT3S[i])
  {
    SmallCodes();
  }

  lemma FixedOfRow(i: nat)
    ensures RowRs1(i) == InBase3(FixedCode(i))
  {
    SmallCodes();
    MiddleCodes();
  }

  // ---------------------------------------------------------------- all entries

  lemma EntryIs(v: nat, i: nat)
    requires i < 37
    ensures |OPCODES| == 37 == |FUNCT3S|
    ensures BitHit(v, i) <==>
              && Opcode(v, OPCODES[i])
              && (OpcodeAlone(i) || v / 0x1000 % 8 == FUNCT3S[i])
              && (FixesRs1(i) ==> FixedBits(v, FixedCode(i)))
  {
    OpcodesOfRows();
    Funct3sOfRows();
    FixedOfRow(i);
    BitHitIsNumbers(v, i);
    OpcodeIs(v, OPCODES[i], RowOpcode(i));
    Funct3Is(v, FUNCT3S[i], ROW_FUNCT3[i]);
    FixedBitsAre(v, FixedCode(i), RowRs1(i));
  }

  lemma FreeEntry(v: nat, i: nat, opcode: nat, funct3: nat)
    requires i < 37 && |OPCODES| == 37 == |FUNCT3S| && OPCODES[i] == opcode && FUNCT3S[i] == funct3
    requires !OpcodeAlone(i) && !FixesRs1(i)
    ensures BitHit(v, i) <==> OpcodeFunct3(v, opcode, funct3)
  {
    EntryIs(v, i);
  }

  lemma FixedEntry(v: nat, i: nat, opcode: nat, funct3: nat, code: nat)
    requires i < 37 && |OPCODES| == 37 == |FUNCT3S| && OPCODES[i] == opcode && FUNCT3S[i] == funct3
    requires !OpcodeAlone(i) && FixesRs1(i) && FixedCode(i) == code
    ensures BitHit(v, i) <==> OpcodeFunct3(v, opcode, funct3) && FixedBits(v, code)
  {
    EntryIs(v, i);
  }

  lemma AloneEntry(v: nat, i: nat, opcode: nat)
    requires i < 37 && |OPCODES| == 37 && OPCODES[i] == opcode && OpcodeAlone(i) && !FixesRs1(i)
    ensures BitHit(v, i) <==> Opcode(v, opcode)
  {
    EntryIs(v, i);
  }

  /** Opcode 0x03: LB, LH, LW, LBU, LHU. */
  lemma LoadEntries(v: nat)
    ensures var rows, funct3s := [0, 1, 2, 3, 4], [0, 1, 2, 4, 5];
            forall k :: 0 <= k < 5 ==> (BitHit(v, rows[k]) <==> OpcodeFunct3(v, 0x03, funct3s[k]))
  {
    var rows, funct3s := [0, 1, 2, 3, 4], [0, 1, 2, 4, 5];
    forall k | 0 <= k < 5
      ensures BitHit(v, rows[k]) <==> OpcodeFunct3(v, 0x03, funct3s[k])
    {
      FreeEntry(v, rows[k], 0x03, funct3s[k]);
    }
  }

  /** Opcode 0x13: ADDI, SLTI, SLTIU, XORI, ORI, ANDI. */
  lemma ImmediateEntries(v: nat)
    ensures var rows, funct3s := [5, 7, 8, 9, 12, 13], [0, 2, 3, 4, 6, 7];
            forall k :: 0 <= k < 6 ==> (BitHit(v, rows[k]) <==> OpcodeFunct3(v, 0x13, funct3s[k]))
  {
    var rows, funct3s := [5, 7, 8, 9, 12, 13], [0, 2, 3, 4, 6, 7];
    forall k | 0 <= k < 6
      ensures BitHit(v, rows[k]) <==> OpcodeFunct3(v, 0x13, funct3s[k])
    {
      FreeEntry(v, rows[k], 0x13, funct3s[k]);
    }
  }

  /** Opcode 0x13 with fixed bits: SLLI, SRLI, SRAI. */
  lemma ShiftEntries(v: nat)
    ensures var rows, funct3s, fixed := [6, 10, 11], [1, 5, 2], [0, 0, 16];
            forall k :: 0 <= k < 3 ==>
              (BitHit(v, rows[k]) <==> OpcodeFunct3(v, 0x13, funct3s[k]) && FixedBits(v, fixed[k]))
  {
    var rows, funct3s, fixed := [6, 10, 11], [1, 5, 2], [0, 0, 16];
    forall k | 0 <= k < 3
      ensures BitHit(v, rows[k]) <==> OpcodeFunct3(v, 0x13, funct3s[k]) && FixedBits(v, fixed[k])
    {
      FixedEntry(v, rows[k], 0x13, funct3s[k], fixed[k]);
    }
  }

  /** The entries SH and SW carry opcode 0x13 and not that of stores. */
  lemma StoreEntries(v: nat)
    ensures var rows, funct3s := [16, 17], [1, 2];
            forall k :: 0 <= k < 2 ==> (BitHit(v, rows[k]) <==> OpcodeFunct3(v, 0x13, funct3s[k]))
  {
    var rows, funct3s := [16, 17], [1, 2];
    forall k | 0 <= k < 2
      ensures BitHit(v, rows[k]) <==> OpcodeFunct3(v, 0x13, funct3s[k])
    {
      FreeEntry(v, rows[k], 0x13, funct3s[k]);
    }
  }

  /** Opcode 0x33: ADD, SUB, SLL, SLT, SLTU, XOR, SRL, SRA, OR, AND. */
  lemma RegisterEntries(v: nat)
    ensures var rows := [18, 19, 20, 21, 22, 23, 24, 25, 26, 27];
            var funct3s, fixed := [0, 0, 1, 2, 3, 4, 5, 5, 6, 7], [0, 16, 0, 0, 0, 0, 0, 16, 0, 0];
            forall k :: 0 <= k < 10 ==>
              (BitHit(v, rows[k]) <==> OpcodeFunct3(v, 0x33, funct3s[k]) && FixedBits(v, fixed[k]))
  {
    var rows := [18, 19, 20, 21, 22, 23, 24, 25, 26, 27];
    var funct3s, fixed := [0, 0, 1, 2, 3, 4, 5, 5, 6, 7], [0, 16, 0, 0, 0, 0, 0, 16, 0, 0];
    forall k | 0 <= k < 10
      ensures BitHit(v, rows[k]) <==> OpcodeFunct3(v, 0x33, funct3s[k]) && FixedBits(v, fixed[k])
    {
      FixedEntry(v, rows[k], 0x33, funct3s[k], fixed[k]);
    }
  }

  /** Opcode 0x63: BEQ, BNE, BLT, BGE, BLTU, BGEU. */
  lemma BranchEntries(v: nat)
    ensures var rows, funct3s := [29, 30, 31, 32, 33, 34], [0, 1, 4, 5, 6, 7];
            forall k :: 0 <= k < 6 ==> (BitHit(v, rows[k]) <==> OpcodeFunct3(v, 0x63, funct3s[k]))
  {
    var rows, funct3s := [29, 30, 31, 32, 33, 34], [0, 1, 4, 5, 6, 7];
    forall k | 0 <= k < 6
      ensures BitHit(v, rows[k]) <==> OpcodeFunct3(v, 0x63, funct3s[k])
    {
      FreeEntry(v, rows[k], 0x63, funct3s[k]);
    }
  }

  /** SB and JALR. */
  lemma SbAndJalrEntries(v: nat)
    ensures BitHit(v, 15) <==> OpcodeFunct3(v, 0x23, 0)
    ensures BitHit(v, 35) <==> OpcodeFunct3(v, 0x67, 0)
  {
    FreeEntry(v, 15, 0x23, 0);
    FreeEntry(v, 35, 0x67, 0);
  }

  /** AUIPC, LUI and JAL are matched by the opcode alone. */
  lemma OpcodeEntries(v: nat)
    ensures var rows, opcodes := [14, 28, 36], [0x17, 0x37, 0x6F];
            forall k :: 0 <= k < 3 ==> (BitHit(v, rows[k]) <==> Opcode(v, opcodes[k]))
  {
    var rows, opcodes := [14, 28, 36], [0x17, 0x37, 0x6F];
    forall k | 0 <= k < 3
      ensures BitHit(v, rows[k]) <==> Opcode(v, opcodes[k])
    {
      AloneEntry(v, rows[k], opcodes[k]);
    }
  }

  /** The fixed bits lie where an instruction holds rs1 and not where it holds funct7, so an addition of
      two registers is decoded only when bits 15 to 20 are clear. */
  lemma AddSelected(v: nat)
    ensures BitSelects(v, 18) <==> OpcodeFunct3(v, 0x33, 0) && FixedBits(v, 0)
  {
    FixedEntry(v, 18, 0x33, 0, 0);
    BinarySelection(v, 18);
  }

  /** With any other bits there, ADD and SUB have no entry at all. */
  lemma AddUndecoded(v: nat)
    requires OpcodeFunct3(v, 0x33, 0)
    ensures BitSelects(v, 37) <==> !FixedBits(v, 0) && !FixedBits(v, 16)
  {
    SmallCodes();
    MiddleCodes();
    LargeCodes();
    BinarySelectsEntry(v, 37);
    OpcodeIs(v, 0x33, 328);
    Funct3Is(v, 0, 0);
    FixedBitsAre(v, 0, 0);
    FixedBitsAre(v, 16, 81);
  }

  /** The instruction add x1, x2, x3 is not decoded. */
  lemma AddNotDecoded()
    ensures BitSelects(0x0031_00B3, 37)
  {
    AddUndecoded(0x0031_00B3);
  }
}
