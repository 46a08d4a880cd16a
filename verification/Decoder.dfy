/** What the search selects: a decoder that looks at numbers in the fields of the word, and the
    overlaps of the table. */
module Decoder {
  import opened Words
  import opened Text
  import opened Bits
  import opened Patterns
  import opened PatternLaws
  import opened Tables
  import opened Entries
  import opened Dispatch

  // ---------------------------------------------------------------- fields as numbers

  /** The number in n trits of the word from trit lo up. */
  function FieldNumber(w: Tr32, lo: nat, n: nat): int
    requires lo + n <= 32
  {
    Value(w[lo..lo + n])
  }

  function OpcodeNumber(w: Tr32): int {
    FieldNumber(w, 0, 7)
  }

  function Funct3Number(w: Tr32): int {
    FieldNumber(w, 12, 3)
  }

  function Rs1Number(w: Tr32): int {
    FieldNumber(w, 15, 5)
  }

  predicate NoWildcard(u: string) {
    forall k :: 0 <= k < |u| ==> u[k] != 'x'
  }

  lemma FitIsParse(u: string, w: Tr32, lo: nat)
    requires |u| > 0 && lo + |u| <= 32 && NoWildcard(u) && ValidField(TRIT_DIGITS, u)
    ensures FieldFits(TRIT_DIGITS, u, w, lo + |u| - 1) <==> w[lo..lo + |u|] == Parse(u)
  {
    var hi, x := lo + |u| - 1, w[lo..lo + |u|];
    forall k | 0 <= k < |u|
      ensures Fits(TRIT_DIGITS, u[k], w[hi - k]) <==> x[|u| - 1 - k] == Parse(u)[|u| - 1 - k]
    {
      assert IsSymbol(TRIT_DIGITS, u[k]);
    }
    if FieldFits(TRIT_DIGITS, u, w, hi) {
      forall i | 0 <= i < |u|
        ensures x[i] == Parse(u)[i]
      {
        assert Fits(TRIT_DIGITS, u[|u| - 1 - i], w[hi - (|u| - 1 - i)]);
      }
    }
  }

  /** A field without wildcards fits exactly when the trits there hold its number: this needs
      uniqueness of representation. */
  lemma {:induction false} FitIsNumber(u: string, w: Tr32, lo: nat)
    requires |u| > 0 && lo + |u| <= 32 && NoWildcard(u) && ValidField(TRIT_DIGITS, u) && IsTrits(w)
    ensures FieldFits(TRIT_DIGITS, u, w, lo + |u| - 1) <==> FieldNumber(w, lo, |u|) == Horner(u)
  {
    FitIsParse(u, w, lo);
    ParseIsHorner(u);
    if FieldNumber(w, lo, |u|) == Horner(u) {
      ValueUnique(w[lo..lo + |u|], Parse(u));
    }
  }

  /** u is a field of n digits that holds the number v. */
  predicate Holds(u: string, n: nat, v: int) {
    |u| == n && NoWildcard(u) && ValidField(TRIT_DIGITS, u) && Horner(u) == v
  }

  lemma HornerStep(u: string, k: nat)
    requires k < |u|
    ensures Horner(u[..k + 1]) == 3 * Horner(u[..k]) + CharToTrit(u[k])
  {
    assert u[..k + 1][..k] == u[..k];
  }

  lemma Horner3(u: string)
    requires |u| == 3
    ensures Horner(u) == 9 * CharToTrit(u[0]) + 3 * CharToTrit(u[1]) + CharToTrit(u[2])
  {
    HornerStep(u, 0);
    HornerStep(u, 1);
    HornerStep(u, 2);
    assert u[..3] == u;
  }

  lemma Horner5(u: string)
    requires |u| == 5
    ensures Horner(u) == 81 * CharToTrit(u[0]) + 27 * CharToTrit(u[1]) + 9 * CharToTrit(u[2])
                         + 3 * CharToTrit(u[3]) + CharToTrit(u[4])
  {
    Horner3(u[..3]);
    HornerStep(u, 3);
    HornerStep(u, 4);
    assert u[..5] == u;
  }

  lemma Horner7(u: string)
    requires |u| == 7
    ensures Horner(u) == 729 * CharToTrit(u[0]) + 243 * CharToTrit(u[1]) + 81 * CharToTrit(u[2])
                         + 27 * CharToTrit(u[3]) + 9 * CharToTrit(u[4]) + 3 * CharToTrit(u[5]) + CharToTrit(u[6])
  {
    Horner5(u[..5]);
    HornerStep(u, 5);
    HornerStep(u, 6);
    assert u[..7] == u;
  }

  lemma OpcodesHoldLow()
    ensures Holds(TRIT_LOAD, 7, 4)
    ensures Holds(TRIT_OP_IMM, 7, 85)
    ensures Holds(TRIT_AUIPC, 7, 94)
  {
    TritFields();
    Horner7(TRIT_LOAD);
    Horner7(TRIT_OP_IMM);
    Horner7(TRIT_AUIPC);
  }

  lemma OpcodesHoldMiddle()
    ensures Holds(TRIT_STORE, 7, 247)
    ensures Holds(TRIT_OP, 7, 328)
    ensures Holds(TRIT_LUI, 7, 337)
  {
    TritFields();
    Horner7(TRIT_STORE);
    Horner7(TRIT_OP);
    Horner7(TRIT_LUI);
  }

  lemma OpcodesHoldHigh()
    ensures Holds(TRIT_BRANCH, 7, 976)
    ensures Holds(TRIT_JALR, 7, 985)
    ensures Holds(TRIT_JAL, 7, 1012)
  {
    TritFields();
    Horner7(TRIT_BRANCH);
    Horner7(TRIT_JALR);
    Horner7(TRIT_JAL);
  }

  lemma Funct3HoldLow()
    ensures Holds(F000, 3, 0)
    ensures Holds(TRIT_F001, 3, 1)
    ensures Holds(TRIT_F010, 3, 3)
    ensures Holds(TRIT_F011, 3, 4)
  {
    TritFields();
    Horner3(F000);
    Horner3(TRIT_F001);
    Horner3(TRIT_F010);
    Horner3(TRIT_F011);
  }

  lemma Funct3HoldHigh()
    ensures Holds(TRIT_F100, 3, 9)
    ensures Holds(TRIT_F101, 3, 10)
    ensures Holds(TRIT_F110, 3, 12)
    ensures Holds(TRIT_F111, 3, 13)
  {
    TritFields();
    Horner3(TRIT_F100);
    Horner3(TRIT_F101);
    Horner3(TRIT_F110);
    Horner3(TRIT_F111);
  }

  lemma Rs1Hold()
    ensures Holds(ZERO5, 5, 0) && Holds(TRIT_TOP5, 5, 81)
  {
    TritFields();
    Horner5(ZERO5);
    Horner5(TRIT_TOP5);
  }

  // ---------------------------------------------------------------- the rows as numbers

  /** The opcode number of row i. */
  function RowOpcode(i: nat): int {
    if i < 5 then 4
    else if i < 14 then 85
    else if i < 18 then (match i case 14 => 94 case 15 => 247 case _ => 85)
    else if i < 28 then 328
    else if i == 28 then 337
    else if i < 35 then 976
    else if i == 35 then 985
    else 1012
  }

  const ROW_FUNCT3: seq<int> := [
    0, 1, 3, 9, 10, 0, 1, 3, 4, 9, 10, 3, 12, 13,
    0, 0, 1, 3, 0, 0, 1, 3, 4, 9, 10, 10, 12, 13,
    0, 0, 1, 9, 10, 12, 13, 0, 0
  ]

  /** The rows whose opcode alone decides. */
  predicate OpcodeAlone(i: nat) {
    i == 14 || i == 28 || i == 36
  }

  /** The rows that fix trit 20 and the rs1 field. */
  predicate FixesRs1(i: nat) {
    i == 6 || i == 10 || i == 11 || 18 <= i < 28
  }

  /** The rs1 number of such a row. */
  function RowRs1(i: nat): int {
    if i == 11 || i == 19 || i == 25 then 81 else 0
  }

  lemma RowOpcodes()
    ensures |TRS_INST_LIST| == 37
    ensures forall i :: 0 <= i < 37 ==> Holds(TRS_INST_LIST[i].opcode, 7, RowOpcode(i))
  {
    OpcodesHoldLow();
    OpcodesHoldMiddle();
    OpcodesHoldHigh();
  }

  lemma RowFunct3s()
    ensures |TRS_INST_LIST| == 37 == |ROW_FUNCT3|
    ensures forall i :: 0 <= i < 37 && !OpcodeAlone(i) ==> Holds(TRS_INST_LIST[i].funct3, 3, ROW_FUNCT3[i])
    ensures forall i :: 0 <= i < 37 && OpcodeAlone(i) ==> TRS_INST_LIST[i].funct3 == ANY3
  {
    Funct3HoldLow();
    Funct3HoldHigh();
  }

  /** The text that holds it. */
  function Rs1Text(i: nat): string {
    if RowRs1(i) == 81 then TRIT_TOP5 else ZERO5
  }

  lemma RowRs2Texts()
    ensures |TRS_INST_LIST| == 37
    ensures forall i :: 0 <= i < 37 ==> TRS_INST_LIST[i].rs2 == if FixesRs1(i) then EVEN5 else ANY5
  {
  }

  lemma RowRs1Texts()
    ensures |TRS_INST_LIST| == 37
    ensures forall i :: 0 <= i < 37 ==> TRS_INST_LIST[i].rs1 == if FixesRs1(i) then Rs1Text(i) else ANY5
  {
  }

  lemma Rs1TextHolds(i: nat)
    ensures Holds(Rs1Text(i), 5, RowRs1(i))
  {
    Rs1Hold();
  }

  lemma RowsWild()
    ensures |TRS_INST_LIST| == 37
    ensures forall i :: 0 <= i < 37 ==> TRS_INST_LIST[i].funct7 == ANY7 && TRS_INST_LIST[i].rd == ANY5
  {
  }

  lemma WildFits(w: Tr32)
    ensures FieldFits(TRIT_DIGITS, ANY7, w, 31) && FieldFits(TRIT_DIGITS, ANY5, w, 24)
    ensures FieldFits(TRIT_DIGITS, ANY5, w, 19) && FieldFits(TRIT_DIGITS, ANY3, w, 14)
    ensures FieldFits(TRIT_DIGITS, ANY5, w, 11)
  {
  }

  lemma EvenFits(w: Tr32)
    ensures FieldFits(TRIT_DIGITS, EVEN5, w, 24) <==> w[20] == 0
  {
    assert EVEN5[4] == '0';
    if FieldFits(TRIT_DIGITS, EVEN5, w, 24) {
      assert Fits(TRIT_DIGITS, EVEN5[4], w[24 - 4]);
    }
  }

  /** What row i asks of a word, in numbers. */
  predicate RowAsks(w: Tr32, i: nat)
    requires i < 37
  {
    && OpcodeNumber(w) == RowOpcode(i)
    && (OpcodeAlone(i) || Funct3Number(w) == ROW_FUNCT3[i])
    && (FixesRs1(i) ==> w[20] == 0 && Rs1Number(w) == RowRs1(i))
  }

  lemma FormatAsks(w: Tr32, i: nat, f: Format)
    requires i < 37 && IsTrits(w) && ValidFormat(TRIT_DIGITS, f)
    requires f.funct7 == ANY7 && f.rd == ANY5 && Holds(f.opcode, 7, RowOpcode(i))
    requires if OpcodeAlone(i) then f.funct3 == ANY3 else Holds(f.funct3, 3, ROW_FUNCT3[i])
    requires if FixesRs1(i) then f.rs2 == EVEN5 && Holds(f.rs1, 5, RowRs1(i)) else f.rs2 == ANY5 && f.rs1 == ANY5
    ensures Hit(TRIT_DIGITS, w, f) <==> RowAsks(w, i)
  {
    WildFits(w);
    EvenFits(w);
    FitIsNumber(f.opcode, w, 0);
    if !OpcodeAlone(i) {
      FitIsNumber(f.funct3, w, 12);
    }
    if FixesRs1(i) {
      FitIsNumber(f.rs1, w, 15);
    }
  }

  /** A word matches entry i exactly when its fields hold the numbers of the entry. */
  lemma HitIsNumbers(t: Tr32, i: nat)
    requires i < 37
    ensures TritHit(t, i) <==> RowAsks(Norm(t), i)
  {
    TritTable();
    RowOpcodes();
    RowFunct3s();
    RowRs2Texts();
    RowRs1Texts();
    Rs1TextHolds(i);
    RowsWild();
    FormatAsks(Norm(t), i, TRS_INST_LIST[i]);
  }

  // ---------------------------------------------------------------- the decoder

  /** The first entry with an opcode number and a funct3 number; 37 when there is none. */
  function Decode(opcode: int, funct3: int): nat {
    match opcode
    case 4 => (match funct3 case 0 => 0 case 1 => 1 case 3 => 2 case 9 => 3 case 10 => 4 case _ => 37)
    case 85 => (
      match funct3
      case 0 => 5 case 1 => 6 case 3 => 7 case 4 => 8
      case 9 => 9 case 10 => 10 case 12 => 12 case 13 => 13
      case _ => 37)
    case 94 => 14
    case 247 => (match funct3 case 0 => 15 case _ => 37)
    case 328 => (
      match funct3
      case 0 => 18 case 1 => 20 case 3 => 21 case 4 => 22
      case 9 => 23 case 10 => 24 case 12 => 26 case 13 => 27
      case _ => 37)
    case 337 => 28
    case 976 => (
      match funct3
      case 0 => 29 case 1 => 30 case 9 => 31 case 10 => 32
      case 12 => 33 case 13 => 34 case _ => 37)
    case 985 => (match funct3 case 0 => 35 case _ => 37)
    case 1012 => 36
    case _ => 37
  }

  /** The first entry with the same opcode and funct3 as entry i. */
  function Leader(i: nat): nat {
    match i
    case 11 => 7
    case 16 => 6
    case 17 => 7
    case 19 => 18
    case 25 => 24
    case _ => i
  }

  lemma RowsDecode()
    ensures |ROW_FUNCT3| == 37
    ensures forall i :: 0 <= i < 37 && !OpcodeAlone(i) ==> Decode(RowOpcode(i), ROW_FUNCT3[i]) == Leader(i)
    ensures forall i, f :: 0 <= i < 37 && OpcodeAlone(i) ==> Decode(RowOpcode(i), f) == Leader(i)
  {
  }

  lemma DecodeInverts(opcode: int, funct3: int)
    ensures var i := Decode(opcode, funct3);
            i < 37 ==> RowOpcode(i) == opcode && (OpcodeAlone(i) || ROW_FUNCT3[i] == funct3)
  {
  }

  /** The entry for a word, by its fields alone: opcode and funct3 give the first candidate, and trit
      20 with the rs1 field settle the entries that fix them. */
  function EntryOf(w: Tr32): nat {
    var i := Decode(OpcodeNumber(w), Funct3Number(w));
    var plain := w[20] == 0 && Rs1Number(w) == 0;
    var top := w[20] == 0 && Rs1Number(w) == 81;
    if i == 6 then (if plain then 6 else 16)
    else if i == 18 then (if plain then 18 else if top then 19 else 37)
    else if i == 24 then (if plain then 24 else if top then 25 else 37)
    else if FixesRs1(i) && !plain then 37
    else i
  }

  lemma AskedDecodes(w: Tr32, i: nat)
    requires i < 37 && RowAsks(w, i)
    ensures Decode(OpcodeNumber(w), Funct3Number(w)) == Leader(i)
  {
    RowsDecode();
  }

  /** Row EntryOf(w) asks nothing that w lacks. */
  lemma EntryAsked(w: Tr32)
    ensures EntryOf(w) <= 37
    ensures EntryOf(w) < 37 ==> RowAsks(w, EntryOf(w))
    ensures EntryOf(w) != 11 && EntryOf(w) != 17
    ensures EntryOf(w) == 16 ==> !RowAsks(w, 6)
  {
    DecodeInverts(OpcodeNumber(w), Funct3Number(w));
    SiblingRows();
  }

  lemma SiblingRows()
    ensures |ROW_FUNCT3| == 37
    ensures ROW_FUNCT3[6] == ROW_FUNCT3[16] && ROW_FUNCT3[18] == ROW_FUNCT3[19] && ROW_FUNCT3[24] == ROW_FUNCT3[25]
  {
  }

  /** If any row asks for what w has, EntryOf finds a row. */
  lemma EntryFound(w: Tr32, i: nat)
    requires i < 37 && RowAsks(w, i)
    ensures EntryOf(w) < 37
  {
    AskedDecodes(w, i);
  }

  // ---------------------------------------------------------------- the overlaps of the table

  /** The pairs of entries, in table order, that some word matches both of. */
  predicate Overlap(i: nat, j: nat) {
    (i == 6 && j == 16) || (i == 7 && j == 11) || (i == 7 && j == 17) || (i == 11 && j == 17)
  }

  function RowSymbols(i: nat): (u: string)
    requires i < 37
    ensures |u| == 32 && WellFormed(TRIT_DIGITS, u)
  {
    TritTable();
    RowsWellFormed(i);
    Fields(TRS_INST_LIST[i])
  }

  lemma RowsWellFormed(i: nat)
    requires i < 37
    ensures |TRS_INST_LIST| == 37
    ensures |Fields(TRS_INST_LIST[i])| == 32 && WellFormed(TRIT_DIGITS, Fields(TRS_INST_LIST[i]))
  {
    TritTable();
    EntrySymbols(TRIT_DIGITS, 't', TRS_INST_LIST[i]);
  }

  lemma HitIsMatch(t: Tr32, i: nat)
    requires i < 37
    ensures TritHit(t, i) <==> Matches(TRIT_DIGITS, Norm(t), RowSymbols(i))
  {
    TritTable();
    MatchesIsHit(TRIT_DIGITS, Norm(t), TRS_INST_LIST[i]);
  }

  lemma DigitsAreNormal(w: Tr32)
    requires DigitsOf(TRIT_DIGITS, w)
    ensures Norm(w) == w
  {
    assert forall i :: 0 <= i < 32 ==> IsTrit(w[i]);
    NormOfTrits(w);
  }

  /** Two entries match a common word exactly when their patterns are compatible. */
  lemma CommonHitExactly(i: nat, j: nat)
    requires i < 37 && j < 37
    ensures (exists t: Tr32 :: TritHit(t, i) && TritHit(t, j)) <==> Compatible(RowSymbols(i), RowSymbols(j))
  {
    var u, v := RowSymbols(i), RowSymbols(j);
    TritAlphabet();
    OverlapExactly(TRIT_DIGITS, u, v);
    if Overlapping(TRIT_DIGITS, u, v) {
      var w: Tr32 :| DigitsOf(TRIT_DIGITS, w) && Matches(TRIT_DIGITS, w, u) && Matches(TRIT_DIGITS, w, v);
      DigitsAreNormal(w);
      HitIsMatch(w, i);
      HitIsMatch(w, j);
      assert TritHit(w, i) && TritHit(w, j);
    }
    if exists t: Tr32 :: TritHit(t, i) && TritHit(t, j) {
      var t: Tr32 :| TritHit(t, i) && TritHit(t, j);
      HitIsMatch(t, i);
      HitIsMatch(t, j);
      CommonMatchCompatible(TRIT_DIGITS, Norm(t), u, v);
    }
  }

  lemma CoverIsCompatible(u: string, v: string)
    requires |u| >= 32 && |v| >= 32 && Covers(v, u)
    ensures Compatible(u, v)
  {
  }

  /** Every word that matches entry i matches entry j exactly when j's pattern covers i's. */
  lemma SubsumedHitExactly(i: nat, j: nat)
    requires i < 37 && j < 37
    ensures (forall t: Tr32 :: TritHit(t, i) ==> TritHit(t, j)) <==> Covers(RowSymbols(j), RowSymbols(i))
  {
    var u, v := RowSymbols(i), RowSymbols(j);
    TritAlphabet();
    SubsumedExactly(TRIT_DIGITS, u, v);
    forall t: Tr32
      ensures TritHit(t, i) <==> Matches(TRIT_DIGITS, Norm(t), u)
      ensures TritHit(t, j) <==> Matches(TRIT_DIGITS, Norm(t), v)
    {
      HitIsMatch(t, i);
      HitIsMatch(t, j);
    }
    if Covers(v, u) {
      forall t: Tr32 | TritHit(t, i)
        ensures TritHit(t, j)
      {
        CoveredMatches(TRIT_DIGITS, Norm(t), u, v);
      }
    } else {
      var w: Tr32 :| DigitsOf(TRIT_DIGITS, w) && Matches(TRIT_DIGITS, w, u) && !Matches(TRIT_DIGITS, w, v);
      DigitsAreNormal(w);
      assert TritHit(w, i) && !TritHit(w, j);
    }
  }

  /** The rows that overlap. */
  lemma OverlappingRows()
    ensures |TRS_INST_LIST| == 37
    ensures TRS_INST_LIST[16] == TRS_INST_LIST[6].(rs2 := ANY5, rs1 := ANY5)
    ensures TRS_INST_LIST[7] == TRS_INST_LIST[11].(rs2 := ANY5, rs1 := ANY5)
    ensures TRS_INST_LIST[7] == TRS_INST_LIST[17]
  {
  }

  lemma WiderFormat(f: Format, g: Format)
    requires ValidFormat(TRIT_DIGITS, f) && ValidFormat(TRIT_DIGITS, g)
    requires g == f.(rs2 := ANY5, rs1 := ANY5)
    ensures |Fields(f)| == 32 == |Fields(g)| && Covers(Fields(g), Fields(f))
  {
    var u, v := Fields(f), Fields(g);
    forall k | 0 <= k < 32
      ensures v[k] == 'x' || v[k] == u[k]
    {
      if 7 <= k < 12 {
        assert v[k] == ANY5[k - 7];
      } else if 12 <= k < 17 {
        assert v[k] == ANY5[k - 12];
      }
    }
  }

  /** The pattern of SH covers that of SLLI, that of SLTI covers that of SRAI and equals that of SW. */
  lemma RowsCover()
    ensures Covers(RowSymbols(16), RowSymbols(6)) && Covers(RowSymbols(7), RowSymbols(11))
    ensures RowSymbols(7) == RowSymbols(17)
  {
    TritTable();
    OverlappingRows();
    WiderFormat(TRS_INST_LIST[6], TRS_INST_LIST[16]);
    WiderFormat(TRS_INST_LIST[11], TRS_INST_LIST[7]);
  }

  /** SLLI is a special case of SH, SRAI of SLTI, and SW is the same pattern as SLTI. */
  lemma Subsumptions(t: Tr32)
    ensures TritHit(t, 6) ==> TritHit(t, 16)
    ensures TritHit(t, 11) ==> TritHit(t, 7)
    ensures TritHit(t, 17) <==> TritHit(t, 7)
  {
    RowsCover();
    SubsumedHitExactly(6, 16);
    SubsumedHitExactly(11, 7);
    HitIsMatch(t, 7);
    HitIsMatch(t, 17);
  }

  /** At most one entry matches a word, except for the listed overlaps. */
  lemma AtMostOneHit(t: Tr32, i: nat, j: nat)
    requires i < j < 37 && TritHit(t, i) && TritHit(t, j)
    ensures Overlap(i, j)
  {
    HitIsNumbers(t, i);
    HitIsNumbers(t, j);
    AskedDecodes(Norm(t), i);
    AskedDecodes(Norm(t), j);
  }

  /** The listed overlaps are exactly the pairs of entries with compatible patterns, and those are
      exactly the pairs that some word matches. */
  lemma OverlapsExactly(i: nat, j: nat)
    requires i < j < 37
    ensures Overlap(i, j) <==> Compatible(RowSymbols(i), RowSymbols(j))
    ensures Overlap(i, j) <==> exists t: Tr32 :: TritHit(t, i) && TritHit(t, j)
  {
    CommonHitExactly(i, j);
    if Compatible(RowSymbols(i), RowSymbols(j)) {
      var t: Tr32 :| TritHit(t, i) && TritHit(t, j);
      AtMostOneHit(t, i, j);
    }
    if Overlap(i, j) {
      RowsCover();
      CoverIsCompatible(RowSymbols(6), RowSymbols(16));
      CoverIsCompatible(RowSymbols(11), RowSymbols(7));
    }
  }

  // ---------------------------------------------------------------- what the search selects

  /** What the search selects, without mentioning its order: the matching entry, where SRAI and SW
      give way to SLTI, and SH gives way to SLLI. SRAI and SW are never selected. */
  lemma Selection(t: Tr32, idx: nat)
    requires idx < 37
    ensures TritSelects(t, idx)
       <==> TritHit(t, idx) && idx != 11 && idx != 17 && (idx == 16 ==> !TritHit(t, 6))
  {
    Subsumptions(t);
    if TritHit(t, idx) && idx != 11 && idx != 17 && (idx == 16 ==> !TritHit(t, 6)) {
      forall i | 0 <= i < idx
        ensures !TritHit(t, i)
      {
        if TritHit(t, i) {
          AtMostOneHit(t, i, idx);
        }
      }
    }
  }

  /** By the correspondence, the binary search selects in the same way. */
  lemma BinarySelection(v: nat, idx: nat)
    requires idx < 37
    ensures BitSelects(v, idx)
       <==> BitHit(v, idx) && idx != 11 && idx != 17 && (idx == 16 ==> !BitHit(v, 6))
  {
    DecodersAgree(v, idx);
    HitsAgree(v, idx);
    HitsAgree(v, 6);
    Selection(BitTrits(32, v), idx);
  }

  /** The search selects the entry that the fields decode to, for every word, including the words that
      no entry matches. */
  lemma SelectsEntry(t: Tr32, idx: nat)
    ensures TritSelects(t, idx) <==> idx == EntryOf(Norm(t))
  {
    var w, e := Norm(t), EntryOf(Norm(t));
    EntryAsked(w);
    if e < 37 {
      HitIsNumbers(t, e);
      HitIsNumbers(t, 6);
      Selection(t, e);
    } else {
      forall i | 0 <= i < 37
        ensures !TritHit(t, i)
      {
        HitIsNumbers(t, i);
        if RowAsks(w, i) {
          EntryFound(w, i);
        }
      }
    }
    assert TritSelects(t, e);
  }

  /** So does the binary search, on the word of the value. */
  lemma BinarySelectsEntry(v: nat, idx: nat)
    ensures BitSelects(v, idx) <==> idx == EntryOf(BitTrits(32, v))
  {
    DecodersAgree(v, idx);
    SelectsEntry(BitTrits(32, v), idx);
    NormOfTrits(BitTrits(32, v));
  }
}
