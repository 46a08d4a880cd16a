/** The entries of the decode tables: their texts, their fields, and the correspondence of the tables. */
module Entries {
  import opened Words
  import opened Bits
  import opened Patterns
  import opened PatternLaws
  import opened Tables

  /** Every entry fills the 32 positions, with symbols of its alphabet. */
  predicate ValidFormat(a: Alphabet, f: Format) {
    && |f.funct7| == 7 && |f.rs2| == 5 && |f.rs1| == 5 && |f.funct3| == 3 && |f.rd| == 5 && |f.opcode| == 7
    && ValidField(a, f.funct7) && ValidField(a, f.rs2) && ValidField(a, f.rs1)
    && ValidField(a, f.funct3) && ValidField(a, f.rd) && ValidField(a, f.opcode)
  }

  predicate ValidField(a: Alphabet, u: string) {
    forall k :: 0 <= k < |u| ==> IsSymbol(a, u[k])
  }

  lemma BitFields()
    ensures forall u :: u in {ANY7, ANY5, EVEN5, ZERO5, ANY3, F000, BIT_TOP5} ==> ValidField(BIT_DIGITS, u)
    ensures forall u :: u in {BIT_F001, BIT_F010, BIT_F011, BIT_F100,
                              BIT_F101, BIT_F110, BIT_F111}
              ==> ValidField(BIT_DIGITS, u)
    ensures forall u :: u in {BIT_LOAD, BIT_OP_IMM, BIT_AUIPC, BIT_STORE, BIT_OP,
                              BIT_LUI, BIT_BRANCH, BIT_JALR, BIT_JAL}
              ==> ValidField(BIT_DIGITS, u)
  {
  }

  lemma BitTable()
    ensures |INST_LIST| == 37
    ensures forall i :: 0 <= i < 37 ==> ValidFormat(BIT_DIGITS, INST_LIST[i])
  {
    BitFields();
  }

  lemma TritFields()
    ensures forall u :: u in {ANY7, ANY5, EVEN5, ZERO5, ANY3, F000, TRIT_TOP5} ==> ValidField(TRIT_DIGITS, u)
    ensures forall u :: u in {TRIT_F001, TRIT_F010, TRIT_F011, TRIT_F100,
                              TRIT_F101, TRIT_F110, TRIT_F111}
              ==> ValidField(TRIT_DIGITS, u)
    ensures forall u :: u in {TRIT_LOAD, TRIT_OP_IMM, TRIT_AUIPC, TRIT_STORE, TRIT_OP,
                              TRIT_LUI, TRIT_BRANCH, TRIT_JALR, TRIT_JAL}
              ==> ValidField(TRIT_DIGITS, u)
  {
  }

  lemma TritTable()
    ensures |TRS_INST_LIST| == 37
    ensures forall i :: 0 <= i < 37 ==> ValidFormat(TRIT_DIGITS, TRS_INST_LIST[i])
  {
    TritFields();
  }

  // ---------------------------------------------------------------- from pattern text to fields

  lemma {:induction false} PlainField(a: Alphabet, u: string)
    requires ValidAlphabet(a) && ValidField(a, u)
    ensures Strip(u) == u
  {
    if |u| == 0 {
    } else {
      assert IsSymbol(a, u[0]);
      PlainField(a, u[1..]);
    }
  }

  lemma {:induction false} StripAppends(a: Alphabet, p: string, u: string)
    requires ValidAlphabet(a) && ValidField(a, u)
    ensures Strip(p + "_" + u) == Strip(p) + u
  {
    StripConcat(p + "_", u);
    StripConcat(p, "_");
    assert "_"[1..] == "";
    PlainField(a, u);
  }

  function Fields(f: Format): string {
    f.funct7 + f.rs2 + f.rs1 + f.funct3 + f.rd + f.opcode
  }

  /** The text of a valid entry is well formed, and its symbols are its fields. */
  lemma EntrySymbols(a: Alphabet, h: char, f: Format)
    requires ValidAlphabet(a) && ValidFormat(a, f)
    ensures HasHeader(PatternText(h, f), h)
    ensures Symbols(PatternText(h, f)) == Fields(f)
    ensures WellFormed(a, Symbols(PatternText(h, f)))
  {
    var p1 := f.funct7;
    var p2 := p1 + "_" + f.rs2;
    var p3 := p2 + "_" + f.rs1;
    var p4 := p3 + "_" + f.funct3;
    var p5 := p4 + "_" + f.rd;
    var p6 := p5 + "_" + f.opcode;
    assert PatternText(h, f)[2..] == p6;
    PlainField(a, f.funct7);
    StripAppends(a, p1, f.rs2);
    StripAppends(a, p2, f.rs1);
    StripAppends(a, p3, f.funct3);
    StripAppends(a, p4, f.rd);
    StripAppends(a, p5, f.opcode);
  }

  /** A field fits the word when its symbols fit the digits from position hi down. */
  predicate FieldFits(a: Alphabet, u: string, w: Tr32, hi: nat)
    requires |u| <= hi + 1 <= 32
  {
    forall k :: 0 <= k < |u| ==> Fits(a, u[k], w[hi - k])
  }

  predicate Hit(a: Alphabet, w: Tr32, f: Format)
    requires ValidFormat(a, f)
  {
    && FieldFits(a, f.funct7, w, 31) && FieldFits(a, f.rs2, w, 24) && FieldFits(a, f.rs1, w, 19)
    && FieldFits(a, f.funct3, w, 14) && FieldFits(a, f.rd, w, 11) && FieldFits(a, f.opcode, w, 6)
  }

  /** The matcher's answer on an entry, field by field. */
  lemma AnswerIsHit(a: Alphabet, h: char, w: Tr32, f: Format)
    requires ValidAlphabet(a) && ValidFormat(a, f)
    ensures Safe(a, h, w, PatternText(h, f))
    ensures Answer(a, h, w, PatternText(h, f)) == Hit(a, w, f)
  {
    EntrySymbols(a, h, f);
    MatchesIsHit(a, w, f);
  }

  lemma MatchesIsHit(a: Alphabet, w: Tr32, f: Format)
    requires ValidFormat(a, f)
    ensures Matches(a, w, Fields(f)) == Hit(a, w, f)
  {
    var u := Fields(f);
    FieldOfWord(a, w, u, "", f.funct7, f.rs2 + f.rs1 + f.funct3 + f.rd + f.opcode, 31);
    FieldOfWord(a, w, u, f.funct7, f.rs2, f.rs1 + f.funct3 + f.rd + f.opcode, 24);
    FieldOfWord(a, w, u, f.funct7 + f.rs2, f.rs1, f.funct3 + f.rd + f.opcode, 19);
    FieldOfWord(a, w, u, f.funct7 + f.rs2 + f.rs1, f.funct3, f.rd + f.opcode, 14);
    FieldOfWord(a, w, u, f.funct7 + f.rs2 + f.rs1 + f.funct3, f.rd, f.opcode, 11);
    FieldOfWord(a, w, u, f.funct7 + f.rs2 + f.rs1 + f.funct3 + f.rd, f.opcode, "", 6);
    RangesCover(a, w, u);
  }

  predicate RangeFits(a: Alphabet, w: Tr32, u: string, lo: nat, hi: nat)
    requires hi <= 32 && |u| == 32
  {
    forall k :: lo <= k < hi ==> Fits(a, u[k], w[31 - k])
  }

  lemma FieldOfWord(a: Alphabet, w: Tr32, u: string, p: string, f: string, q: string, hi: nat)
    requires u == p + f + q && |u| == 32 && |f| <= hi + 1 && |p| == 31 - hi
    ensures FieldFits(a, f, w, hi) == RangeFits(a, w, u, |p|, |p| + |f|)
  {
    if RangeFits(a, w, u, |p|, |p| + |f|) {
      forall k | 0 <= k < |f|
        ensures Fits(a, f[k], w[hi - k])
      {
        assert u[|p| + k] == f[k];
      }
    }
    if FieldFits(a, f, w, hi) {
      forall k | |p| <= k < |p| + |f|
        ensures Fits(a, u[k], w[31 - k])
      {
        assert u[k] == f[k - |p|];
      }
    }
  }

  lemma RangesCover(a: Alphabet, w: Tr32, u: string)
    requires |u| == 32
    ensures Matches(a, w, u) == (&& RangeFits(a, w, u, 0, 7) && RangeFits(a, w, u, 7, 12)
                                 && RangeFits(a, w, u, 12, 17) && RangeFits(a, w, u, 17, 20)
                                 && RangeFits(a, w, u, 20, 25) && RangeFits(a, w, u, 25, 32))
  {
  }

  // ---------------------------------------------------------------- the two tables correspond

  predicate RendersFormat(f: Format, g: Format) {
    && Renders(f.funct7, g.funct7) && Renders(f.rs2, g.rs2) && Renders(f.rs1, g.rs1)
    && Renders(f.funct3, g.funct3) && Renders(f.rd, g.rd) && Renders(f.opcode, g.opcode)
  }

  lemma FieldsRender()
    ensures Renders(ANY7, ANY7) && Renders(ANY5, ANY5) && Renders(EVEN5, EVEN5)
    ensures Renders(ZERO5, ZERO5) && Renders(ANY3, ANY3) && Renders(F000, F000)
    ensures Renders(BIT_TOP5, TRIT_TOP5)
    ensures Renders(BIT_F001, TRIT_F001)
    ensures Renders(BIT_F010, TRIT_F010)
    ensures Renders(BIT_F011, TRIT_F011)
    ensures Renders(BIT_F100, TRIT_F100)
    ensures Renders(BIT_F101, TRIT_F101)
    ensures Renders(BIT_F110, TRIT_F110)
    ensures Renders(BIT_F111, TRIT_F111)
    ensures Renders(BIT_LOAD, TRIT_LOAD)
    ensures Renders(BIT_OP_IMM, TRIT_OP_IMM)
    ensures Renders(BIT_AUIPC, TRIT_AUIPC)
    ensures Renders(BIT_STORE, TRIT_STORE)
    ensures Renders(BIT_OP, TRIT_OP)
    ensures Renders(BIT_LUI, TRIT_LUI)
    ensures Renders(BIT_BRANCH, TRIT_BRANCH)
    ensures Renders(BIT_JALR, TRIT_JALR)
    ensures Renders(BIT_JAL, TRIT_JAL)
  {
  }

  /** The tables correspond entry by entry under 0 to 0 and 1 to +. */
  lemma TablesCorrespond()
    ensures |INST_LIST| == 37 == |TRS_INST_LIST|
    ensures forall i :: 0 <= i < 37 ==> RendersFormat(INST_LIST[i], TRS_INST_LIST[i])
  {
    FieldsRender();
  }

  lemma RendersAppend(p: string, p': string, q: string, q': string)
    requires Renders(p, p') && Renders(q, q')
    ensures Renders(p + "_" + q, p' + "_" + q')
  {
  }

  lemma RenderedText(f: Format, g: Format)
    requires RendersFormat(f, g)
    ensures PatternText('t', g) == Translate(PatternText('b', f))
  {
    var p1, r1 := f.funct7, g.funct7;
    var p2, r2 := p1 + "_" + f.rs2, r1 + "_" + g.rs2;
    var p3, r3 := p2 + "_" + f.rs1, r2 + "_" + g.rs1;
    var p4, r4 := p3 + "_" + f.funct3, r3 + "_" + g.funct3;
    var p5, r5 := p4 + "_" + f.rd, r4 + "_" + g.rd;
    var p6 := p5 + "_" + f.opcode;
    RendersAppend(p1, r1, f.rs2, g.rs2);
    RendersAppend(p2, r2, f.rs1, g.rs1);
    RendersAppend(p3, r3, f.funct3, g.funct3);
    RendersAppend(p4, r4, f.rd, g.rd);
    RendersAppend(p5, r5, f.opcode, g.opcode);
    assert PatternText('b', f)[2..] == p6;
  }

  /** As texts, each ternary pattern is the translation of the binary one. */
  lemma TextsCorrespond(i: nat)
    requires i < 37
    ensures |INST_LIST| == 37 == |TRS_INST_LIST|
    ensures PatternText('t', TRS_INST_LIST[i]) == Translate(PatternText('b', INST_LIST[i]))
  {
    TablesCorrespond();
    RenderedText(INST_LIST[i], TRS_INST_LIST[i]);
  }

  lemma TranslatedEntryAgrees(v: nat, f: Format, g: Format)
    requires ValidFormat(BIT_DIGITS, f) && ValidFormat(TRIT_DIGITS, g)
    requires PatternText('t', g) == Translate(PatternText('b', f))
    ensures Hit(TRIT_DIGITS, Norm(BitTrits(32, v)), g) == Hit(BIT_DIGITS, BitTrits(32, v), f)
  {
    EntrySymbols(BIT_DIGITS, 'b', f);
    TranslationAgrees(v, PatternText('b', f));
    AnswerIsHit(BIT_DIGITS, 'b', BitTrits(32, v), f);
    AnswerIsHit(TRIT_DIGITS, 't', Norm(BitTrits(32, v)), g);
  }

  /** Entry by entry, the ternary matcher on the word of v answers as the binary matcher on v. */
  lemma EntriesAgree(v: nat, i: nat)
    requires i < 37
    ensures |INST_LIST| == 37 == |TRS_INST_LIST|
    ensures ValidFormat(BIT_DIGITS, INST_LIST[i]) && ValidFormat(TRIT_DIGITS, TRS_INST_LIST[i])
    ensures Hit(TRIT_DIGITS, Norm(BitTrits(32, v)), TRS_INST_LIST[i])
         == Hit(BIT_DIGITS, BitTrits(32, v), INST_LIST[i])
  {
    BitTable();
    TritTable();
    TextsCorrespond(i);
    TranslatedEntryAgrees(v, INST_LIST[i], TRS_INST_LIST[i]);
  }
}
