/** The two decode tables, in the order the search tries them. The handlers are left out: the index of
    an entry names its instruction. */
module Tables {

  /** The fields of a pattern, from symbol 31 down to symbol 0. */
  datatype Format = Format(funct7: string, rs2: string, rs1: string, funct3: string, rd: string, opcode: string)

  /** The text of a pattern: the header 0b or 0t, then the fields with separators between them. */
  function PatternText(h: char, f: Format): string {
    ['0', h] + (f.funct7 + "_" + f.rs2 + "_" + f.rs1 + "_" + f.funct3 + "_" + f.rd + "_" + f.opcode)
  }

  // Fields that both tables use.
  const ANY7 := "xxxxxxx"
  const ANY5 := "xxxxx"
  const EVEN5 := "xxxx0"
  const ZERO5 := "00000"
  const ANY3 := "xxx"
  const F000 := "000"

  const BIT_TOP5 := "10000"
  const BIT_F001 := "001"
  const BIT_F010 := "010"
  const BIT_F011 := "011"
  const BIT_F100 := "100"
  const BIT_F101 := "101"
  const BIT_F110 := "110"
  const BIT_F111 := "111"
  const BIT_LOAD := "0000011"
  const BIT_OP_IMM := "0010011"
  const BIT_AUIPC := "0010111"
  const BIT_STORE := "0100011"
  const BIT_OP := "0110011"
  const BIT_LUI := "0110111"
  const BIT_BRANCH := "1100011"
  const BIT_JALR := "1100111"
  const BIT_JAL := "1101111"

  const TRIT_TOP5 := "+0000"
  const TRIT_F001 := "00+"
  const TRIT_F010 := "0+0"
  const TRIT_F011 := "0++"
  const TRIT_F100 := "+00"
  const TRIT_F101 := "+0+"
  const TRIT_F110 := "++0"
  const TRIT_F111 := "+++"
  const TRIT_LOAD := "00000++"
  const TRIT_OP_IMM := "00+00++"
  const TRIT_AUIPC := "00+0+++"
  const TRIT_STORE := "0+000++"
  const TRIT_OP := "0++00++"
  const TRIT_LUI := "0++0+++"
  const TRIT_BRANCH := "++000++"
  const TRIT_JALR := "++00+++"
  const TRIT_JAL := "++0++++"

  /** Binary RV32E / RV32I patterns. */
  const INST_LIST: seq<Format> := [
    Format(ANY7, ANY5, ANY5, F000, ANY5, BIT_LOAD),                         //  0 LB
    Format(ANY7, ANY5, ANY5, BIT_F001, ANY5, BIT_LOAD),                     //  1 LH
    Format(ANY7, ANY5, ANY5, BIT_F010, ANY5, BIT_LOAD),                     //  2 LW
    Format(ANY7, ANY5, ANY5, BIT_F100, ANY5, BIT_LOAD),                     //  3 LBU
    Format(ANY7, ANY5, ANY5, BIT_F101, ANY5, BIT_LOAD),                     //  4 LHU
    Format(ANY7, ANY5, ANY5, F000, ANY5, BIT_OP_IMM),                       //  5 ADDI
    Format(ANY7, EVEN5, ZERO5, BIT_F001, ANY5, BIT_OP_IMM),                 //  6 SLLI
    Format(ANY7, ANY5, ANY5, BIT_F010, ANY5, BIT_OP_IMM),                   //  7 SLTI
    Format(ANY7, ANY5, ANY5, BIT_F011, ANY5, BIT_OP_IMM),                   //  8 SLTIU
    Format(ANY7, ANY5, ANY5, BIT_F100, ANY5, BIT_OP_IMM),                   //  9 XORI
    Format(ANY7, EVEN5, ZERO5, BIT_F101, ANY5, BIT_OP_IMM),                 // 10 SRLI
    Format(ANY7, EVEN5, BIT_TOP5, BIT_F010, ANY5, BIT_OP_IMM),              // 11 SRAI
    Format(ANY7, ANY5, ANY5, BIT_F110, ANY5, BIT_OP_IMM),                   // 12 ORI
    Format(ANY7, ANY5, ANY5, BIT_F111, ANY5, BIT_OP_IMM),                   // 13 ANDI
    Format(ANY7, ANY5, ANY5, ANY3, ANY5, BIT_AUIPC),                        // 14 AUIPC
    Format(ANY7, ANY5, ANY5, F000, ANY5, BIT_STORE),                        // 15 SB
    Format(ANY7, ANY5, ANY5, BIT_F001, ANY5, BIT_OP_IMM),                   // 16 SH
    Format(ANY7, ANY5, ANY5, BIT_F010, ANY5, BIT_OP_IMM),                   // 17 SW
    Format(ANY7, EVEN5, ZERO5, F000, ANY5, BIT_OP),                         // 18 ADD
    Format(ANY7, EVEN5, BIT_TOP5, F000, ANY5, BIT_OP),                      // 19 SUB
    Format(ANY7, EVEN5, ZERO5, BIT_F001, ANY5, BIT_OP),                     // 20 SLL
    Format(ANY7, EVEN5, ZERO5, BIT_F010, ANY5, BIT_OP),                     // 21 SLT
    Format(ANY7, EVEN5, ZERO5, BIT_F011, ANY5, BIT_OP),                     // 22 SLTU
    Format(ANY7, EVEN5, ZERO5, BIT_F100, ANY5, BIT_OP),                     // 23 XOR
    Format(ANY7, EVEN5, ZERO5, BIT_F101, ANY5, BIT_OP),                     // 24 SRL
    Format(ANY7, EVEN5, BIT_TOP5, BIT_F101, ANY5, BIT_OP),                  // 25 SRA
    Format(ANY7, EVEN5, ZERO5, BIT_F110, ANY5, BIT_OP),                     // 26 OR
    Format(ANY7, EVEN5, ZERO5, BIT_F111, ANY5, BIT_OP),                     // 27 AND
    Format(ANY7, ANY5, ANY5, ANY3, ANY5, BIT_LUI),                          // 28 LUI
    Format(ANY7, ANY5, ANY5, F000, ANY5, BIT_BRANCH),                       // 29 BEQ
    Format(ANY7, ANY5, ANY5, BIT_F001, ANY5, BIT_BRANCH),                   // 30 BNE
    Format(ANY7, ANY5, ANY5, BIT_F100, ANY5, BIT_BRANCH),                   // 31 BLT
    Format(ANY7, ANY5, ANY5, BIT_F101, ANY5, BIT_BRANCH),                   // 32 BGE
    Format(ANY7, ANY5, ANY5, BIT_F110, ANY5, BIT_BRANCH),                   // 33 BLTU
    Format(ANY7, ANY5, ANY5, BIT_F111, ANY5, BIT_BRANCH),                   // 34 BGEU
    Format(ANY7, ANY5, ANY5, F000, ANY5, BIT_JALR),                         // 35 JALR
    Format(ANY7, ANY5, ANY5, ANY3, ANY5, BIT_JAL)                           // 36 JAL
  ]

  /** Ternary T-RV32I patterns. */
  const TRS_INST_LIST: seq<Format> := [
    Format(ANY7, ANY5, ANY5, F000, ANY5, TRIT_LOAD),                        //  0 LB
    Format(ANY7, ANY5, ANY5, TRIT_F001, ANY5, TRIT_LOAD),                   //  1 LH
    Format(ANY7, ANY5, ANY5, TRIT_F010, ANY5, TRIT_LOAD),                   //  2 LW
    Format(ANY7, ANY5, ANY5, TRIT_F100, ANY5, TRIT_LOAD),                   //  3 LBU
    Format(ANY7, ANY5, ANY5, TRIT_F101, ANY5, TRIT_LOAD),                   //  4 LHU
    Format(ANY7, ANY5, ANY5, F000, ANY5, TRIT_OP_IMM),                      //  5 ADDI
    Format(ANY7, EVEN5, ZERO5, TRIT_F001, ANY5, TRIT_OP_IMM),               //  6 SLLI
    Format(ANY7, ANY5, ANY5, TRIT_F010, ANY5, TRIT_OP_IMM),                 //  7 SLTI
    Format(ANY7, ANY5, ANY5, TRIT_F011, ANY5, TRIT_OP_IMM),                 //  8 SLTIU
    Format(ANY7, ANY5, ANY5, TRIT_F100, ANY5, TRIT_OP_IMM),                 //  9 XORI
    Format(ANY7, EVEN5, ZERO5, TRIT_F101, ANY5, TRIT_OP_IMM),               // 10 SRLI
    Format(ANY7, EVEN5, TRIT_TOP5, TRIT_F010, ANY5, TRIT_OP_IMM),           // 11 SRAI
    Format(ANY7, ANY5, ANY5, TRIT_F110, ANY5, TRIT_OP_IMM),                 // 12 ORI
    Format(ANY7, ANY5, ANY5, TRIT_F111, ANY5, TRIT_OP_IMM),                 // 13 ANDI
    Format(ANY7, ANY5, ANY5, ANY3, ANY5, TRIT_AUIPC),                       // 14 AUIPC
    Format(ANY7, ANY5, ANY5, F000, ANY5, TRIT_STORE),                       // 15 SB
    Format(ANY7, ANY5, ANY5, TRIT_F001, ANY5, TRIT_OP_IMM),                 // 16 SH
    Format(ANY7, ANY5, ANY5, TRIT_F010, ANY5, TRIT_OP_IMM),                 // 17 SW
    Format(ANY7, EVEN5, ZERO5, F000, ANY5, TRIT_OP),                        // 18 ADD
    Format(ANY7, EVEN5, TRIT_TOP5, F000, ANY5, TRIT_OP),                    // 19 SUB
    Format(ANY7, EVEN5, ZERO5, TRIT_F001, ANY5, TRIT_OP),                   // 20 SLL
    Format(ANY7, EVEN5, ZERO5, TRIT_F010, ANY5, TRIT_OP),                   // 21 SLT
    Format(ANY7, EVEN5, ZERO5, TRIT_F011, ANY5, TRIT_OP),                   // 22 SLTU
    Format(ANY7, EVEN5, ZERO5, TRIT_F100, ANY5, TRIT_OP),                   // 23 XOR
    Format(ANY7, EVEN5, ZERO5, TRIT_F101, ANY5, TRIT_OP),                   // 24 SRL
    Format(ANY7, EVEN5, TRIT_TOP5, TRIT_F101, ANY5, TRIT_OP),               // 25 SRA
    Format(ANY7, EVEN5, ZERO5, TRIT_F110, ANY5, TRIT_OP),                   // 26 OR
    Format(ANY7, EVEN5, ZERO5, TRIT_F111, ANY5, TRIT_OP),                   // 27 AND
    Format(ANY7, ANY5, ANY5, ANY3, ANY5, TRIT_LUI),                         // 28 LUI
    Format(ANY7, ANY5, ANY5, F000, ANY5, TRIT_BRANCH),                      // 29 BEQ
    Format(ANY7, ANY5, ANY5, TRIT_F001, ANY5, TRIT_BRANCH),                 // 30 BNE
    Format(ANY7, ANY5, ANY5, TRIT_F100, ANY5, TRIT_BRANCH),                 // 31 BLT
    Format(ANY7, ANY5, ANY5, TRIT_F101, ANY5, TRIT_BRANCH),                 // 32 BGE
    Format(ANY7, ANY5, ANY5, TRIT_F110, ANY5, TRIT_BRANCH),                 // 33 BLTU
    Format(ANY7, ANY5, ANY5, TRIT_F111, ANY5, TRIT_BRANCH),                 // 34 BGEU
    Format(ANY7, ANY5, ANY5, F000, ANY5, TRIT_JALR),                        // 35 JALR
    Format(ANY7, ANY5, ANY5, ANY3, ANY5, TRIT_JAL)                          // 36 JAL
  ]
}
