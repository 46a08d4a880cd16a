# Verified model of a balanced-ternary RISC-V emulator

The emulator stores numbers as words of balanced trits (-1, 0, 1; trit 0 lowest), decodes 32-trit
instructions by matching text patterns, and keeps a program counter, 16 registers and two memory
arrays that are addressed from their centre. This project models those three parts and proves what
they compute.

* `Powers.dfy`, `Words.dfy`: words of any width as sequences of trits, their value, uniqueness of
  the representation, the encoding of integers and its residue modulo 3^n. The arithmetic of the
  emulator reads a stored trit through its sign, so a stored word `w` denotes
  `Num(w) = Value(Norm(w))`.
* `Adder.dfy`: addition of words as integer addition modulo 3^n, its group laws, and overflow.
* `Ternary.dfy`: the loops of ternary.c (ripple addition and subtraction through pointer cells,
  negation, conversion to C integers) and the two result flags, each proved against the functions
  above.
* `Text.dfy`: the `+0-` text and the base-9 text of a word.
* `Bits.dfy`, `BinaryHelpers.dfy`: unsigned C integers, bits and masks, binary numbers as words, and
  the 16-bit helpers of the binary instruction set.
* `Patterns.dfy`, `Termination.dfy`, `PatternLaws.dfy`: what a pattern means, the two matcher loops,
  exactly when they terminate, and the laws of patterns: masks, translation, overlap, inclusion.
* `Tables.dfy`, `Entries.dfy`, `Dispatch.dfy`, `Decoder.dfy`, `Encodings.dfy`: the two tables of 37
  patterns, their texts and fields, the first-match searches and their agreement, a decoder that
  computes the entry of every word from the numbers in its fields, and each entry as a condition on
  the opcode, funct3 and fixed bits of a 32-bit instruction.
* `RegisterField.dfy`, `Loader.dfy`, `MachineModel.dfy`, `Cpu.dfy`: decoding a register index,
  loading trytes, the processor state as a value, and the processor as a class that updates its
  fields in place.
* `Calls.dfy`, `Driver.dfy`, `Runs.dfy`, `IntegerMachine.dfy`: runs of calls, the method that performs
  a run on the class, and what holds over whole runs: trits stay trits, addressed memory is a map,
  pc is a sum, and the processor with all its cells is a machine of integers.
* `SelfTest.dfy`: the address and the instruction that the start-up self-test uses, and its answers.

The tables are written by field; `Tables.PatternText` joins the fields into the text that the
matchers read. Reading a C variable before it is set is modelled by an arbitrary value, so results
about `sum_t`, `add_trs`, `trits_to_uint8` and `smtr32` hold whatever the variable contained. Where
the source would index outside an array, or stop at an assertion, the model stops and says so in its
result.

Results that answer a question the code leaves open, or that differ from what a name or a comment
suggests:

* The comment in `trs_flag_overflow` asks what the overflow condition is for trits.
  `Adder.OverflowFromTopTrits` gives it: with a, b and s the top trits of the operands and the
  result, the addition overflows exactly when a + b - s is at least 2 in magnitude, upwards when it
  is positive.
* `trs_flag_sign` scans from the lowest trit. `Ternary.FlagSignIsSign` shows that it is the sign of
  the number exactly when the word is zero or the trits at the lowest and at the highest non-zero
  position agree. `Ternary.FlagSignFails` gives a word on which they do not: -1 at trit 0 and +1 at
  trit 1, the number 2, has flag -1.
* `sign_ext` keeps bits above the sign bit when the sign bit is clear.
  `BinaryHelpers.SignExtWidens` gives the exact condition under which it widens, and
  `BinaryHelpers.SignExtFails` an input that fails it: value 2 with sign bit 0 stays 2 instead of
  becoming 0. The two call sites (inst.c:153, a byte with sign bit 7, and inst.c:215, a 4-bit field
  with sign bit 3) pass only values that fit, so `BinaryHelpers.SignExtOfField` covers the program.
* A matcher loop does not advance on an unknown character. `Termination.HaltsExactly` gives the exact
  condition for a word and a pattern, which is also the precondition of the two matchers, and
  `Termination.TritpatHalts` and `Termination.BitpatHalts` show that a pattern is safe for every word
  exactly when it is rejected at its header or its first 32 symbols are known ones.
* Entries tSRAI and tSW are never selected, because tSLTI comes first; tSH gives way to tSLLI. These
  are the only overlaps (`Decoder.OverlapsExactly`, `Decoder.Selection`), and
  `Decoder.SelectsEntry` gives the selected entry of every word, or none, by its fields alone.
* `memory_read` and `memory_write` compare with the size of an array that is indexed from its
  centre. `MachineModel.ReadInArray` and `MachineModel.WriteInArray` state for every address when the
  index stays in the array: reads leave it exactly at 122 to 242 and at RAM_BASE + 122 to
  RAM_BASE + 242, and writes exactly at the addresses above RAM_BASE + 121 whose offset from RAM_BASE
  modulo 2^32 is below 242, because that offset is cut to 32 bits.
  `MachineModel.AccessesOutside` gives address words for all three.
* The loader has the same flaw: `set_trytes_from_str` checks its index against 243 (main.c:157) but
  is given the centre of an array (main.c:273, main.c:283), where 122 cells remain. `Loader.CentreLoad`
  shows that the check never fires and that a load stays in the array exactly up to 122 trytes.
* `trs_get_trits` combines trits with `3^i * t`, and `^` is exclusive-or in C. The register index of
  the load instruction is the number in its field for one field only, that of the number 5
  (`RegisterField.IndexIsNumberOnlyForFive`); `RegisterField.IndexExactly` gives the index of every
  word, and `RegisterField.IndexFails` a word with -3 in the field that loads register 7. On the word of a binary instruction the load writes
  register 15 when the field is zero and no register otherwise (`MachineModel.BinaryLoad`).

* The entries of register-register instructions and shifts fix bits 15 to 20, where an instruction
  holds rs1, and not bits 25 to 31, where it holds funct7. ADD is selected exactly when the opcode is
  0x33, funct3 is 0 and those bits are clear (`Encodings.AddSelected`), so `add x1, x2, x3` selects no
  entry (`Encodings.AddNotDecoded`). SH and SW carry the opcode 0x13 (`Encodings.StoreEntries`).

## Model

| member | source | states |
|---|---|---|
| Words.SameNumber | ternary.c:231-243 | two stored words denote the same number exactly when they normalise to the same trits |
| Words.ValueUnique | ternary.c:165-177 | equal numbers have equal trits: representations are unique at every width |
| Words.ValueBound | ternary.c:165-177 | n trits stay within (3^n - 1)/2 in magnitude |
| Words.ValueBijection | ternary.c:165-177 | words of width n and integers of magnitude at most (3^n - 1)/2 are in bijection |
| Words.EncodeIsResidue | ternary.c:165-177 | the low n trits of an integer denote its only residue modulo 3^n in the balanced range |
| Adder.AddCommutes | ternary.c:675-713 | addition of words commutes |
| Adder.AddAssociative | ternary.c:675-713 | addition is associative trit for trit, even when intermediate sums overflow |
| Adder.AddZero | ternary.c:675-713 | adding the zero word on either side normalises |
| Adder.AddInverse | ternary.c:829-848 | a word plus its negation is zero, on both sides |
| Adder.NegNum | ternary.c:829-848 | negation negates the number exactly, is its own inverse and commutes with normalisation |
| Adder.SubIsAddNeg | ternary.c:718-755 | subtraction is addition of the negation |
| Adder.AddUndoesSub | ternary.c:718-755 | adding back what was subtracted returns the normalised word, even after overflow |
| Adder.SubUndoesAdd | ternary.c:718-755 | subtracting back what was added returns the normalised word, even after overflow |
| Adder.SumSplits | ternary.c:684-712 | the exact sum is the result plus 3^n times the carry that is dropped |
| Adder.OverflowCriterion | ternary.c:684-712 | the dropped carry is a trit, non-zero exactly when the true sum is out of range, with the sign of the true sum; otherwise the sum is exact |
| Adder.OverflowFromTopTrits | inst_trit.c:271-281 | the top trits of operands and result decide overflow and its direction |
| Ternary.SumT | ternary.c:466-525 | digit + 3 * carry is the sum of the three signs; old output contents and aliasing of inputs do not matter |
| Ternary.SumCase | ternary.c:474-524 | each case of the switch is the digit and carry of its sum |
| Ternary.AddTrs | ternary.c:675-713 | the ripple loop computes integer addition modulo 3^32, and its last carry is the dropped one |
| Ternary.SubTrs | ternary.c:718-755 | the ripple loop computes integer subtraction modulo 3^32, with the exact difference in result and carry |
| Ternary.NotTrs | ternary.c:829-840 | the loop negates every trit |
| Ternary.NegTrs | ternary.c:845-848 | the same as not_trs |
| Ternary.Pow3Int64 | ternary.c:132-144 | powers of three for every exponent whose power an int64 holds |
| Ternary.Pow3FitsInt64 | ternary.c:132-144 | an int64 holds the powers up to the 39th and no other |
| Ternary.Tr32ToInt64 | ternary.c:165-177 | the number of the word, within (3^32 - 1)/2 |
| Ternary.PartialSum | ternary.c:165-177 | each loop step adds the weighted trit and stays within (3^i - 1)/2 |
| Ternary.Tr16ToInt32 | ternary.c:149-163 | the value of the stored trits modulo 2^32, in spite of truncation at every step |
| Ternary.ToInt32Exact | ternary.c:149-163 | the truncation is the only 32-bit signed number that differs by a multiple of 2^32 |
| Ternary.Tr16Exact | ternary.c:149-163 | exact on normalised trits |
| Ternary.TrsFlagZero | inst_trit.c:250-258 | +1 exactly when all normalised trits are zero |
| Ternary.TrsFlagSign | inst_trit.c:260-269 | the lowest non-zero trit |
| Ternary.FlagsAgreeOnZero | inst_trit.c:250-269 | number zero, no non-zero trit found by the scan, and all signs zero are the same condition |
| Ternary.HighestTritIsSign | inst_trit.c:260-269 | the sign of a number is its highest non-zero trit |
| Ternary.FlagSignIsSign | inst_trit.c:260-269 | the sign flag is the sign exactly when the word is zero or the trits at its lowest and highest non-zero positions agree |
| Ternary.FlagSignFails | inst_trit.c:260-269 | a 32-trit word with a positive number and flag -1 |
| Text.ParseShow | ternary.c:400-415 | writing a word and reading it gives the normalised word |
| Text.ShowParse | ternary.c:903-909 | reading a text over +0- and writing it gives the text |
| Text.ParseIsHorner | ternary.c:400-415 | the number of a text is its left-to-right reading in base 3 |
| Text.Tlog32 | ternary.c:903-909 | the loop writes the word high trit first |
| Text.Smtr32 | ternary.c:400-415 | the trits that the text reaches, after the int8 length and the cap at 32; all of them for 32 characters |
| Text.TakenLengthExact | ternary.c:400-415 | how many characters are read, for every length |
| Text.NineFormKeepsNumber | ternary.c:300-317 | the base-9 text, low digit first, reads back as the number, at every even width |
| Text.NineFormInjective | ternary.c:300-317 | two words have the same base-9 text exactly when they normalise alike |
| Text.NineFormReaches | ternary.c:300-317 | every base-9 text is the text of a normalised word with the number it reads as |
| Text.Tr8ToNineString | ternary.c:332-342 | the buffer holds the text low digit first, reads as the number, and is untouched beyond |
| Text.Tr16ToNineString | ternary.c:385-395 | the same for 16 trits |
| Text.Tr32ToNineString | ternary.c:417-427 | the same for 32 trits, high digit first |
| Bits.AndPow2 | ternary.c:68-68 | the test v & (1 << i) singles out bit i |
| Bits.Uint8ToTr8 | ternary.c:65-75 | trit i is bit i |
| Bits.Uint16ToTr16 | ternary.c:96-106 | trit i is bit i |
| Bits.Uint32ToTr32 | ternary.c:111-121 | trit i is bit i |
| Bits.TritsToUint8 | ternary.c:49-60 | the number of the plus trits, whatever the uninitialised accumulator held |
| Bits.TritsToUint16 | ternary.c:80-91 | the number of the plus trits |
| Bits.BinaryRoundTrip | ternary.c:49-106 | number to word to number is the identity |
| Bits.BinaryWords | ternary.c:49-106 | word to number to word is the identity exactly on words of zeros and ones |
| BinaryHelpers.GetBits | inst.c:100-107 | the field of the value, cut to 16 bits |
| BinaryHelpers.FieldExact | inst.c:100-107 | for every field: (t div 2^s) modulo 2^(e-s+1) up to 16 bits, modulo 2^16 beyond, one bit when the end is not above the start |
| BinaryHelpers.SignExt | inst.c:109-116 | the loop computes the masked union that the lemmas below interpret |
| BinaryHelpers.SignExtExact | inst.c:109-116 | on every input: ones above a set sign bit, otherwise the low 16 bits as they are |
| BinaryHelpers.SignExtWidens | inst.c:109-116 | two's-complement widening holds exactly when the sign bit is set or no stray bit lies above it |
| BinaryHelpers.SignExtFails | inst.c:109-116 | value 2 with sign bit 0 is not widened |
| BinaryHelpers.SignExtOfField | inst.c:109-116 | widening of every value that fits its field, as both call sites pass |
| BinaryHelpers.FlagSignIsNegative | inst.c:122-124 | the sign flag is 1 when the signed 16-bit value is negative and 0 otherwise |
| BinaryHelpers.FlagOverflowExact | inst.c:126-131 | the overflow flag of the masked sum is 1 when the signed sum is out of range and 0 otherwise |
| Patterns.TritpatMatchS | bit_trit_parser.c:51-101 | true exactly when the header is 0t and each of the first 32 symbols is x or equals its trit; separators are skipped |
| Patterns.BitpatMatchS | bit_trit_parser.c:8-49 | true exactly when the header is 0b and each of the first 32 symbols is x or equals its bit; separators are skipped |
| Patterns.TritAnswerMeans | bit_trit_parser.c:51-101 | the answer of the ternary matcher, character by character |
| Patterns.BitAnswerMeans | bit_trit_parser.c:8-49 | the answer of the binary matcher, character by character |
| Termination.SafeHalts | bit_trit_parser.c:21-48 | on a safe pattern the stepwise loop reaches the matcher's answer |
| Termination.HaltsExactly | bit_trit_parser.c:21-99 | a loop ends on a word exactly when the header is wrong or no unknown symbol comes before the first mismatch |
| Termination.PartialDiverges | bit_trit_parser.c:65-99 | a pattern that is not total has a word on which the loop never ends |
| Termination.TritpatHalts | bit_trit_parser.c:51-101 | the ternary matcher ends on every word exactly for total patterns |
| Termination.BitpatHalts | bit_trit_parser.c:8-49 | the binary matcher ends on every value exactly for total patterns |
| PatternLaws.SeparatorsDoNotCount | bit_trit_parser.c:22-25 | a separator may be inserted or removed anywhere without changing any answer |
| PatternLaws.BinaryPatternIsMaskTest | bit_trit_parser.c:21-48 | a well-formed binary pattern is the test (t & mask) == bits for a mask folded from the pattern |
| PatternLaws.TranslationAgrees | bit_trit_parser.c:8-101 | a binary pattern and its ternary translation give the same answer on a value and on its word |
| PatternLaws.OverlapExactly | bit_trit_parser.c:8-101 | two patterns match a common word exactly when no position holds two different digits |
| PatternLaws.SubsumedExactly | bit_trit_parser.c:8-101 | every word of one pattern matches another exactly when each symbol of the other is x or the same |
| Entries.TablesCorrespond | inst_trit.c:468-511 | the tables have 37 entries and correspond entry by entry under 0 to 0 and 1 to + |
| Entries.TextsCorrespond | inst_trit.c:468-511 | as texts, each ternary pattern is the translation of the binary one |
| Entries.AnswerIsHit | inst_trit.c:468-511 | matching an entry's text is matching its six fields at their trit positions |
| Dispatch.TritDispatch | main.c:326-331 | the search returns the first matching entry, or the terminator when none matches |
| Dispatch.BitDispatch | main.c:337-343 | the same for the binary table |
| Dispatch.DecodersAgree | inst.c:485-527 | on every 32-bit value the two searches select the same entry, or both find none |
| Decoder.HitIsNumbers | inst_trit.c:468-511 | a word matches an entry exactly when its opcode, funct3, trit 20 and rs1 field hold the numbers of the entry |
| Decoder.CommonHitExactly | inst_trit.c:468-511 | two entries match a common word exactly when their patterns are compatible |
| Decoder.SubsumedHitExactly | inst_trit.c:468-511 | one entry includes another exactly when its pattern covers the other |
| Decoder.AtMostOneHit | inst_trit.c:479-490 | two entries match one word only in the four listed overlaps |
| Decoder.OverlapsExactly | inst_trit.c:479-490 | the listed overlaps are exactly the pairs that some word matches |
| Decoder.Subsumptions | inst_trit.c:479-490 | SLLI is a case of SH, SRAI a case of SLTI, and SW the same pattern as SLTI |
| Decoder.Selection | main.c:326-331 | what the search selects, independent of order; SRAI and SW never |
| Decoder.BinarySelection | main.c:337-343 | the same description for the binary search |
| Decoder.SelectsEntry | main.c:326-331 | for every word the search selects the entry that a decoder of field numbers computes, or none when it computes none |
| Decoder.BinarySelectsEntry | main.c:337-343 | so does the binary search, on the word of the value |
| Encodings.LoadEntries | inst.c:485-527 | the load entries match exactly opcode 0x03 with funct3 0, 1, 2, 4, 5 |
| Encodings.ImmediateEntries | inst.c:485-527 | ADDI, SLTI, SLTIU, XORI, ORI, ANDI match exactly opcode 0x13 with funct3 0, 2, 3, 4, 6, 7 |
| Encodings.StoreEntries | inst.c:485-527 | SH and SW match exactly opcode 0x13 with funct3 1, 2 |
| Encodings.ShiftEntries | inst.c:485-527 | SLLI, SRLI, SRAI match exactly opcode 0x13, funct3 1, 5, 2 and their fixed bits |
| Encodings.RegisterEntries | inst.c:485-527 | ADD to AND match exactly opcode 0x33, their funct3 and their fixed bits |
| Encodings.BranchEntries | inst.c:485-527 | the branch entries match exactly opcode 0x63 with funct3 0, 1, 4, 5, 6, 7 |
| Encodings.SbAndJalrEntries | inst.c:485-527 | SB and JALR match exactly opcodes 0x23 and 0x67 with funct3 0 |
| Encodings.OpcodeEntries | inst.c:485-527 | AUIPC, LUI, JAL match exactly opcodes 0x17, 0x37, 0x6F |
| Encodings.AddSelected | main.c:337-343 | ADD is selected exactly when opcode, funct3 and the fixed bits are those of its entry |
| Encodings.AddUndecoded | main.c:337-343 | with the opcode and funct3 of ADD and SUB nothing is selected exactly when the fixed bits are those of neither |
| Encodings.AddNotDecoded | main.c:337-343 | add x1, x2, x3 selects no entry |
| Loader.TryteValue | main.c:164-182 | a tryte denotes the difference of its two bytes read as ternary numbers |
| Loader.TryteRoundTrip | main.c:164-182 | a normalised tryte written as plus and minus bytes loads back |
| Loader.LoadTryte | main.c:164-182 | the inner loop writes one cell and nothing else |
| Loader.SetTrytesFromStr | main.c:147-189 | cells from the start are the trytes of the byte pairs, up to the end of the bytes, the size check or the end of the array; the rest is unchanged and the result says which |
| Loader.OutcomeExactly | main.c:156-186 | how a load ends and how many cells it writes, for every size, room and limit |
| Loader.CentreLoad | main.c:157-157 | from the centre of an array the size check never fires, and the load stays inside exactly up to 122 trytes |
| RegisterField.TrsGetTrits | inst_trit.c:214-232 | the sum of 3 xor (i * trit) over the field, or 0 for invalid positions |
| RegisterField.XorSumFront | inst_trit.c:226-229 | every field sums one term for each of its positions |
| RegisterField.IndexExactly | inst_trit.c:297-297 | the register index of every word, from the trits of the field |
| RegisterField.IndexIsNumberOnlyForFive | inst_trit.c:297-297 | the decoded register index is the number in the field only when that number is 5 |
| RegisterField.IndexFails | inst_trit.c:297-297 | a word with -3 in the field decodes to register 7 |
| RegisterField.IndexOfBinaryField | inst_trit.c:297-297 | without minus trits the index is 15 for a zero field and 16 to 42 otherwise |
| MachineModel.ReadInArray | ternary.c:929-956 | for every address, the read stays in its array exactly off 122..242 and RAM_BASE + 122..RAM_BASE + 242 |
| MachineModel.WriteInArray | ternary.c:958-982 | for every address, the write stays in its array exactly unless it lies above RAM_BASE + 121 with its 32-bit offset below 242 |
| MachineModel.AccessesOutside | ternary.c:929-982 | address words whose reads and writes leave the arrays |
| MachineModel.SameCell | ternary.c:929-982 | a read shows a write exactly when the two address words normalise alike |
| MachineModel.ReadRefines | ternary.c:929-956 | a read is a lookup in the map view of memory, with zeros where nothing is mapped |
| MachineModel.WriteRefines | ternary.c:958-982 | a write is a map update at RAM addresses and nothing elsewhere |
| MachineModel.MemReadExact | inst_trit.c:166-181 | a read through pc gives the cell within 120 of the centre, or leaves its result |
| MachineModel.WriteThenRead | inst_trit.c:122-181 | a byte written at pc reads back, and shows at RAM_BASE + pc exactly when pc is not negative |
| MachineModel.WidenKeepsNumber | inst_trit.c:304-314 | widening a tryte keeps its trits and its number, with zero trits above |
| MachineModel.LoadByteExact | inst_trit.c:292-319 | after the load the decoded register holds the number of the tryte at pc and nothing else changed; an index above 15 changes nothing |
| MachineModel.BinaryLoad | inst_trit.c:292-319 | loading the word of a binary instruction writes register 15 or none |
| Cpu.CpuTrit.constructor | main.c:208-208 | every trit of static storage is zero |
| Cpu.CpuTrit.InitCpu | main.c:59-86 | the whole state after initialisation, with the parts it leaves alone |
| Cpu.CpuTrit.TrsPcUpdate | inst_trit.c:31-36 | pc becomes the wrapped sum; nothing else changes |
| Cpu.CpuTrit.TrsPcWrite | inst_trit.c:41-45 | pc becomes the address, trits as stored |
| Cpu.CpuTrit.TrsPcRead | inst_trit.c:50-56 | returns pc, trits as stored |
| Cpu.CpuTrit.TrsRegWrite | inst_trit.c:61-74 | one register changes, none for an invalid index |
| Cpu.CpuTrit.TrsRegRead | inst_trit.c:79-93 | the register, or the old content for an invalid index |
| Cpu.CpuTrit.TrsMemReadB | inst_trit.c:166-181 | the RAM cell at pc within 120 of the centre, otherwise the old content |
| Cpu.CpuTrit.TrsMemWriteB | inst_trit.c:122-138 | the RAM cell at pc changes and nothing else; outside RAM nothing changes and it reports the stop |
| Cpu.CpuTrit.InstTrsLb | inst_trit.c:292-319 | the load step on the whole state, with the register index decoded from the instruction |
| Cpu.CpuTrit.MemoryRead | ternary.c:929-956 | the addressed cell of ROM or RAM, or zeros; None exactly when the index leaves the array |
| Cpu.CpuTrit.MemoryWrite | ternary.c:958-982 | the addressed RAM cell changes and the code is 0, or nothing changes and the code is 1; None exactly when the index leaves the array |
| Cpu.CpuTrit.LoadRom | main.c:269-278 | trytes are loaded from the centre of ROM, and beyond 122 the overrun is reported |
| Cpu.CpuTrit.LoadRam | main.c:280-290 | trytes are loaded from the centre of RAM, and beyond 122 the overrun is reported |
| Runs.MemoryRefinesMap | ternary.c:929-982 | over every in-bounds sequence of reads and writes, replies and final contents are those of a map, and only RAM changes |
| Runs.MapHoldsLastWrite | ternary.c:929-982 | at the end of a run a RAM address holds the last tryte written to it, a ROM address its first content |
| Runs.ReadReturnsLastWrite | ternary.c:929-982 | a read after any run returns the last accepted write, the first content, or zeros |
| Runs.PcIsSum | inst_trit.c:31-36 | after any list of updates pc encodes start plus the sum of the offsets |
| Runs.PcOverRuns | inst_trit.c:31-36 | a number is the decoded pc exactly when it is in range and congruent to that sum modulo 3^32 |
| Runs.PcOrderIrrelevant | inst_trit.c:31-36 | from a normalised pc any order of the offsets gives the same pc, trit for trit |
| Calls.StepKeepsTrits | main.c:59-86 | every call with normalised data keeps every stored trit in -1, 0, 1 |
| Calls.RunKeepsTrits | inst_trit.c:31-181 | so does every run, also one that stops early |
| Calls.RunKeepsRom | ternary.c:958-982 | ROM and csr change only by loading and initialisation |
| Calls.FromPowerOn | main.c:59-86 | the trit invariant holds on every run from static storage and initialisation |
| Driver.Perform | inst_trit.c:31-181 | each call on the object has the effect and the answer of the call on the value, or reports the stop |
| Driver.Execute | inst_trit.c:31-181 | a sequence of calls on the object is the run on the value |
| Driver.ExecuteFromPowerOn | main.c:208-216 | from a program start, a sequence of calls is the run of the integer machine that starts with zeros and the registers as initialised |
| Bits.ValueOfBits | ternary.c:111-121 | the word of a binary number denotes its binary digits read in base 3 |
| IntegerMachine.WrapIsEncode | ternary.c:675-713 | the low n trits of v denote (v + h) mod 3^n - h, with h = (3^n - 1)/2 |
| IntegerMachine.ClearedWord | main.c:82-84 | zeroing the low n trits subtracts the number they hold |
| IntegerMachine.StepAgrees | inst_trit.c:31-181 | each call changes the numbers of pc, csr, registers and all 243 cells of each array as plain integer arithmetic does |
| IntegerMachine.AnswerAgrees | inst_trit.c:50-181 | each enabled call answers the number that the integer machine answers |
| IntegerMachine.RunAgrees | inst_trit.c:31-181 | every run of any calls stores and answers the numbers of the integer machine and stops where it stops |
| IntegerMachine.PowerOnNumbers | main.c:59-86 | after initialisation of static storage all numbers are zero but those of the registers, which hold their index read in base 3 |
| IntegerMachine.StorageInvisible | ternary.c:231-243 | machines that hold the same numbers, however their trits are stored, answer alike over every run |
| SelfTest.RamWordNumber | inst_trit.c:735-738 | the address word of the self-test denotes 0x80000000 |
| SelfTest.BaseCells | cpu_trit.h:35-38 | address 0x80000000 is the centre of RAM for reads and writes, and address 0 the centre of ROM |
| SelfTest.WriteReadsBack | inst_trit.c:735-742 | a tryte written at that word is accepted with code 0, stored at the centre of RAM and read back |
| SelfTest.LoadIsDecoded | inst_trit.c:709-732 | the value 3 and its word select the entry of LB |

## Left out

- NotTrs: trits are unbounded integers here, so the negation of the smallest C int, which C leaves undefined, is not modelled.
- Cpu.CpuTrit.InstTrsLb: its log lines are not modelled, among them one that reads the register array at the decoded index.
- Dispatch.TritDispatch: the handler call is replaced by the index of the entry, since all handlers but the load only print.
- `or_trs`, `and_trs`, `xor_trs`: each loop pass starts again from the first operand, so only trit 31 of the result is computed.
- `trs_sign_ext`, which leaves trits of its result unset, and the stub `trs_flag_overflow`.
- Word access to memory (`trs_rom_read_w`, `trs_mem_read_w`, `trs_mem_write_w`): it indexes 16 trits in cells of 8. Dispatch is modelled on a given word instead of on fetch.
- `smtr8` and `smtr16`: the same loop as `smtr32` at smaller widths.
- `set_bytes_from_str`, the binary loader: `uint8_to_tr8` for each byte, with the same size check as the ternary loader.
- Cpu.CpuTrit.MemoryRead, Cpu.CpuTrit.MemoryWrite, Cpu.CpuTrit.LoadRom and Cpu.CpuTrit.LoadRam: what C does after an index outside the array is undefined; the model stops there.
- Ternary.Pow3Int64: exponents above 39, where the int64 product overflows, which C leaves undefined.
- The binary instruction bodies and their pc, register and memory access, whose state operations are commented out.
- Splitting the command-line text into tokens and reading them as hexadecimal bytes: loading starts from a list of bytes.
- The ELF loader, logging, printing, option handling and the command-line interface.
