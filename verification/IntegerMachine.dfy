/** The processor as plain integer arithmetic: numbers instead of words in pc, csr, the registers and
    all 243 cells of each memory array. Every run of calls on the processor is a run of this machine. */
module IntegerMachine {
  import opened Powers
  import opened Words
  import opened Adder
  import opened Bits
  import opened Loader
  import opened RegisterField
  import opened MachineModel
  import opened Calls

  type NumberCells = c: seq<int> | |c| == 243 witness seq(243, _ => 0)

  type NumberRegisters = r: seq<int> | |r| == 16 witness seq(16, _ => 0)

  datatype Numbers = Numbers(pc: int, csr: int, reg: NumberRegisters, rom: NumberCells, ram: NumberCells)

  /** v brought into the range of n trits by a multiple of 3^n. */
  function Wrap(n: nat, v: int): int {
    (v + HalfRange(n)) % Pow3(n) - HalfRange(n)
  }

  // ---------------------------------------------------------------- the machine

  /** The numbers at a program start. */
  function StartNumbers(): Numbers {
    Numbers(0, 0, seq(16, i requires 0 <= i < 16 => InBase3(i)), seq(243, _ => 0), seq(243, _ => 0))
  }

  /** Clearing the low n trits. */
  function ClearLow(n: nat, v: int): int {
    v - Wrap(n, v)
  }

  function ClearedRom(c: NumberCells): NumberCells {
    seq(242, _ => 0) + c[242..]
  }

  function ClearedRam(): NumberCells {
    seq(243, _ => 0)
  }

  /** Each pair of bytes gives the difference of the two, read in base 3. */
  function LoadNumbers(c: NumberCells, bytes: seq<Byte>): NumberCells {
    seq(243, i requires 0 <= i < 243 =>
      var k := i - CENTRE;
      if 0 <= k < |bytes| / 2 then InBase3(bytes[2 * k]) - InBase3(bytes[2 * k + 1]) else c[i])
  }

  /** The number of the cell at pc; zero when pc is outside. */
  function AtPc(x: Numbers): int {
    if -120 <= x.pc <= 120 then x.ram[CENTRE + x.pc] else 0
  }

  /** The register that the load writes, from the trits of its field. */
  function LoadTarget(inst: Tr32): nat {
    (15 + Excess(7, Sign(inst[7])) + Excess(8, Sign(inst[8])) + Excess(9, Sign(inst[9]))
     + Excess(10, Sign(inst[10])) + Excess(11, Sign(inst[11]))) % 256
  }

  predicate NumbersEnabled(x: Numbers, call: Call) {
    match call
    case CallMemWriteB(_) => -120 <= x.pc <= 120
    case CallMemoryRead(from) => InArray(ReadSite(Num(from)))
    case CallMemoryWrite(at, _) => InArray(WriteSite(Num(at)))
    case CallLoadRom(bytes) => |bytes| / 2 <= 122
    case CallLoadRam(bytes) => |bytes| / 2 <= 122
    case _ => true
  }

  function NumbersStep(x: Numbers, call: Call): Numbers {
    match call
    case CallInit =>
      Numbers(ClearLow(16, x.pc), ClearLow(31, x.csr), seq(16, i requires 0 <= i < 16 => InBase3(i)),
              ClearedRom(x.rom), ClearedRam())
    case CallPcUpdate(offset) => x.(pc := Wrap(|offset|, x.pc + Num(offset)))
    case CallPcWrite(addr) => x.(pc := Num(addr))
    case CallRegWrite(i, word) => if i > 15 then x else x.(reg := x.reg[i := Num(word)])
    case CallMemWriteB(byte) =>
      if -120 <= x.pc <= 120 then x.(ram := x.ram[CENTRE + x.pc := Num(byte)]) else x
    case CallMemoryWrite(at, data) =>
      if RamAddress(Num(at)) then x.(ram := x.ram[CENTRE + Num(at) - RAM_BASE := Num(data)]) else x
    case CallLoadByte(inst) =>
      if LoadTarget(inst) > 15 then x else x.(reg := x.reg[LoadTarget(inst) := AtPc(x)])
    case CallLoadRom(bytes) => x.(rom := LoadNumbers(x.rom, bytes))
    case CallLoadRam(bytes) => x.(ram := LoadNumbers(x.ram, bytes))
    case _ => x
  }

  function NumbersAnswer(x: Numbers, call: Call): Option<int> {
    match call
    case CallPcRead => Some(x.pc)
    case CallRegRead(i) => Some(if i > 15 then 0 else x.reg[i])
    case CallMemReadB => Some(AtPc(x))
    case CallMemoryRead(from) =>
      var a := Num(from);
      Some(if RomAddress(a) then x.rom[CENTRE + a] else if RamAddress(a) then x.ram[CENTRE + a - RAM_BASE] else 0)
    case CallMemoryWrite(at, _) => Some(if RamAddress(Num(at)) then 0 else 1)
    case _ => None
  }

  function RunNumbers(x: Numbers, calls: seq<Call>): (r: (Numbers, seq<Option<int>>))
    decreases calls
  {
    if |calls| == 0 then (x, [])
    else if !NumbersEnabled(x, calls[0]) then (NumbersStep(x, calls[0]), [])
    else
      var rest := RunNumbers(NumbersStep(x, calls[0]), calls[1..]);
      (rest.0, [NumbersAnswer(x, calls[0])] + rest.1)
  }

  // ---------------------------------------------------------------- what a machine denotes

  function CellNumbers(cells: Cells): (c: NumberCells)
    ensures forall i :: 0 <= i < 243 ==> c[i] == Num(cells[i])
  {
    seq(243, i requires 0 <= i < 243 => Num(cells[i]))
  }

  function RegNumbers(reg: Registers): (r: NumberRegisters)
    ensures forall i :: 0 <= i < 16 ==> r[i] == Num(reg[i])
  {
    seq(16, i requires 0 <= i < 16 => Num(reg[i]))
  }

  function Abs(m: Machine): Numbers {
    Numbers(Num(m.pc), Num(m.csr), RegNumbers(m.reg), CellNumbers(m.rom), CellNumbers(m.ram))
  }

  function AnswerNumber(r: Reply): Option<int> {
    match r
    case Done => None
    case WordRead(word) => Some(Num(word))
    case TryteRead(tryte) => Some(Num(tryte))
    case Code(code) => Some(code)
  }

  function AnswerNumbers(rs: seq<Reply>): seq<Option<int>> {
    seq(|rs|, i requires 0 <= i < |rs| => AnswerNumber(rs[i]))
  }

  // ---------------------------------------------------------------- words and wrapping

  lemma {:induction false} WrapIsEncode(n: nat, v: int)
    ensures Wrap(n, v) == Num(Encode(n, v))
  {
    NumOfEncode(n, v);
    NumEncoded(Encode(n, v));
    Remainder(v + HalfRange(n), Pow3(n), Overflow(n, v), Num(Encode(n, v)) + HalfRange(n));
  }

  lemma SumWraps(x: seq<int>, y: seq<int>)
    requires |x| == |y|
    ensures Num(Add(x, y)) == Wrap(|y|, Num(x) + Num(y))
  {
    WrapIsEncode(|x|, Num(x) + Num(y));
  }

  lemma Remainder(a: int, m: int, k: int, r: int)
    requires 0 <= r < m && a == r + m * k
    ensures a % m == r
  {
    assert m * (k + 1) == m * k + m;
    DivIs(a, m, k);
  }

  lemma {:induction false} ValueAppend(w: seq<int>, x: seq<int>)
    ensures Value(w + x) == Value(w) + Pow3(|w|) * Value(x)
  {
    if |w| == 0 {
      assert w + x == x;
    } else {
      assert (w + x)[1..] == w[1..] + x;
      ValueAppend(w[1..], x);
      Triple(Pow3(|w| - 1), Value(x));
    }
  }

  /** Zeroing the low n trits of a word subtracts the number they hold. */
  lemma ClearedWord(w: seq<int>, n: nat)
    requires n <= |w|
    ensures Num(Zeros(n) + w[n..]) == ClearLow(n, Num(w))
  {
    var low, high := Norm(w)[..n], Norm(w)[n..];
    assert Norm(w) == low + high;
    assert Norm(Zeros(n) + w[n..]) == Zeros(n) + high;
    ValueAppend(low, high);
    ValueAppend(Zeros(n), high);
    ValueZeros(n);
    ValueBound(low);
    EncodeUnique(n, Num(w), Value(low), Value(high));
    NormOfTrits(Encode(n, Num(w)));
    WrapIsEncode(n, Num(w));
  }

  // ---------------------------------------------------------------- each call

  lemma CellStored(cells: Cells, i: nat, w: Tr8)
    requires i < 243
    ensures CellNumbers(cells[i := w]) == CellNumbers(cells)[i := Num(w)]
  {
  }

  lemma RegStored(reg: Registers, i: nat, w: Tr32)
    requires i < 16
    ensures RegNumbers(reg[i := w]) == RegNumbers(reg)[i := Num(w)]
  {
  }

  lemma InitRegs(m: Machine)
    ensures RegNumbers(Init(m).reg) == seq(16, i requires 0 <= i < 16 => InBase3(i))
  {
    assert Pow2(4) == 16;
    Pow2Monotone(4, 32);
    forall i | 0 <= i < 16
      ensures Num(Init(m).reg[i]) == InBase3(i)
    {
      ValueOfBits(32, i);
      NormOfTrits(BitTrits(32, i));
    }
  }

  lemma InitCells(m: Machine)
    ensures CellNumbers(Init(m).rom) == ClearedRom(CellNumbers(m.rom))
    ensures CellNumbers(Init(m).ram) == ClearedRam()
  {
    NormOfTrits(Zeros(8));
    ValueZeros(8);
  }

  lemma InitWords(m: Machine)
    ensures Num(Init(m).pc) == ClearLow(16, Num(m.pc)) && Num(Init(m).csr) == ClearLow(31, Num(m.csr))
  {
    ClearedWord(m.pc, 16);
    ClearedWord(m.csr, 31);
  }

  lemma InitAgrees(m: Machine)
    ensures Abs(Init(m)) == NumbersStep(Abs(m), CallInit)
  {
    InitWords(m);
    InitRegs(m);
    InitCells(m);
  }

  /** After initialisation of static storage every number is zero but those of the registers. */
  lemma PowerOnNumbers()
    ensures Abs(Init(Blank())) == StartNumbers()
         == Numbers(0, 0, seq(16, i requires 0 <= i < 16 => InBase3(i)), seq(243, _ => 0), seq(243, _ => 0))
  {
    ZeroNumbers();
    InitRegs(Blank());
    assert Init(Blank()).pc == Zeros(32) && Init(Blank()).csr == Zeros(32);
    assert CellNumbers(Init(Blank()).rom) == seq(243, _ => 0);
    assert CellNumbers(Init(Blank()).ram) == seq(243, _ => 0);
  }

  lemma ZeroNumbers()
    ensures Num(Zeros(8)) == 0 && Num(Zeros(32)) == 0
  {
    NormOfTrits(Zeros(8));
    ValueZeros(8);
    NormOfTrits(Zeros(32));
    ValueZeros(32);
  }

  lemma LoadedAgrees(cells: Cells, bytes: seq<Byte>)
    ensures CellNumbers(Loaded(cells, bytes)) == LoadNumbers(CellNumbers(cells), bytes)
  {
    forall i | 0 <= i < 243
      ensures Num(Loaded(cells, bytes)[i]) == LoadNumbers(CellNumbers(cells), bytes)[i]
    {
      LoadedNumber(cells, bytes, i);
    }
  }

  lemma LoadedNumber(cells: Cells, bytes: seq<Byte>, i: nat)
    requires i < 243
    ensures Num(Loaded(cells, bytes)[i]) == LoadNumbers(CellNumbers(cells), bytes)[i]
  {
    var k := i - CENTRE;
    LoadedCell(cells, bytes, k);
    if 0 <= k < |bytes| / 2 {
      TryteValue(bytes[2 * k], bytes[2 * k + 1]);
    }
  }

  lemma LoadedCell(cells: Cells, bytes: seq<Byte>, k: int)
    requires -121 <= k <= 121
    ensures Loaded(cells, bytes)[CENTRE + k]
         == if 0 <= k < |bytes| / 2 then Tryte(bytes[2 * k], bytes[2 * k + 1]) else cells[CENTRE + k]
  {
    CentreLoad(|bytes|);
  }

  lemma AtPcAgrees(m: Machine)
    ensures Num(MemReadB(m, Zeros(8))) == AtPc(Abs(m))
  {
    NormOfTrits(Zeros(8));
    ValueZeros(8);
  }

  lemma LoadTargetIs(inst: Tr32)
    ensures LoadTarget(inst) == RegIndex(inst)
  {
    IndexExactly(inst);
  }

  lemma StoreAgrees(m: Machine, i: nat, w: Tr32, n: int)
    requires n == Num(w)
    ensures Abs(RegWrite(m, i, w)) == if i > 15 then Abs(m) else Abs(m).(reg := Abs(m).reg[i := n])
  {
    if i <= 15 {
      RegStored(m.reg, i, w);
    }
  }

  lemma LoadByteAgrees(m: Machine, inst: Tr32)
    ensures Abs(LoadByte(m, inst)) == NumbersStep(Abs(m), CallLoadByte(inst))
  {
    var tryte := MemReadB(m, Zeros(8));
    LoadTargetIs(inst);
    AtPcAgrees(m);
    WidenKeepsNumber(tryte);
    StoreAgrees(m, RegIndex(inst), Widen(tryte), AtPc(Abs(m)));
  }

  lemma WriteCellAgrees(m: Machine, at: Tr32, data: Tr8)
    requires InArray(WriteSite(Num(at)))
    ensures Abs(WriteCell(m, Num(at), data)) == NumbersStep(Abs(m), CallMemoryWrite(at, data))
  {
    if RamAddress(Num(at)) {
      CellStored(m.ram, CENTRE + Num(at) - RAM_BASE, data);
    }
  }

  lemma PcUpdateAgrees(m: Machine, offset: Tr32)
    ensures Abs(PcUpdate(m, offset)) == NumbersStep(Abs(m), CallPcUpdate(offset))
  {
    SumWraps(m.pc, offset);
  }

  lemma RegWriteAgrees(m: Machine, i: nat, word: Tr32)
    ensures Abs(RegWrite(m, i, word)) == NumbersStep(Abs(m), CallRegWrite(i, word))
  {
    StoreAgrees(m, i, word, Num(word));
  }

  lemma MemWriteAgrees(m: Machine, byte: Tr8)
    requires PcInRam(m)
    ensures Abs(MemWriteB(m, byte)) == NumbersStep(Abs(m), CallMemWriteB(byte))
  {
    CellStored(m.ram, CENTRE + Num(m.pc), byte);
  }

  /** Where the source stops at an assertion or leaves the array, nothing is stored. */
  lemma StoppedAgrees(m: Machine, call: Call)
    requires call.CallMemWriteB? || call.CallMemoryWrite?
    requires !Enabled(m, call)
    ensures Step(m, call) == m && NumbersStep(Abs(m), call) == Abs(m)
  {
  }

  lemma MemoryStepAgrees(m: Machine, call: Call)
    requires call.CallMemWriteB? || call.CallMemoryWrite?
    ensures Abs(Step(m, call)) == NumbersStep(Abs(m), call)
  {
    if !Enabled(m, call) {
      StoppedAgrees(m, call);
    } else if call.CallMemWriteB? {
      MemWriteAgrees(m, call.byte);
    } else {
      WriteCellAgrees(m, call.at, call.data);
    }
  }

  lemma LoadStepAgrees(m: Machine, call: Call)
    requires call.CallLoadRom? || call.CallLoadRam?
    ensures Abs(Step(m, call)) == NumbersStep(Abs(m), call)
  {
    if call.CallLoadRom? {
      LoadedAgrees(m.rom, call.romBytes);
    } else {
      LoadedAgrees(m.ram, call.ramBytes);
    }
  }

  lemma StepAgrees(m: Machine, call: Call)
    ensures Abs(Step(m, call)) == NumbersStep(Abs(m), call)
  {
    match call
    case CallInit => InitAgrees(m);
    case CallPcUpdate(offset) => PcUpdateAgrees(m, offset);
    case CallRegWrite(i, word) => RegWriteAgrees(m, i, word);
    case CallMemWriteB(_) => MemoryStepAgrees(m, call);
    case CallMemoryWrite(_, _) => MemoryStepAgrees(m, call);
    case CallLoadByte(inst) => LoadByteAgrees(m, inst);
    case CallLoadRom(_) => LoadStepAgrees(m, call);
    case CallLoadRam(_) => LoadStepAgrees(m, call);
    case _ =>
  }

  lemma ReadAgrees(m: Machine, from: Tr32)
    requires InArray(ReadSite(Num(from)))
    ensures Some(Num(ReadCell(m, Num(from)))) == NumbersAnswer(Abs(m), CallMemoryRead(from))
  {
    NormOfTrits(Zeros(8));
    ValueZeros(8);
  }

  lemma RegReadAgrees(m: Machine, i: nat)
    ensures AnswerNumber(Answer(m, CallRegRead(i))) == NumbersAnswer(Abs(m), CallRegRead(i))
  {
    NormOfTrits(Zeros(32));
    ValueZeros(32);
  }

  lemma AnswerAgrees(m: Machine, call: Call)
    requires Enabled(m, call)
    ensures AnswerNumber(Answer(m, call)) == NumbersAnswer(Abs(m), call)
  {
    match call
    case CallRegRead(i) => RegReadAgrees(m, i);
    case CallMemReadB => AtPcAgrees(m);
    case CallMemoryRead(from) => ReadAgrees(m, from);
    case _ =>
  }

  // ---------------------------------------------------------------- every run

  lemma AnswersFront(r: Reply, rs: seq<Reply>)
    ensures AnswerNumbers([r] + rs) == [AnswerNumber(r)] + AnswerNumbers(rs)
  {
  }

  /** Over every run the processor stores and answers the numbers of the integer machine, and stops
      where it stops. */
  lemma {:induction false} RunAgrees(m: Machine, calls: seq<Call>)
    ensures Abs(RunMachine(m, calls).0) == RunNumbers(Abs(m), calls).0
    ensures AnswerNumbers(RunMachine(m, calls).1) == RunNumbers(Abs(m), calls).1
    decreases calls
  {
    if |calls| == 0 {
    } else {
      StepAgrees(m, calls[0]);
      if Enabled(m, calls[0]) {
        AnswerAgrees(m, calls[0]);
        RunAgrees(Step(m, calls[0]), calls[1..]);
        AnswersFront(Answer(m, calls[0]), RunMachine(Step(m, calls[0]), calls[1..]).1);
      }
    }
  }

  /** How a number is stored cannot be seen: machines that hold the same numbers answer alike. */
  lemma StorageInvisible(m: Machine, n: Machine, calls: seq<Call>)
    requires Abs(m) == Abs(n)
    ensures AnswerNumbers(RunMachine(m, calls).1) == AnswerNumbers(RunMachine(n, calls).1)
    ensures Abs(RunMachine(m, calls).0) == Abs(RunMachine(n, calls).0)
  {
    RunAgrees(m, calls);
    RunAgrees(n, calls);
  }
}
