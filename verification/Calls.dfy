/** The calls of the processor as data: when each is defined, what it does, what it answers, and what
    every run of calls keeps. */
module Calls {
  import opened Words
  import opened Loader
  import opened MachineModel

  datatype Call =
    | CallInit
    | CallPcUpdate(offset: Tr32)
    | CallPcWrite(addr: Tr32)
    | CallPcRead
    | CallRegWrite(regIdx: nat, word: Tr32)
    | CallRegRead(readIdx: nat)
    | CallMemReadB
    | CallMemWriteB(byte: Tr8)
    | CallMemoryRead(from: Tr32)
    | CallMemoryWrite(at: Tr32, data: Tr8)
    | CallLoadByte(inst: Tr32)
    | CallLoadRom(romBytes: seq<Byte>)
    | CallLoadRam(ramBytes: seq<Byte>)

  datatype Reply = Done | WordRead(word: Tr32) | TryteRead(tryte: Tr8) | Code(code: int)

  /** The call neither stops the program nor leaves an array. */
  predicate Enabled(m: Machine, call: Call) {
    match call
    case CallMemWriteB(_) => PcInRam(m)
    case CallMemoryRead(from) => InArray(ReadSite(Num(from)))
    case CallMemoryWrite(at, _) => InArray(WriteSite(Num(at)))
    case CallLoadRom(bytes) => |bytes| / 2 <= 122
    case CallLoadRam(bytes) => |bytes| / 2 <= 122
    case _ => true
  }

  /** The machine after a call. A call that is not enabled stores what it stores before it stops. */
  function Step(m: Machine, call: Call): Machine {
    match call
    case CallInit => Init(m)
    case CallPcUpdate(offset) => PcUpdate(m, offset)
    case CallPcWrite(addr) => m.(pc := addr)
    case CallRegWrite(regIdx, word) => RegWrite(m, regIdx, word)
    case CallMemWriteB(byte) => if PcInRam(m) then MemWriteB(m, byte) else m
    case CallMemoryWrite(at, data) => if InArray(WriteSite(Num(at))) then WriteCell(m, Num(at), data) else m
    case CallLoadByte(inst) => LoadByte(m, inst)
    case CallLoadRom(bytes) => m.(rom := Loaded(m.rom, bytes))
    case CallLoadRam(bytes) => m.(ram := Loaded(m.ram, bytes))
    case _ => m
  }

  /** What the call answers. A read that names no register or no cell leaves its zeroed result. */
  function Answer(m: Machine, call: Call): Reply
    requires Enabled(m, call)
  {
    match call
    case CallPcRead => WordRead(m.pc)
    case CallRegRead(i) => WordRead(if i > 15 then Zeros(32) else m.reg[i])
    case CallMemReadB => TryteRead(MemReadB(m, Zeros(8)))
    case CallMemoryRead(from) => TryteRead(ReadCell(m, Num(from)))
    case CallMemoryWrite(at, _) => Code(if RamAddress(Num(at)) then 0 else 1)
    case _ => Done
  }

  /** A run: the machine at the end and the answers, up to the first call that is not enabled. */
  function RunMachine(m: Machine, calls: seq<Call>): (r: (Machine, seq<Reply>))
    decreases calls
  {
    if |calls| == 0 then (m, [])
    else if !Enabled(m, calls[0]) then (Step(m, calls[0]), [])
    else
      var rest := RunMachine(Step(m, calls[0]), calls[1..]);
      (rest.0, [Answer(m, calls[0])] + rest.1)
  }

  // ---------------------------------------------------------------- what every run keeps

  predicate TritCells(cells: seq<seq<int>>) {
    forall i :: 0 <= i < |cells| ==> IsTrits(cells[i])
  }

  /** Every stored trit is -1, 0 or 1. */
  predicate AllTrits(m: Machine) {
    IsTrits(m.pc) && IsTrits(m.csr) && TritCells(m.reg) && TritCells(m.rom) && TritCells(m.ram)
  }

  /** The caller passes normalised data where the call stores it as it is. */
  predicate NormalData(call: Call) {
    match call
    case CallPcWrite(addr) => IsTrits(addr)
    case CallRegWrite(_, word) => IsTrits(word)
    case CallMemWriteB(byte) => IsTrits(byte)
    case CallMemoryWrite(_, data) => IsTrits(data)
    case _ => true
  }

  lemma InitKeepsTrits(m: Machine)
    requires AllTrits(m)
    ensures AllTrits(Init(m))
  {
  }

  lemma LoadedTrits(cells: Cells, bytes: seq<Byte>)
    requires TritCells(cells)
    ensures TritCells(Loaded(cells, bytes))
  {
  }

  lemma LoadByteKeepsTrits(m: Machine, inst: Tr32)
    requires AllTrits(m)
    ensures AllTrits(LoadByte(m, inst))
  {
  }

  /** Every call keeps every stored trit a trit. */
  lemma StepKeepsTrits(m: Machine, call: Call)
    requires AllTrits(m) && NormalData(call)
    ensures AllTrits(Step(m, call))
  {
    match call
    case CallInit => InitKeepsTrits(m);
    case CallLoadByte(inst) => LoadByteKeepsTrits(m, inst);
    case CallLoadRom(bytes) => LoadedTrits(m.rom, bytes);
    case CallLoadRam(bytes) => LoadedTrits(m.ram, bytes);
    case _ =>
  }

  /** So does every run. */
  lemma {:induction false} RunKeepsTrits(m: Machine, calls: seq<Call>)
    requires AllTrits(m)
    requires forall i :: 0 <= i < |calls| ==> NormalData(calls[i])
    ensures AllTrits(RunMachine(m, calls).0)
    decreases calls
  {
    if |calls| == 0 {
    } else {
      assert NormalData(calls[0]);
      assert forall i :: 0 <= i < |calls| - 1 ==> calls[1..][i] == calls[i + 1];
      StepKeepsTrits(m, calls[0]);
      RunKeepsTrits(Step(m, calls[0]), calls[1..]);
    }
  }

  /** Starting from static storage, after init_cpu, every run of calls with normalised data keeps the
      machine invariant. */
  lemma {:induction false} FromPowerOn(calls: seq<Call>)
    requires forall i :: 0 <= i < |calls| ==> NormalData(calls[i])
    ensures AllTrits(RunMachine(Init(Blank()), calls).0)
  {
    InitKeepsTrits(Blank());
    RunKeepsTrits(Init(Blank()), calls);
  }

  /** ROM changes only by loading and by init_cpu. */
  lemma {:induction false} RunKeepsRom(m: Machine, calls: seq<Call>)
    requires forall i :: 0 <= i < |calls| ==> !calls[i].CallLoadRom? && !calls[i].CallInit?
    ensures RunMachine(m, calls).0.rom == m.rom && RunMachine(m, calls).0.csr == m.csr
    decreases calls
  {
    if |calls| == 0 {
    } else {
      assert !calls[0].CallLoadRom? && !calls[0].CallInit?;
      assert forall i :: 0 <= i < |calls| - 1 ==> calls[1..][i] == calls[i + 1];
      RunKeepsRom(Step(m, calls[0]), calls[1..]);
    }
  }
}
