/** Runs of calls on the processor object. */
module Driver {
  import opened Words
  import opened Loader
  import opened MachineModel
  import opened Calls
  import opened IntegerMachine
  import opened Cpu

  /** One call; None when it is not enabled, with whatever it stored before it stopped. */
  method Perform(cpu: CpuTrit, call: Call) returns (answer: Option<Reply>)
    requires cpu.Valid()
    modifies cpu, cpu.reg, cpu.instRomArr, cpu.dataRamArr
    ensures cpu.Valid() && cpu.State() == Step(old(cpu.State()), call)
    ensures answer == if Enabled(old(cpu.State()), call) then Some(Answer(old(cpu.State()), call)) else None
  {
    answer := Some(Done);
    match call
    case CallInit => cpu.InitCpu();
    case CallPcUpdate(offset) => cpu.TrsPcUpdate(offset);
    case CallPcWrite(addr) => cpu.TrsPcWrite(addr);
    case CallPcRead =>
      var word := cpu.TrsPcRead();
      answer := Some(WordRead(word));
    case CallRegWrite(i, word) => cpu.TrsRegWrite(i, word);
    case CallRegRead(i) =>
      var word := cpu.TrsRegRead(i, Zeros(32));
      answer := Some(WordRead(word));
    case CallMemReadB =>
      var tryte := cpu.TrsMemReadB(Zeros(8));
      answer := Some(TryteRead(tryte));
    case CallMemWriteB(byte) =>
      var ok := cpu.TrsMemWriteB(byte);
      if !ok {
        answer := None;
      }
    case CallMemoryRead(from) =>
      var read := cpu.MemoryRead(from);
      answer := if read.Some? then Some(TryteRead(read.value)) else None;
    case CallMemoryWrite(at, data) =>
      var code := cpu.MemoryWrite(at, data);
      answer := if code.Some? then Some(Code(code.value)) else None;
    case CallLoadByte(inst) => cpu.InstTrsLb(inst);
    case CallLoadRom(bytes) =>
      var outcome := cpu.LoadRom(bytes);
      answer := if outcome == LoadDone then Some(Done) else None;
    case CallLoadRam(bytes) =>
      var outcome := cpu.LoadRam(bytes);
      answer := if outcome == LoadDone then Some(Done) else None;
  }

  /** The run reaches machine m with these answers, and the rest of the calls remain. */
  ghost predicate Reached(start: Machine, calls: seq<Call>, m: Machine, rest: seq<Call>, answers: seq<Reply>) {
    var all, after := RunMachine(start, calls), RunMachine(m, rest);
    all.0 == after.0 && all.1 == answers + after.1
  }

  lemma ReachedFirst(start: Machine, calls: seq<Call>)
    ensures Reached(start, calls, start, calls, [])
  {
  }

  lemma ReachedNext(start: Machine, calls: seq<Call>, m: Machine, rest: seq<Call>,
                    answers: seq<Reply>)
    requires |rest| > 0 && Enabled(m, rest[0])
    requires Reached(start, calls, m, rest, answers)
    ensures Reached(start, calls, Step(m, rest[0]), rest[1..], answers + [Answer(m, rest[0])])
  {
  }

  /** A sequence of calls, up to the first that is not enabled. */
  method Execute(cpu: CpuTrit, calls: seq<Call>) returns (answers: seq<Reply>)
    requires cpu.Valid()
    modifies cpu, cpu.reg, cpu.instRomArr, cpu.dataRamArr
    ensures cpu.Valid()
    ensures cpu.State() == RunMachine(old(cpu.State()), calls).0
    ensures answers == RunMachine(old(cpu.State()), calls).1
  {
    answers := [];
    var rest := calls;
    ReachedFirst(cpu.State(), calls);
    while |rest| > 0
      invariant cpu.Valid()
      invariant Reached(old(cpu.State()), calls, cpu.State(), rest, answers)
      decreases |rest|
    {
      ghost var m, before := cpu.State(), answers;
      var answer := Perform(cpu, rest[0]);
      if answer.None? {
        return;
      }
      answers := answers + [answer.value];
      ReachedNext(old(cpu.State()), calls, m, rest, before);
      rest := rest[1..];
    }
  }

  /** A program start: a new processor, initialised, and then the calls. Every number is zero at
      first but those of the registers. */
  method ExecuteFromPowerOn(calls: seq<Call>) returns (cpu: CpuTrit, answers: seq<Reply>)
    ensures fresh(cpu) && cpu.Valid()
    ensures cpu.State() == RunMachine(Init(Blank()), calls).0
    ensures Abs(cpu.State()) == RunNumbers(StartNumbers(), calls).0
    ensures AnswerNumbers(answers) == RunNumbers(StartNumbers(), calls).1
  {
    cpu := new CpuTrit();
    cpu.InitCpu();
    PowerOnNumbers();
    answers := Execute(cpu, calls);
    RunAgrees(Init(Blank()), calls);
  }
}
