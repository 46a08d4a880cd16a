/** Whole runs of calls: addressed memory refines a map, and the program counter is a sum. */
module Runs {
  import opened Words
  import opened Adder
  import opened MachineModel
  import opened Calls

  // ---------------------------------------------------------------- memory

  /** A read or a write by address that stays inside the arrays. */
  predicate InBounds(call: Call) {
    match call
    case CallMemoryRead(from) => InArray(ReadSite(Num(from)))
    case CallMemoryWrite(at, _) => InArray(WriteSite(Num(at)))
    case _ => false
  }

  predicate AllInBounds(calls: seq<Call>) {
    forall i :: 0 <= i < |calls| ==> InBounds(calls[i])
  }

  lemma AllInBoundsTail(calls: seq<Call>)
    requires |calls| > 0 && AllInBounds(calls)
    ensures InBounds(calls[0]) && AllInBounds(calls[1..])
  {
    forall i | 0 <= i < |calls| - 1
      ensures InBounds(calls[1..][i])
    {
      assert calls[1..][i] == calls[i + 1];
    }
  }

  ghost function MapStep(mem: Memory, call: Call): Memory {
    if call.CallMemoryWrite? then Store(mem, Num(call.at), call.data) else mem
  }

  ghost function MapAnswer(mem: Memory, call: Call): Reply {
    match call
    case CallMemoryRead(from) => TryteRead(Lookup(mem, Num(from)))
    case CallMemoryWrite(at, _) => Code(if RamAddress(Num(at)) then 0 else 1)
    case _ => Done
  }

  /** A run of reads and writes on a map. */
  ghost function RunMap(mem: Memory, calls: seq<Call>): (r: (Memory, seq<Reply>))
    decreases calls
  {
    if |calls| == 0 then (mem, [])
    else
      var rest := RunMap(MapStep(mem, calls[0]), calls[1..]);
      (rest.0, [MapAnswer(mem, calls[0])] + rest.1)
  }

  lemma StepRefines(m: Machine, call: Call)
    requires InBounds(call)
    ensures Enabled(m, call)
    ensures View(Step(m, call)) == MapStep(View(m), call)
    ensures Answer(m, call) == MapAnswer(View(m), call)
    ensures Step(m, call) == m.(ram := Step(m, call).ram)
  {
    match call
    case CallMemoryRead(from) => ReadRefines(m, Num(from));
    case CallMemoryWrite(at, data) => WriteRefines(m, Num(at), data);
  }

  /** Over every in-bounds sequence of reads and writes the processor's memory gives the answers of
      the map and ends in a state that shows the final map. */
  lemma {:induction false} MemoryRefinesMap(m: Machine, calls: seq<Call>)
    requires AllInBounds(calls)
    ensures RunMachine(m, calls).1 == RunMap(View(m), calls).1
    ensures View(RunMachine(m, calls).0) == RunMap(View(m), calls).0
    ensures RunMachine(m, calls).0 == m.(ram := RunMachine(m, calls).0.ram)
    decreases calls
  {
    if |calls| == 0 {
    } else {
      AllInBoundsTail(calls);
      StepRefines(m, calls[0]);
      MemoryRefinesMap(Step(m, calls[0]), calls[1..]);
    }
  }

  /** The data of the last write to address a in the run, or what was there before. */
  function LastWritten(calls: seq<Call>, a: int, before: Tr8): Tr8 {
    if |calls| == 0 then before
    else
      var last := calls[|calls| - 1];
      if last.CallMemoryWrite? && Num(last.at) == a then last.data
      else LastWritten(calls[..|calls| - 1], a, before)
  }

  lemma {:induction false} LastWrittenFront(call: Call, rest: seq<Call>, a: int, before: Tr8)
    ensures LastWritten([call] + rest, a, before)
         == LastWritten(rest, a, if call.CallMemoryWrite? && Num(call.at) == a then call.data else before)
  {
    var calls := [call] + rest;
    if |rest| == 0 {
      assert calls[..0] == [];
    } else {
      assert calls[..|calls| - 1] == [call] + rest[..|rest| - 1];
      LastWrittenFront(call, rest[..|rest| - 1], a, before);
    }
  }

  /** At the end of a run a RAM address holds the last tryte written to it, and a ROM address what it
      held at the start. */
  lemma {:induction false} MapHoldsLastWrite(mem: Memory, calls: seq<Call>, a: int)
    requires a in mem
    ensures a in RunMap(mem, calls).0
    ensures RunMap(mem, calls).0[a] == if RamAddress(a) then LastWritten(calls, a, mem[a]) else mem[a]
    decreases calls
  {
    if |calls| == 0 {
    } else {
      assert calls == [calls[0]] + calls[1..];
      LastWrittenFront(calls[0], calls[1..], a, mem[a]);
      MapHoldsLastWrite(MapStep(mem, calls[0]), calls[1..], a);
    }
  }

  /** A run on a map answers every call and keeps the mapped addresses. */
  lemma {:induction false} MapShape(mem: Memory, calls: seq<Call>)
    requires forall a :: RamAddress(a) ==> a in mem
    ensures |RunMap(mem, calls).1| == |calls|
    ensures RunMap(mem, calls).0.Keys == mem.Keys
    decreases calls
  {
    if |calls| == 0 {
    } else {
      assert MapStep(mem, calls[0]).Keys == mem.Keys;
      MapShape(MapStep(mem, calls[0]), calls[1..]);
    }
  }

  lemma {:induction false} MapAppends(mem: Memory, calls: seq<Call>, last: Call)
    ensures RunMap(mem, calls + [last]).1 == RunMap(mem, calls).1 + [MapAnswer(RunMap(mem, calls).0, last)]
    decreases calls
  {
    if |calls| == 0 {
      assert calls + [last] == [last];
    } else {
      assert (calls + [last])[1..] == calls[1..] + [last];
      MapAppends(MapStep(mem, calls[0]), calls[1..], last);
    }
  }

  /** A read after any run returns the last accepted write to a word that normalises alike; for an
      address never written it returns the initial tryte, and for an unmapped one zeros. */
  lemma {:induction false} ReadReturnsLastWrite(m: Machine, calls: seq<Call>, addr: Tr32)
    requires AllInBounds(calls) && InArray(ReadSite(Num(addr)))
    ensures |RunMachine(m, calls + [CallMemoryRead(addr)]).1| == |calls| + 1
    ensures RunMachine(m, calls + [CallMemoryRead(addr)]).1[|calls|]
         == TryteRead(if RamAddress(Num(addr)) then LastWritten(calls, Num(addr), ReadCell(m, Num(addr)))
                      else ReadCell(m, Num(addr)))
  {
    var a, all := Num(addr), calls + [CallMemoryRead(addr)];
    assert forall i :: 0 <= i < |calls| ==> all[i] == calls[i];
    MemoryRefinesMap(m, all);
    MapAppends(View(m), calls, CallMemoryRead(addr));
    MapShape(View(m), calls);
    ReadRefines(m, a);
    if a in View(m) {
      MapHoldsLastWrite(View(m), calls, a);
    }
  }

  // ---------------------------------------------------------------- the program counter

  /** The program counter after a list of trs_pc_update calls. */
  function PcAfter(pc: Tr32, offsets: seq<Tr32>): Tr32
    decreases offsets
  {
    if |offsets| == 0 then pc else PcAfter(Add(pc, offsets[0]), offsets[1..])
  }

  function SumOf(offsets: seq<Tr32>): int {
    if |offsets| == 0 then 0 else Num(offsets[0]) + SumOf(offsets[1..])
  }

  lemma {:induction false} AddThen(x: seq<int>, y: seq<int>, v: int, partial: int, total: int)
    requires |x| == |y|
    requires partial == Num(Add(x, y)) + v && total == Num(x) + Num(y) + v
    ensures Encode(|x|, partial) == Encode(|x|, total)
  {
    EncodeAbsorbs(|x|, Num(x) + Num(y), v, total);
  }

  /** After any list of updates the program counter encodes start plus the sum of the offsets. */
  lemma {:induction false} PcIsSum(pc: Tr32, offsets: seq<Tr32>, total: int)
    requires total == Num(pc) + SumOf(offsets)
    ensures Norm(PcAfter(pc, offsets)) == Encode(|pc|, total)
    decreases offsets
  {
    if |offsets| == 0 {
      NumEncoded(pc);
    } else {
      var next, rest := Add(pc, offsets[0]), offsets[1..];
      var partial := Num(next) + SumOf(rest);
      PcIsSum(next, rest, partial);
      AddThen(pc, offsets[0], SumOf(rest), partial, total);
    }
  }

  lemma {:induction false} PcStaysNormal(pc: Tr32, offsets: seq<Tr32>)
    requires IsTrits(pc) || |offsets| > 0
    ensures Norm(PcAfter(pc, offsets)) == PcAfter(pc, offsets)
    decreases offsets
  {
    if |offsets| == 0 {
      NormOfTrits(pc);
    } else {
      PcStaysNormal(Add(pc, offsets[0]), offsets[1..]);
    }
  }

  /** The decoded program counter is the residue of that sum modulo 3^32, and no other number is. */
  lemma PcOverRuns(pc: Tr32, offsets: seq<Tr32>, total: int, r: int)
    requires total == Num(pc) + SumOf(offsets)
    ensures r == Num(PcAfter(pc, offsets)) <==> Residue(|pc|, total, r)
  {
    PcIsSum(pc, offsets, total);
    NormDecodes(|pc|, PcAfter(pc, offsets), total, r);
  }

  lemma {:induction false} SumSplit(p: seq<Tr32>, q: seq<Tr32>)
    ensures SumOf(p + q) == SumOf(p) + SumOf(q)
  {
    if |p| == 0 {
      assert p + q == q;
    } else {
      assert (p + q)[1..] == p[1..] + q;
      SumSplit(p[1..], q);
    }
  }

  lemma {:induction false} SumWithout(q: seq<Tr32>, i: nat)
    requires i < |q|
    ensures SumOf(q) == Num(q[i]) + SumOf(q[..i] + q[i + 1..])
    ensures multiset(q[..i] + q[i + 1..]) == multiset(q) - multiset{q[i]}
  {
    var tail := [q[i]] + q[i + 1..];
    assert q == q[..i] + tail;
    assert tail[1..] == q[i + 1..];
    SumSplit(q[..i], tail);
    SumSplit(q[..i], q[i + 1..]);
  }

  /** The sum does not depend on the order. */
  lemma {:induction false} SumOfPermutation(p: seq<Tr32>, q: seq<Tr32>)
    requires multiset(p) == multiset(q)
    ensures SumOf(p) == SumOf(q)
    decreases p
  {
    if |p| == 0 {
      assert |multiset(q)| == 0;
    } else {
      assert p[0] in multiset(q);
      var i :| 0 <= i < |q| && q[i] == p[0];
      SumWithout(q, i);
      assert p == [p[0]] + p[1..];
      SumOfPermutation(p[1..], q[..i] + q[i + 1..]);
    }
  }

  /** From a normalised program counter, any order of the same offsets gives the same word. */
  lemma PcOrderIrrelevant(pc: Tr32, p: seq<Tr32>, q: seq<Tr32>)
    requires IsTrits(pc) && multiset(p) == multiset(q)
    ensures PcAfter(pc, p) == PcAfter(pc, q)
  {
    SumOfPermutation(p, q);
    var total := Num(pc) + SumOf(p);
    PcIsSum(pc, p, total);
    PcIsSum(pc, q, total);
    PcStaysNormal(pc, p);
    PcStaysNormal(pc, q);
  }
}
