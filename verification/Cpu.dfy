/** The processor of the source: a structure whose fields the calls update in place. Each method is
    proved against the call of the same name in MachineModel. */
module Cpu {
  import opened Words
  import opened Ternary
  import opened Bits
  import opened Loader
  import opened RegisterField
  import opened MachineModel

  class CpuTrit {
    var pc: Tr32
    var csr: Tr32
    const reg: array<Tr32>
    const instRomArr: array<Tr8>
    const dataRamArr: array<Tr8>
    /** The cells that the two memory pointers of the source point to. */
    var instRom: nat
    var dataRam: nat

    /** The arrays have their sizes and are distinct. */
    ghost predicate Shaped()
      reads this
    {
      reg.Length == 16 && instRomArr.Length == 243 && dataRamArr.Length == 243 && instRomArr != dataRamArr
    }

    /** After init_cpu the memory pointers are at the centres. */
    ghost predicate Valid()
      reads this
    {
      Shaped() && instRom == CENTRE && dataRam == CENTRE
    }

    ghost function State(): Machine
      requires Shaped()
      reads this, reg, instRomArr, dataRamArr
    {
      Machine(pc, csr, reg[..], instRomArr[..], dataRamArr[..])
    }

    /** Static storage: everything starts as zero. */
    constructor ()
      ensures Shaped() && fresh(reg) && fresh(instRomArr) && fresh(dataRamArr)
      ensures State() == Blank() && pc == csr == Zeros(32)
      ensures forall i :: 0 <= i < 16 ==> reg[i] == Zeros(32)
      ensures forall i :: 0 <= i < 243 ==> instRomArr[i] == Zeros(8) && dataRamArr[i] == Zeros(8)
    {
      pc, csr := Zeros(32), Zeros(32);
      reg := new Tr32[16](_ => Zeros(32));
      instRomArr := new Tr8[243](_ => Zeros(8));
      dataRamArr := new Tr8[243](_ => Zeros(8));
      instRom, dataRam := 0, 0;
      new;
      assert reg[..] == Blank().reg && instRomArr[..] == Blank().rom && dataRamArr[..] == Blank().ram;
    }

    method InitCpu()
      requires Shaped()
      modifies this, reg, instRomArr, dataRamArr
      ensures Valid() && State() == Init(old(State()))
      ensures pc == Zeros(16) + old(pc[16..]) && csr == Zeros(31) + old(csr[31..])
    {
      instRom := 243 / 2;
      dataRam := 243 / 2;
      InitRegisters();
      InitCsr();
      InitMemory();
      InitPc();
    }

    method InitCsr()
      requires Valid()
      modifies this`csr
      ensures csr == Init(old(State())).csr
    {
      for i := 0 to 31
        invariant csr == Zeros(i) + old(csr[i..])
      {
        csr := csr[i := 0];
      }
    }

    method InitPc()
      requires Valid()
      modifies this`pc
      ensures pc == Init(old(State())).pc
    {
      for j := 0 to 16
        invariant pc == Zeros(j) + old(pc[j..])
      {
        pc := pc[j := 0];
      }
    }

    method InitRegisters()
      requires Valid()
      modifies reg
      ensures reg[..] == Init(old(State())).reg
    {
      for i := 0 to 16
        invariant forall k :: 0 <= k < i ==> reg[k] == BitTrits(32, k)
      {
        var rt := new int[32];
        Uint32ToTr32(rt, i);
        reg[i] := rt[..];
      }
    }

    /** The ROM loop stops one cell short of the end of its array; the RAM loop does not. */
    method InitMemory()
      requires Valid()
      modifies instRomArr, dataRamArr
      ensures instRomArr[..] == Init(old(State())).rom && dataRamArr[..] == Init(old(State())).ram
    {
      for i := -121 to 121
        invariant forall k :: 0 <= k < 121 + i ==> instRomArr[k] == Zeros(8)
        invariant instRomArr[242] == old(instRomArr[242])
      {
        var rt := new int[8];
        Uint8ToTr8(rt, 0);
        ZeroBits(rt[..]);
        instRomArr[instRom + i] := rt[..];
      }
      for i := -121 to 122
        invariant forall k :: 0 <= k < 121 + i ==> dataRamArr[k] == Zeros(8)
        invariant instRomArr[..] == Init(old(State())).rom
      {
        ClearTryte(dataRam + i);
      }
    }

    method ClearTryte(cell: nat)
      requires Valid() && cell < 243
      modifies dataRamArr
      ensures dataRamArr[..] == old(dataRamArr[..])[cell := Zeros(8)]
    {
      for j := 8 downto 0
        invariant forall k :: 0 <= k < 243 && k != cell ==> dataRamArr[k] == old(dataRamArr[k])
        invariant forall k :: j <= k < 8 ==> dataRamArr[cell][k] == 0
      {
        dataRamArr[cell] := dataRamArr[cell][j := 0];
      }
      assert dataRamArr[cell] == Zeros(8);
    }

    // -------------------------------------------------------------- pc and registers

    method TrsPcUpdate(offset: Tr32)
      requires Shaped()
      modifies this`pc
      ensures State() == PcUpdate(old(State()), offset)
    {
      ghost var carry;
      pc, carry := AddTrs(pc, offset);
    }

    method TrsPcWrite(addr: Tr32)
      requires Shaped()
      modifies this`pc
      ensures State() == old(State()).(pc := addr)
    {
      for i := 0 to 32
        invariant forall k :: 0 <= k < i ==> pc[k] == addr[k]
      {
        pc := pc[i := addr[i]];
      }
    }

    method TrsPcRead() returns (r: Tr32)
      requires Shaped()
      ensures r == pc
    {
      r := *;
      for i := 0 to 32
        invariant forall k :: 0 <= k < i ==> r[k] == pc[k]
      {
        r := r[i := pc[i]];
      }
    }

    method TrsRegWrite(regIdx: nat, data: Tr32)
      requires Shaped()
      modifies reg
      ensures State() == RegWrite(old(State()), regIdx, data)
      ensures reg[..] == if regIdx <= 15 then old(reg[..])[regIdx := data] else old(reg[..])
    {
      if regIdx > 15 {
        return;
      }
      for i := 0 to 32
        invariant forall k :: 0 <= k < 16 && k != regIdx ==> reg[k] == old(reg[k])
        invariant forall k :: 0 <= k < i ==> reg[regIdx][k] == data[k]
      {
        reg[regIdx] := reg[regIdx][i := data[i]];
      }
      assert reg[regIdx] == data;
    }

    /** The result parameter keeps its content when the index is invalid. */
    method TrsRegRead(regIdx: nat, tr: Tr32) returns (r: Tr32)
      requires Shaped()
      ensures r == if regIdx > 15 then tr else reg[regIdx]
    {
      r := tr;
      if regIdx > 15 {
        return;
      }
      for i := 0 to 32
        invariant forall k :: 0 <= k < i ==> r[k] == reg[regIdx][k]
      {
        r := r[i := reg[regIdx][i]];
      }
    }

    // -------------------------------------------------------------- memory through pc

    method TrsMemReadB(tr: Tr8) returns (r: Tr8)
      requires Valid()
      ensures r == MemReadB(State(), tr)
      ensures r == if -120 <= Num(pc) <= 120 then dataRamArr[121 + Num(pc)] else tr
    {
      r := tr;
      var at := Tr32ToInt64(pc);
      if AbsInt64(at) > 243 / 2 - 1 {
        return;
      }
      for i := 0 to 8
        invariant forall k :: 0 <= k < i ==> r[k] == dataRamArr[dataRam + at][k]
      {
        r := r[i := dataRamArr[dataRam + at][i]];
      }
    }

    /** Outside RAM the source logs an error and stops at an assertion: the result is false and
        nothing changed. */
    method TrsMemWriteB(data: Tr8) returns (ok: bool)
      requires Valid()
      modifies dataRamArr
      ensures ok == PcInRam(old(State()))
      ensures State() == if ok then MemWriteB(old(State()), data) else old(State())
    {
      var at := Tr32ToInt64(pc);
      if AbsInt64(at) > 243 / 2 - 1 {
        return false;
      }
      CopyTryte(dataRam + at, data);
      return true;
    }

    /** The copy loop shared by the byte writes. */
    method CopyTryte(cell: nat, data: Tr8)
      requires Shaped() && cell < 243
      modifies dataRamArr
      ensures dataRamArr[..] == old(dataRamArr[..])[cell := data]
    {
      for i := 0 to 8
        invariant forall k :: 0 <= k < 243 && k != cell ==> dataRamArr[k] == old(dataRamArr[k])
        invariant forall k :: 0 <= k < i ==> dataRamArr[cell][k] == data[k]
      {
        dataRamArr[cell] := dataRamArr[cell][i := data[i]];
      }
      assert dataRamArr[cell] == data;
    }

    /** The load step: the byte at pc, widened with zero trits, goes to the decoded register. */
    method InstTrsLb(inst: Tr32)
      requires Valid()
      modifies reg
      ensures State() == LoadByte(old(State()), inst)
    {
      var trb: Tr8 := Zeros(8);
      var data: Tr32 := Zeros(32);
      var field := TrsGetTrits(inst, 7, 11);
      var regIdx := field % 256;
      trb := TrsMemReadB(trb);
      for i := 0 to 32
        invariant forall k :: 0 <= k < i ==> data[k] == Widen(trb)[k]
      {
        if i < 8 {
          data := data[i := GetTrit8(trb, i)];
        } else {
          data := data[i := 0];
        }
      }
      assert data == Widen(trb);
      TrsRegWrite(regIdx, data);
    }

    // -------------------------------------------------------------- addressed memory

    /** An index outside its array is undefined in C; the model stops there with None. */
    method MemoryRead(addr: Tr32) returns (r: Option<Tr8>)
      requires Valid()
      ensures var a := Num(addr);
              r == if InArray(ReadSite(a)) then Some(ReadCell(State(), a)) else None
    {
      var addrBinary := Tr32ToInt64(addr);
      var data: Tr8 := *;
      if addrBinary >= 0 && addrBinary < 243 {
        if instRom + addrBinary >= instRomArr.Length {
          return None;
        }
        for i := 0 to 8
          invariant forall k :: 0 <= k < i ==> data[k] == instRomArr[instRom + addrBinary][k]
        {
          data := data[i := instRomArr[instRom + addrBinary][i]];
        }
        assert data == instRomArr[instRom + addrBinary];
        return Some(data);
      }
      if addrBinary >= RAM_BASE && addrBinary < RAM_BASE + 243 {
        if dataRam + (addrBinary - RAM_BASE) >= dataRamArr.Length {
          return None;
        }
        for i := 0 to 8
          invariant forall k :: 0 <= k < i ==> data[k] == dataRamArr[dataRam + (addrBinary - RAM_BASE)][k]
        {
          data := data[i := dataRamArr[dataRam + (addrBinary - RAM_BASE)][i]];
        }
        assert data == dataRamArr[dataRam + (addrBinary - RAM_BASE)];
        return Some(data);
      }
      for i := 0 to 8
        invariant forall k :: 0 <= k < i ==> data[k] == 0
      {
        data := data[i := 0];
      }
      assert data == Zeros(8);
      return Some(data);
    }

    /** The same for a write: None, and nothing changed, when the index leaves the array. */
    method MemoryWrite(addr: Tr32, data: Tr8) returns (code: Option<int>)
      requires Valid()
      modifies dataRamArr
      ensures var a := Num(addr);
              if InArray(WriteSite(a)) then
                code == Some(if RamAddress(a) then 0 else 1) && State() == WriteCell(old(State()), a, data)
              else code == None && State() == old(State())
    {
      var addrBinary := Tr32ToInt64(addr);
      if addrBinary < 0 {
        return Some(1);
      }
      var diff := (addrBinary - RAM_BASE) % 0x1_0000_0000;
      if diff < 243 - 1 {
        if dataRam + (addrBinary - RAM_BASE) >= dataRamArr.Length {
          return None;
        }
        CopyTryte(dataRam + (addrBinary - RAM_BASE), data);
        return Some(0);
      }
      return Some(1);
    }

    // -------------------------------------------------------------- loading

    method LoadRom(bytes: seq<Byte>) returns (r: LoadOutcome)
      requires Valid()
      modifies instRomArr
      ensures State() == old(State()).(rom := Loaded(old(State()).rom, bytes))
      ensures r == if |bytes| / 2 <= 122 then LoadDone else Overrun
    {
      r := SetTrytesFromStr(instRomArr, instRom, bytes, 243);
      CentreLoad(|bytes|);
    }

    method LoadRam(bytes: seq<Byte>) returns (r: LoadOutcome)
      requires Valid()
      modifies dataRamArr
      ensures State() == old(State()).(ram := Loaded(old(State()).ram, bytes))
      ensures r == if |bytes| / 2 <= 122 then LoadDone else Overrun
    {
      r := SetTrytesFromStr(dataRamArr, dataRam, bytes, 243);
      CentreLoad(|bytes|);
    }
  }

  function AbsInt64(v: int): int {
    if v < 0 then 0 - v else v
  }

  lemma ZeroBits(w: seq<int>)
    requires w == BitTrits(8, 0)
    ensures w == Zeros(8)
  {
    forall i | 0 <= i < 8
      ensures w[i] == 0
    {
      BitOfZero(i);
    }
  }
}
