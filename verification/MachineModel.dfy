/** The processor state as a value, what each call does to it, and the simple memory it refines. */
module MachineModel {
  import opened Words
  import opened Adder
  import opened Ternary
  import opened Bits
  import opened Loader
  import opened RegisterField

  datatype Option<T> = None | Some(value: T)

  const RAM_BASE := 0x8000_0000
  /** The cell of a memory array that address 0, or RAM_BASE, denotes. */
  const CENTRE := 121

  type Registers = r: seq<Tr32> | |r| == 16 witness seq(16, _ => Zeros(32))
  type Cells = c: seq<Tr8> | |c| == 243 witness seq(243, _ => Zeros(8))

  datatype Machine = Machine(pc: Tr32, csr: Tr32, reg: Registers, rom: Cells, ram: Cells)

  /** Static storage before init_cpu. */
  function Blank(): Machine {
    Machine(Zeros(32), Zeros(32), seq(16, _ => Zeros(32)), seq(243, _ => Zeros(8)), seq(243, _ => Zeros(8)))
  }

  // ---------------------------------------------------------------- single calls

  /** init_cpu. It leaves the upper half of pc, the top trit of csr and the last ROM cell as they are. */
  function Init(m: Machine): Machine {
    Machine(Zeros(16) + m.pc[16..], Zeros(31) + m.csr[31..],
            seq(16, i requires 0 <= i < 16 => BitTrits(32, i)),
            seq(242, _ => Zeros(8)) + m.rom[242..],
            seq(243, _ => Zeros(8)))
  }

  function PcUpdate(m: Machine, offset: Tr32): Machine {
    m.(pc := Add(m.pc, offset))
  }

  function RegWrite(m: Machine, regIdx: nat, data: Tr32): Machine {
    if regIdx > 15 then m else m.(reg := m.reg[regIdx := data])
  }

  /** The cells that pc reaches directly: the 241 nearest the centre. */
  predicate PcInRam(m: Machine) {
    -120 <= Num(m.pc) <= 120
  }

  function MemReadB(m: Machine, otherwise: Tr8): Tr8 {
    if PcInRam(m) then m.ram[CENTRE + Num(m.pc)] else otherwise
  }

  function MemWriteB(m: Machine, data: Tr8): Machine
    requires PcInRam(m)
  {
    m.(ram := m.ram[CENTRE + Num(m.pc) := data])
  }

  /** A tryte widened with zero trits. */
  function Widen(w: Tr8): Tr32 {
    w + Zeros(24)
  }

  /** The load instruction; outside RAM it loads zeros. */
  function LoadByte(m: Machine, inst: Tr32): Machine {
    RegWrite(m, RegIndex(inst), Widen(MemReadB(m, Zeros(8))))
  }

  /** Bytes loaded into a memory array from its centre up. */
  function Loaded(cells: Cells, bytes: seq<Byte>): Cells {
    var k := CellsLoaded(|bytes|, 122, 243);
    cells[..CENTRE] + Trytes(bytes)[..k] + cells[CENTRE + k..]
  }

  // ---------------------------------------------------------------- addressed memory

  /** Which cell of which array an access indexes, if any. */
  datatype Site = NoSite | RomSite(index: int) | RamSite(index: int)

  /** The guards of memory_read, with the array index that each one leads to. */
  function ReadSite(a: int): Site {
    if 0 <= a < 243 then RomSite(CENTRE + a)
    else if RAM_BASE <= a < RAM_BASE + 243 then RamSite(CENTRE + (a - RAM_BASE))
    else NoSite
  }

  /** The guards of memory_write: the offset from RAM_BASE is compared as a uint32. */
  function WriteSite(a: int): Site {
    if a < 0 then NoSite
    else if (a - RAM_BASE) % 0x1_0000_0000 < 243 - 1 then RamSite(CENTRE + (a - RAM_BASE))
    else NoSite
  }

  /** No access, or an index inside the array. */
  predicate InArray(site: Site) {
    site.NoSite? || 0 <= site.index < 243
  }

  /** memory_read stays inside its arrays exactly off these two ranges: its bound is the array size,
      but the index counts from the centre. */
  lemma ReadInArray(a: int)
    ensures InArray(ReadSite(a)) <==> !(122 <= a <= 242) && !(RAM_BASE + 122 <= a <= RAM_BASE + 242)
  {
  }

  /** memory_write stays inside its array exactly unless the offset, modulo 2^32, is below 242 and the
      address lies beyond the 122 cells from the centre up. */
  lemma WriteInArray(a: int)
    ensures InArray(WriteSite(a))
       <==> !(a > RAM_BASE + 121 && (a - RAM_BASE) % 0x1_0000_0000 < 242)
  {
  }

  /** Every address outside the arrays is denoted by an address word. */
  lemma EveryAddressHasWord(a: int) returns (w: Tr32)
    requires -926510094425920 <= a <= 926510094425920
    ensures Num(w) == a
  {
    w := Encode(32, a);
    NumOfEncode(|w|, a);
    Pow3Of39();
    ValueBijection(|w|, w, a);
    NormOfTrits(w);
  }

  /** Address words at which the two functions index outside their arrays: the first cell beyond ROM,
      the first beyond RAM, and for a write an address 2^32 above RAM. */
  lemma AccessesOutside() returns (rom: Tr32, ram: Tr32, far: Tr32)
    ensures Num(rom) == 122 && ReadSite(Num(rom)) == RomSite(243) && !InArray(RomSite(243))
    ensures Num(ram) == RAM_BASE + 122 && ReadSite(Num(ram)) == RamSite(243) == WriteSite(Num(ram))
    ensures Num(far) == RAM_BASE + 0x1_0000_0000 && !InArray(WriteSite(Num(far)))
  {
    rom := EveryAddressHasWord(122);
    ram := EveryAddressHasWord(RAM_BASE + 122);
    far := EveryAddressHasWord(RAM_BASE + 0x1_0000_0000);
  }

  function ReadCell(m: Machine, a: int): Tr8
    requires InArray(ReadSite(a))
  {
    match ReadSite(a)
    case RomSite(index) => m.rom[index]
    case RamSite(index) => m.ram[index]
    case NoSite => Zeros(8)
  }

  function WriteCell(m: Machine, a: int, data: Tr8): Machine
    requires InArray(WriteSite(a))
  {
    match WriteSite(a)
    case RamSite(index) => m.(ram := m.ram[index := data])
    case _ => m
  }

  /** The ROM and RAM addresses that reach a cell. */
  predicate RomAddress(a: int) {
    0 <= a <= 121
  }

  predicate RamAddress(a: int) {
    RAM_BASE <= a <= RAM_BASE + 121
  }

  /** A read sees a write exactly when the two address words normalise to the same word; otherwise the
      write does not show. */
  lemma SameCell(m: Machine, x: Tr32, y: Tr32, data: Tr8)
    requires RamAddress(Num(x)) && RamAddress(Num(y))
    ensures WriteSite(Num(x)) == ReadSite(Num(y)) <==> Norm(x) == Norm(y)
    ensures ReadCell(WriteCell(m, Num(x), data), Num(y))
         == if Norm(x) == Norm(y) then data else ReadCell(m, Num(y))
  {
    SameNumber(x, y);
  }

  // ---------------------------------------------------------------- the memory it refines

  /** Memory as a map from addresses to trytes. */
  type Memory = map<int, Tr8>

  ghost function View(m: Machine): (mem: Memory)
    ensures forall a :: a in mem <==> RomAddress(a) || RamAddress(a)
    ensures forall a :: RomAddress(a) ==> mem[a] == m.rom[CENTRE + a]
    ensures forall a :: RamAddress(a) ==> mem[a] == m.ram[CENTRE + a - RAM_BASE]
  {
    map a: int | 0 <= a <= RAM_BASE + 121 && (RomAddress(a) || RamAddress(a))
      :: if RomAddress(a) then m.rom[CENTRE + a] else m.ram[CENTRE + a - RAM_BASE]
  }

  function Lookup(mem: Memory, a: int): Tr8 {
    if a in mem then mem[a] else Zeros(8)
  }

  /** The map after a write: only RAM addresses are writable. */
  function Store(mem: Memory, a: int, data: Tr8): Memory {
    if RamAddress(a) then mem[a := data] else mem
  }

  lemma ReadRefines(m: Machine, a: int)
    requires InArray(ReadSite(a))
    ensures ReadCell(m, a) == Lookup(View(m), a)
  {
  }

  lemma WriteRefines(m: Machine, a: int, data: Tr8)
    requires InArray(WriteSite(a))
    ensures View(WriteCell(m, a, data)) == Store(View(m), a, data)
  {
  }

  /** A read through pc gives the cell, or leaves its result as it was. */
  lemma MemReadExact(m: Machine, otherwise: Tr8)
    ensures MemReadB(m, otherwise) == if -120 <= Num(m.pc) <= 120 then m.ram[121 + Num(m.pc)] else otherwise
  {
  }

  /** pc-relative writes and addressed reads meet in the same cells. */
  lemma WriteThenRead(m: Machine, data: Tr8)
    requires PcInRam(m)
    ensures MemReadB(MemWriteB(m, data), Zeros(8)) == data
    ensures 0 <= Num(m.pc) ==> View(MemWriteB(m, data)) == View(m)[RAM_BASE + Num(m.pc) := data]
    ensures Num(m.pc) < 0 ==> View(MemWriteB(m, data)) == View(m)
  {
  }

  // ---------------------------------------------------------------- the load instruction

  lemma WidenKeepsNumber(w: Tr8)
    ensures Num(Widen(w)) == Num(w) && Widen(w)[..8] == w && Widen(w)[8..] == Zeros(24)
  {
    assert Norm(Widen(w)) == Norm(w) + Zeros(24);
    ValueZeroFill(Norm(w), 24);
  }

  /** After a load from RAM the decoded register holds the number of the tryte, and nothing else
      changed; if the index names no register, nothing changed at all. */
  lemma LoadByteExact(m: Machine, inst: Tr32)
    requires PcInRam(m)
    ensures var m' := LoadByte(m, inst);
            var r := (15 + Excess(7, Sign(inst[7])) + Excess(8, Sign(inst[8])) + Excess(9, Sign(inst[9]))
                      + Excess(10, Sign(inst[10])) + Excess(11, Sign(inst[11]))) % 256;
            if r < 16 then
              && Num(m'.reg[r]) == Num(m.ram[CENTRE + Num(m.pc)])
              && m' == m.(reg := m.reg[r := m'.reg[r]])
            else m' == m
  {
    IndexExactly(inst);
    WidenKeepsNumber(m.ram[CENTRE + Num(m.pc)]);
  }

  /** Loading the word of a binary instruction writes register 15 or none. */
  lemma BinaryLoad(m: Machine, v: nat)
    ensures var inst := BitTrits(32, v);
            LoadByte(m, inst) == if RegNumber(inst) == 0 then RegWrite(m, 15, Widen(MemReadB(m, Zeros(8)))) else m
  {
    IndexOfBinaryField(BitTrits(32, v));
  }
}
