/** Steps of the program's start-up self-test, with the words and addresses that it uses. */
module SelfTest {
  import opened Powers
  import opened Words
  import opened Text
  import opened Bits
  import opened Dispatch
  import opened Decoder
  import opened Encodings
  import opened MachineModel
  import opened Calls

  /** The address word of the self-test, from trit 31 down. */
  const RAM_WORD := "0000" + "0000000" + "+-0--0-" + "000--++" + "+-+-++-"

  lemma RamWordText()
    ensures RAM_WORD == "00000000000+-0--0-000--+++-+-++-"
  {
  }

  /** Reading a text on from a prefix that is already read. */
  lemma {:induction false} HornerConcat(p: string, q: string, h: int, n: nat)
    requires h == Horner(p) && n == |q|
    ensures Horner(p + q) == Pow3(n) * h + Horner(q)
  {
    if n == 0 {
      assert p + q == p;
    } else {
      assert (p + q)[..|p + q| - 1] == p + q[..n - 1];
      HornerConcat(p, q[..n - 1], h, n - 1);
      Triple(Pow3(n - 1), h);
    }
  }

  lemma SevenMore(p: string, q: string, h: int, d: int)
    requires |q| == 7 && h == Horner(p) && d == Horner(q)
    ensures Horner(p + q) == 2187 * h + d
  {
    assert Pow3(3) == 27;
    assert Pow3(7) == 2187;
    HornerConcat(p, q, h, 7);
  }

  lemma TopChunks()
    ensures Horner("0000") == 0 == Horner("0000000")
    ensures Horner("+-0--0-") == 449
  {
    Horner3("0000"[..3]);
    HornerStep("0000", 3);
    assert "0000"[..4] == "0000";
    Horner7("0000000");
    Horner7("+-0--0-");
  }

  lemma LowChunks()
    ensures Horner("000--++") == -32
    ensures Horner("+-+-++-") == 551
  {
    Horner7("000--++");
    Horner7("+-+-++-");
  }

  /** The address word denotes 0x8000_0000. */
  lemma RamWordNumber()
    ensures |RAM_WORD| == 32 && Num(Parse(RAM_WORD)) == 2147483648
  {
    var p1 := "0000";
    var p2 := p1 + "0000000";
    var p3 := p2 + "+-0--0-";
    var p4 := p3 + "000--++";
    TopChunks();
    LowChunks();
    SevenMore(p1, "0000000", 0, 0);
    SevenMore(p2, "+-0--0-", 0, 449);
    SevenMore(p3, "000--++", 449, -32);
    SevenMore(p4, "+-+-++-", 981931, 551);
    ParseIsHorner(RAM_WORD);
    NormOfTrits(Parse(RAM_WORD));
  }

  /** That address is the centre of RAM, for reads and for writes, and address 0 that of ROM. */
  lemma BaseCells()
    ensures ReadSite(2147483648) == RamSite(121) == WriteSite(2147483648)
    ensures ReadSite(0) == RomSite(121)
  {
  }

  /** A tryte written at the address word is accepted, stored at the centre of RAM, and read back. */
  lemma WriteReadsBack(m: Machine, data: Tr8)
    ensures |RAM_WORD| == 32
    ensures var at := Parse(RAM_WORD);
            var run := RunMachine(m, [CallMemoryWrite(at, data), CallMemoryRead(at)]);
            run.1 == [Code(0), TryteRead(data)] && run.0 == m.(ram := m.ram[121 := data])
  {
    RamWordNumber();
    WriteThenReadAt(m, Parse(RAM_WORD), data);
  }

  lemma WriteThenReadAt(m: Machine, at: Tr32, data: Tr8)
    requires Num(at) == 2147483648
    ensures var run := RunMachine(m, [CallMemoryWrite(at, data), CallMemoryRead(at)]);
            run.1 == [Code(0), TryteRead(data)] && run.0 == m.(ram := m.ram[121 := data])
  {
    BaseCells();
    var write, read := CallMemoryWrite(at, data), CallMemoryRead(at);
    var m' := Step(m, write);
    assert m' == m.(ram := m.ram[121 := data]);
    assert ReadCell(m', Num(at)) == data;
    assert RunMachine(m', []) == (m', []);
    assert [read][1..] == [] && [write, read][1..] == [read];
    assert RunMachine(m', [read]).1 == [TryteRead(data)] && RunMachine(m', [read]).0 == m';
  }

  lemma HighBitsOfThree(i: nat)
    requires 2 <= i
    ensures Bit(3, i) == 0
  {
    assert Pow2(2) == 4;
    BitOfShr(3, 2, i - 2);
    ShrSmall(3, 2);
    BitOfZero(i - 2);
  }

  lemma WordOfThree()
    ensures BitTrits(32, 3) == [1, 1] + Zeros(30)
  {
    assert Bit(3, 0) == 1 && Bit(3, 1) == 1;
    forall i | 2 <= i < 32
      ensures Bit(3, i) == 0
    {
      HighBitsOfThree(i);
    }
  }

  lemma LoadSelected(v: nat, w: seq<int>)
    requires OpcodeFunct3(v, 0x03, 0) && w == BitTrits(32, v)
    ensures BitSelects(v, 0) && TritSelects(w, 0)
  {
    FreeEntry(v, 0, 0x03, 0);
    DecodersAgree(v, 0);
  }

  /** The two decoding steps of the self-test: the value 3 and the word with plus trits 0 and 1 select
      the entry of LB. */
  lemma LoadIsDecoded()
    ensures BitSelects(3, 0) && TritSelects([1, 1] + Zeros(30), 0)
  {
    WordOfThree();
    LoadSelected(3, [1, 1] + Zeros(30));
  }
}
