/** Loading memory from bytes: each tryte is given by a byte of plus trits and a byte of minus trits. */
module Loader {
  import opened Powers
  import opened Words
  import opened Bits

  type Byte = b: nat | b < 256

  /** The tryte of a pair of bytes; where both have a bit, the trit is zero. */
  function Tryte(plus: Byte, minus: Byte): (w: Tr8)
    ensures forall i :: 0 <= i < 8 ==> w[i] == Bit(plus, i) - Bit(minus, i)
    ensures IsTrits(w)
  {
    seq(8, i requires 0 <= i < 8 => Bit(plus, i) - Bit(minus, i))
  }

  /** The trytes of a list of bytes; an odd last byte is dropped. */
  function Trytes(bytes: seq<Byte>): (ws: seq<Tr8>)
    ensures |ws| == |bytes| / 2
    ensures forall k :: 0 <= k < |ws| ==> ws[k] == Tryte(bytes[2 * k], bytes[2 * k + 1])
  {
    seq(|bytes| / 2, k requires 0 <= k < |bytes| / 2 => Tryte(bytes[2 * k], bytes[2 * k + 1]))
  }

  /** A tryte denotes the difference of its two bytes, read as ternary numbers. */
  lemma TryteValue(plus: Byte, minus: Byte)
    ensures Num(Tryte(plus, minus)) == Value(Tryte(plus, minus)) == InBase3(plus) - InBase3(minus)
  {
    assert Pow2(8) == 256;
    ValueOfBits(8, plus);
    ValueOfBits(8, minus);
    ValueOfDifference(BitTrits(8, plus), BitTrits(8, minus), Tryte(plus, minus));
    NormOfTrits(Tryte(plus, minus));
  }

  /** Writing a normalised tryte as its plus and minus bytes and loading them gives it back. */
  lemma TryteRoundTrip(w: Tr8)
    requires IsTrits(w)
    ensures Plane(w, 1) < 256 && Plane(w, -1) < 256
    ensures Tryte(Plane(w, 1), Plane(w, -1)) == w
  {
    assert Pow2(8) == 256;
    forall i | 0 <= i < 8
      ensures Bit(Plane(w, 1), i) - Bit(Plane(w, -1), i) == w[i]
    {
      BitOfPlane(w, 1, i);
      BitOfPlane(w, -1, i);
      assert IsTrit(w[i]);
    }
  }

  /** How a load ends: all bytes read, the size check failed, or the next cell is outside the array. */
  datatype LoadOutcome = LoadDone | TooLarge | Overrun

  /** The outcome for n bytes, when room cells remain in the array and limit is the size that the
      source checks against. */
  function Outcome(n: nat, room: nat, limit: nat): LoadOutcome {
    if room < n / 2 && room < limit then Overrun
    else if limit < (n + 1) / 2 then TooLarge
    else LoadDone
  }

  /** How many cells are written before the load ends. */
  function CellsLoaded(n: nat, room: nat, limit: nat): (k: nat)
    ensures k <= n / 2 && k <= room
  {
    if n / 2 <= room && n / 2 <= limit then n / 2 else if room <= limit then room else limit
  }

  /** The loading loop. The destination is an array and a starting cell, as the source passes a
      pointer to the centre of a memory array. A write outside the array is undefined in C; the model
      stops there and reports it, as it reports a failed size check. */
  method SetTrytesFromStr(dst: array<Tr8>, start: nat, bytes: seq<Byte>, limit: nat) returns (r: LoadOutcome)
    requires start <= dst.Length
    modifies dst
    ensures r == Outcome(|bytes|, dst.Length - start, limit)
    ensures var k := CellsLoaded(|bytes|, dst.Length - start, limit);
            dst[..] == old(dst[..start]) + Trytes(bytes)[..k] + old(dst[start + k..])
  {
    var idst, pos := 0, 0;
    ghost var was := dst[..];
    r := LoadDone;
    while pos < |bytes|
      invariant pos == 2 * idst <= |bytes| && idst <= limit && start + idst <= dst.Length
      invariant forall k :: 0 <= k < idst ==> dst[start + k] == Trytes(bytes)[k]
      invariant forall k :: 0 <= k < dst.Length && !(start <= k < start + idst) ==> dst[k] == was[k]
    {
      if idst >= limit {
        r := TooLarge;
        break;
      }
      var val1 := bytes[pos];
      pos := pos + 1;
      if pos == |bytes| {
        break;
      }
      var val0 := bytes[pos];
      if start + idst >= dst.Length {
        r := Overrun;
        break;
      }
      LoadTryte(dst, start + idst, val1, val0);
      idst := idst + 1;
      pos := pos + 1;
    }
    assert idst == CellsLoaded(|bytes|, dst.Length - start, limit);
    LoadedCells(dst[..], was, Trytes(bytes)[..idst], start);
  }

  /** The outcome on every size: complete when all pairs fit in the room and the limit leaves place for an
      odd last byte; otherwise the smaller of room and limit decides. As many cells are written as bytes,
      room and limit all allow. */
  lemma OutcomeExactly(n: nat, room: nat, limit: nat)
    ensures Outcome(n, room, limit) == LoadDone <==> n / 2 <= room && (n + 1) / 2 <= limit
    ensures Outcome(n, room, limit) == Overrun <==> n / 2 > room && limit > room
    ensures var k := CellsLoaded(n, room, limit);
            k <= n / 2 && k <= room && k <= limit && (k == n / 2 || k == room || k == limit)
  {
  }

  /** From the centre of a memory array only 122 cells remain, so the size check against 243 never
      fires: the load is complete up to 122 trytes and runs out of the array beyond. */
  lemma CentreLoad(n: nat)
    ensures Outcome(n, 122, 243) == if n / 2 <= 122 then LoadDone else Overrun
    ensures CellsLoaded(n, 122, 243) == if n / 2 <= 122 then n / 2 else 122
  {
  }

  /** The inner loop: one cell, trit by trit. */
  method LoadTryte(dst: array<Tr8>, cell: nat, val1: Byte, val0: Byte)
    requires cell < dst.Length
    modifies dst
    ensures dst[..] == old(dst[..])[cell := Tryte(val1, val0)]
  {
    for i := 0 to 8
      invariant forall k :: 0 <= k < dst.Length && k != cell ==> dst[k] == old(dst[k])
      invariant forall k :: 0 <= k < i ==> dst[cell][k] == Bit(val1, k) - Bit(val0, k)
    {
      var sel := 0;
      AndPow2(val1, i);
      AndPow2(val0, i);
      if And(val1, Pow2(i)) > 0 {
        sel := sel + 2;
      }
      if And(val0, Pow2(i)) > 0 {
        sel := sel + 1;
      }
      var tr := 0;
      match sel {
        case 3 => tr := 0;
        case 2 => tr := 1;
        case 1 => tr := -1;
        case _ => tr := 0;
      }
      dst[cell] := dst[cell][i := tr];
    }
    assert dst[cell] == Tryte(val1, val0);
  }

  lemma LoadedCells(now: seq<Tr8>, was: seq<Tr8>, ws: seq<Tr8>, start: nat)
    requires |now| == |was| && start + |ws| <= |was|
    requires forall k :: 0 <= k < |ws| ==> now[start + k] == ws[k]
    requires forall k :: 0 <= k < |was| && !(start <= k < start + |ws|) ==> now[k] == was[k]
    ensures now == was[..start] + ws + was[start + |ws|..]
  {
    assert now[..start] == was[..start];
    assert now[start..start + |ws|] == ws;
    assert now[start + |ws|..] == was[start + |ws|..];
    assert now == now[..start] + now[start..start + |ws|] + now[start + |ws|..];
  }
}
