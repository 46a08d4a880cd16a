/** When the matcher loops terminate. One pass of either loop is a step of a small machine; a pattern
    halts on every word exactly when it is rejected at its header or is well formed. */
module Termination {
  import opened Powers
  import opened Words
  import opened Bits
  import opened Patterns

  datatype Scan = Running(idx: nat, cnt: nat) | Done(answer: bool)

  function Start(h: char, s: string): Scan {
    if HasHeader(s, h) then Running(2, 0) else Done(false)
  }

  /** One evaluation of the loop guard and, if it holds, of the loop body. A character that is no
      symbol leaves both cursors where they are. */
  function Step(a: Alphabet, w: Tr32, s: string, st: Scan): Scan {
    match st
    case Done(_) => st
    case Running(idx, cnt) =>
      var c := CharAt(s, idx);
      if cnt >= 32 then Done(true)
      else if c == '_' then Running(idx + 1, cnt)
      else if c == 'x' then Running(idx + 1, cnt + 1)
      else if c in a then (if a[c] == w[31 - cnt] then Running(idx + 1, cnt + 1) else Done(false))
      else st
  }

  function Iterate(a: Alphabet, w: Tr32, s: string, st: Scan, n: nat): Scan
    decreases n
  {
    if n == 0 then st else Iterate(a, w, s, Step(a, w, s, st), n - 1)
  }

  ghost predicate Halts(a: Alphabet, h: char, w: Tr32, s: string) {
    exists n: nat :: Iterate(a, w, s, Start(h, s), n).Done?
  }

  /** From a safe state the loop reaches an answer, and the right one. */
  lemma {:induction false} ScanFinishes(a: Alphabet, w: Tr32, s: string, idx: nat, cnt: nat) returns (n: nat)
    requires ValidAlphabet(a) && SafeFrom(a, w, s, idx, cnt)
    ensures Iterate(a, w, s, Running(idx, cnt), n) == Done(Remaining(a, w, s, idx, cnt))
    decreases |s| - idx
  {
    var next := Step(a, w, s, Running(idx, cnt));
    if next.Done? {
      assert Iterate(a, w, s, next, 0) == next;
      return 1;
    }
    var m := ScanFinishes(a, w, s, next.idx, next.cnt);
    return m + 1;
  }

  /** From an unsafe state it never does. */
  lemma {:induction false} NeverDone(a: Alphabet, w: Tr32, s: string, idx: nat, cnt: nat, n: nat)
    requires ValidAlphabet(a) && !SafeFrom(a, w, s, idx, cnt)
    ensures Iterate(a, w, s, Running(idx, cnt), n).Running?
    decreases n
  {
    if n == 0 {
    } else {
      var next := Step(a, w, s, Running(idx, cnt));
      NeverDone(a, w, s, next.idx, next.cnt, n - 1);
    }
  }

  /** A safe pattern halts on the word, with the answer of the matcher. */
  lemma SafeHalts(a: Alphabet, h: char, w: Tr32, s: string)
    requires ValidAlphabet(a) && h != '\0' && Safe(a, h, w, s)
    ensures Halts(a, h, w, s)
    ensures exists n :: Iterate(a, w, s, Start(h, s), n) == Done(Answer(a, h, w, s))
  {
    if HasHeader(s, h) {
      AfterHeader(a, h, w, s);
      var n := ScanFinishes(a, w, s, 2, 0);
      assert Iterate(a, w, s, Start(h, s), n).Done?;
    } else {
      assert Iterate(a, w, s, Start(h, s), 0) == Done(false);
      assert Iterate(a, w, s, Start(h, s), 0).Done?;
    }
  }

  /** A matcher loop terminates on a word exactly when the pattern is safe for it. */
  lemma HaltsExactly(a: Alphabet, h: char, w: Tr32, s: string)
    requires ValidAlphabet(a) && h != '\0'
    ensures Halts(a, h, w, s) <==> Safe(a, h, w, s)
  {
    if Safe(a, h, w, s) {
      SafeHalts(a, h, w, s);
    } else {
      AfterHeader(a, h, w, s);
      forall n: nat
        ensures Iterate(a, w, s, Start(h, s), n).Running?
      {
        NeverDone(a, w, s, 2, 0, n);
      }
    }
  }

  // ---------------------------------------------------------------- patterns safe for every word

  lemma TotalIsSafe(a: Alphabet, h: char, w: Tr32, s: string)
    requires Total(a, h, s)
    ensures Safe(a, h, w, s)
  {
  }

  /** A word that agrees with the first j symbols. */
  function Witness(a: Alphabet, u: string, j: nat): (w: Tr32)
    requires '0' in a && j <= |u|
    ensures DigitsOf(a, w)
    ensures forall k :: 0 <= k < j && k < 32 && u[k] in a ==> w[31 - k] == a[u[k]]
  {
    seq(32, i requires 0 <= i < 32 => if 31 - i < j && u[31 - i] in a then a[u[31 - i]] else a['0'])
  }

  /** A pattern that is not total runs forever on some word. */
  lemma PartialDiverges(a: Alphabet, h: char, s: string) returns (w: Tr32)
    requires ValidAlphabet(a) && h != '\0' && !Total(a, h, s)
    ensures DigitsOf(a, w) && !Halts(a, h, w, s)
  {
    var u := Symbols(s);
    var j := 0;
    while j < |u| && IsSymbol(a, u[j])
      invariant j <= |u| && j <= 32
      invariant forall k :: 0 <= k < j ==> IsSymbol(a, u[k])
    {
      j := j + 1;
    }
    w := Witness(a, u, j);
    FitUpToAll(a, w, u, j);
    assert !SafeFor(a, w, u);
    HaltsExactly(a, h, w, s);
  }

  /** tritpat_match_s terminates on every word exactly when the pattern is total. */
  lemma TritpatHalts(s: string)
    ensures (forall t: Tr32 :: Halts(TRIT_DIGITS, 't', Norm(t), s)) <==> Total(TRIT_DIGITS, 't', s)
  {
    if Total(TRIT_DIGITS, 't', s) {
      forall t: Tr32
        ensures Halts(TRIT_DIGITS, 't', Norm(t), s)
      {
        TotalIsSafe(TRIT_DIGITS, 't', Norm(t), s);
        HaltsExactly(TRIT_DIGITS, 't', Norm(t), s);
      }
    } else {
      var w := PartialDiverges(TRIT_DIGITS, 't', s);
      assert forall i :: 0 <= i < 32 ==> IsTrit(w[i]);
      NormOfTrits(w);
    }
  }

  /** bitpat_match_s terminates on every 32-bit value exactly when the pattern is total. */
  lemma BitpatHalts(s: string)
    ensures (forall v: nat | v < Pow2(32) :: Halts(BIT_DIGITS, 'b', BitTrits(32, v), s))
       <==> Total(BIT_DIGITS, 'b', s)
  {
    if Total(BIT_DIGITS, 'b', s) {
      forall v: nat | v < Pow2(32)
        ensures Halts(BIT_DIGITS, 'b', BitTrits(32, v), s)
      {
        TotalIsSafe(BIT_DIGITS, 'b', BitTrits(32, v), s);
        HaltsExactly(BIT_DIGITS, 'b', BitTrits(32, v), s);
      }
    } else {
      var w := PartialDiverges(BIT_DIGITS, 'b', s);
      assert forall i :: 0 <= i < 32 ==> w[i] == 0 || w[i] == 1;
      BinaryWords(w);
      assert !Halts(BIT_DIGITS, 'b', BitTrits(32, Plane(w, 1)), s);
    }
  }
}
