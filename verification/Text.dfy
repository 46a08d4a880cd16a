/** Text forms of words: one character a trit (+, 0, -), and one character a pair of trits
    (balanced nonary, W X Y Z 0 1 2 3 4 for -4 .. 4). */
module Text {
  import opened Words
  import opened Ternary

  // ---------------------------------------------------------------- plus, zero, minus

  function Signch(x: int): char {
    var r := Sign(x);
    if r > 0 then '+' else if r < 0 then '-' else '0'
  }

  function CharToTrit(c: char): (t: int)
    ensures IsTrit(t)
    ensures t == 1 <==> c == '+'
    ensures t == -1 <==> c == '-'
  {
    match c
    case '+' => 1
    case '0' => 0
    case '-' => -1
    case _ => 0
  }

  predicate IsTritText(s: string) {
    forall i :: 0 <= i < |s| ==> s[i] in {'+', '0', '-'}
  }

  /** A word written high trit first. */
  function Show(w: seq<int>): (s: string)
    ensures |s| == |w|
    ensures forall j :: 0 <= j < |w| ==> s[j] == Signch(w[|w| - 1 - j])
  {
    seq(|w|, j requires 0 <= j < |w| => Signch(w[|w| - 1 - j]))
  }

  /** The word whose trits, high first, are the characters of s. */
  function Parse(s: string): (w: seq<int>)
    ensures |w| == |s| && IsTrits(w)
    ensures forall i :: 0 <= i < |s| ==> w[i] == CharToTrit(s[|s| - 1 - i])
  {
    seq(|s|, i requires 0 <= i < |s| => CharToTrit(s[|s| - 1 - i]))
  }

  /** Left-to-right reading: multiply by three and add the next digit. */
  function Horner(s: string): int {
    if |s| == 0 then 0 else 3 * Horner(s[..|s| - 1]) + CharToTrit(s[|s| - 1])
  }

  lemma ParseShow(w: seq<int>)
    ensures Parse(Show(w)) == Norm(w)
  {
  }

  lemma ShowParse(s: string)
    requires IsTritText(s)
    ensures Show(Parse(s)) == s
  {
  }

  /** The number of a parsed text is its left-to-right reading. */
  lemma {:induction false} ParseIsHorner(s: string)
    ensures Value(Parse(s)) == Horner(s)
  {
    if |s| == 0 {
    } else {
      assert Parse(s)[1..] == Parse(s[..|s| - 1]);
      ParseIsHorner(s[..|s| - 1]);
    }
  }

  /** The characters that tlog32 prints for a word. */
  method Tlog32(ts: Tr32) returns (text: string)
    ensures text == Show(ts)
  {
    text := "";
    for j := 0 to 32
      invariant |text| == j
      invariant forall k :: 0 <= k < j ==> text[k] == Show(ts)[k]
    {
      text := text + [Signch(ts[31 - j])];
    }
  }

  /** Truncation of a string length to int8. */
  function ToInt8(v: int): (r: int)
    ensures -128 <= r < 128
  {
    (v + 128) % 256 - 128
  }

  /** How many characters smtr32 reads: the length passes through an int8 and is capped at 32. */
  function TakenLength(s: string): (n: int)
    ensures n <= 32 && n <= |s|
    ensures |s| == 32 ==> n == 32
  {
    var len := ToInt8(|s|);
    if len < 32 then len else 32
  }

  /** The count on every length: only the length modulo 256 matters, and from 128 up it is negative. */
  lemma TakenLengthExact(s: string)
    ensures var k := |s| % 256;
            TakenLength(s) == if k < 32 then k else if k < 128 then 32 else k - 256
  {
  }

  /** Text to word. The result starts uninitialised, so only the trits that the text reaches are
      determined; a text of exactly 32 characters determines them all. */
  method Smtr32(s: string) returns (t: Tr32)
    ensures var n := TakenLength(s);
            forall i :: 0 <= i < n ==> t[i] == CharToTrit(s[n - i - 1])
    ensures |s| == 32 ==> t == Parse(s)
  {
    t := *;
    var len := TakenLength(s);
    var i := 0;
    while i < len
      invariant 0 <= i && (i <= len || i == 0)
      invariant forall k :: 0 <= k < i ==> t[k] == CharToTrit(s[len - k - 1])
    {
      var v := CharToTrit(s[len - i - 1]);
      t := SetTrit32(t, i, v);
      i := i + 1;
    }
  }

  // ---------------------------------------------------------------- balanced nonary

  /** The character of a pair of trits, low trit first. */
  function SymbNineForm(t0: int, t1: int): char {
    match 3 * Sign(t1) + Sign(t0)
    case 4 => '4'
    case 3 => '3'
    case 2 => '2'
    case 1 => '1'
    case 0 => '0'
    case -1 => 'Z'
    case -2 => 'Y'
    case -3 => 'X'
    case -4 => 'W'
    case _ => ' '
  }

  predicate IsNineChar(c: char) {
    c in {'W', 'X', 'Y', 'Z', '0', '1', '2', '3', '4'}
  }

  predicate IsNineText(s: string) {
    forall i :: 0 <= i < |s| ==> IsNineChar(s[i])
  }

  function NineDigit(c: char): int {
    match c
    case 'W' => -4
    case 'X' => -3
    case 'Y' => -2
    case 'Z' => -1
    case '1' => 1
    case '2' => 2
    case '3' => 3
    case '4' => 4
    case _ => 0
  }

  /** A nonary text read low digit first. */
  function ReadLowFirst(s: string): int {
    if |s| == 0 then 0 else NineDigit(s[0]) + 9 * ReadLowFirst(s[1..])
  }

  /** A nonary text read left to right, high digit first. */
  function ReadHighFirst(s: string): int {
    if |s| == 0 then 0 else 9 * ReadHighFirst(s[..|s| - 1]) + NineDigit(s[|s| - 1])
  }

  /** The nonary text of a word, low digit first. */
  function NineForm(w: seq<int>): (s: string)
    requires |w| % 2 == 0
    ensures 2 * |s| == |w|
    ensures forall k :: 0 <= k < |s| ==> s[k] == SymbNineForm(w[2 * k], w[2 * k + 1])
  {
    seq(|w| / 2, k requires 0 <= k < |w| / 2 => SymbNineForm(w[2 * k], w[2 * k + 1]))
  }

  function Reversed(s: string): (r: string)
    ensures |r| == |s| && forall k :: 0 <= k < |s| ==> r[k] == s[|s| - 1 - k]
  {
    seq(|s|, k requires 0 <= k < |s| => s[|s| - 1 - k])
  }

  lemma PairDigit(t0: int, t1: int)
    ensures NineDigit(SymbNineForm(t0, t1)) == 3 * Sign(t1) + Sign(t0)
    ensures IsNineChar(SymbNineForm(t0, t1))
  {
  }

  lemma ValueOfPairs(w: seq<int>)
    requires |w| >= 2
    ensures Value(w) == w[0] + 3 * w[1] + 9 * Value(w[2..])
  {
    assert w[1..][1..] == w[2..];
  }

  /** The nonary text keeps the number. */
  lemma {:induction false} NineFormKeepsNumber(w: seq<int>)
    requires |w| % 2 == 0
    ensures ReadLowFirst(NineForm(w)) == Num(w)
  {
    if |w| == 0 {
    } else {
      assert NineForm(w)[1..] == NineForm(w[2..]);
      NineFormKeepsNumber(w[2..]);
      assert Norm(w)[2..] == Norm(w[2..]);
      ValueOfPairs(Norm(w));
      PairDigit(w[0], w[1]);
    }
  }

  /** The word whose pairs of trits are the nonary digits of s, low digit first. */
  function NineParse(s: string): (w: seq<int>)
    ensures |w| == 2 * |s| && IsTrits(w)
  {
    if |s| == 0 then []
    else [LowTrit(NineDigit(s[0])), HighTrit(NineDigit(s[0]))] + NineParse(s[1..])
  }

  function HighTrit(d: int): (t: int)
    ensures IsTrit(t)
  {
    if d > 1 then 1 else if d < -1 then -1 else 0
  }

  /** Every nonary text is the text of a normalised word: with NineFormInjective, words of 2n trits
      and nonary texts of n characters are in bijection. */
  lemma NineFormReaches(s: string)
    requires IsNineText(s)
    ensures NineForm(NineParse(s)) == s
    ensures Value(NineParse(s)) == ReadLowFirst(s)
  {
    NineTextBack(s);
    NineFormKeepsNumber(NineParse(s));
    NormOfTrits(NineParse(s));
  }

  lemma {:induction false} NineTextBack(s: string)
    requires IsNineText(s)
    ensures NineForm(NineParse(s)) == s
  {
    if |s| == 0 {
    } else {
      assert IsNineChar(s[0]);
      NineTextBack(s[1..]);
      NineHead(s[0], NineParse(s[1..]));
    }
  }

  lemma NineHead(c: char, w: seq<int>)
    requires IsNineChar(c) && |w| % 2 == 0
    ensures NineForm([LowTrit(NineDigit(c)), HighTrit(NineDigit(c))] + w) == [c] + NineForm(w)
  {
    PairText(c);
    NineFormCons(LowTrit(NineDigit(c)), HighTrit(NineDigit(c)), w);
  }

  lemma NineFormCons(t0: int, t1: int, w: seq<int>)
    requires |w| % 2 == 0
    ensures NineForm([t0, t1] + w) == [SymbNineForm(t0, t1)] + NineForm(w)
  {
  }

  lemma PairText(c: char)
    requires IsNineChar(c)
    ensures SymbNineForm(LowTrit(NineDigit(c)), HighTrit(NineDigit(c))) == c
  {
  }

  lemma {:induction false} ReadReversed(s: string)
    ensures ReadHighFirst(Reversed(s)) == ReadLowFirst(s)
  {
    if |s| == 0 {
    } else {
      assert Reversed(s)[..|s| - 1] == Reversed(s[1..]);
      ReadReversed(s[1..]);
    }
  }

  /** Two words have the same nonary text exactly when they normalise to the same trits. */
  lemma NineFormInjective(x: seq<int>, y: seq<int>)
    requires |x| == |y| && |x| % 2 == 0
    ensures NineForm(x) == NineForm(y) <==> Norm(x) == Norm(y)
  {
    NineFormKeepsNumber(x);
    NineFormKeepsNumber(y);
    SameNumber(x, y);
    if Norm(x) == Norm(y) {
      forall k | 0 <= k < |x| / 2
        ensures NineForm(x)[k] == NineForm(y)[k]
      {
        assert Norm(x)[2 * k] == Norm(y)[2 * k] && Norm(x)[2 * k + 1] == Norm(y)[2 * k + 1];
      }
    }
  }

  method Tr8ToNineString(buf: array<char>, v: Tr8)
    requires buf.Length >= 4
    modifies buf
    ensures buf[..4] == NineForm(v) && buf[4..] == old(buf[4..])
    ensures ReadLowFirst(buf[..4]) == Num(v)
  {
    var index := 0;
    for i := 0 to 4
      invariant index == 2 * i
      invariant forall k :: 0 <= k < i ==> buf[k] == NineForm(v)[k]
      invariant buf[4..] == old(buf[4..])
    {
      var t0 := GetTrit8(v, index);
      var t1 := GetTrit8(v, index + 1);
      index := index + 2;
      buf[i] := SymbNineForm(t0, t1);
    }
    assert buf[..4] == NineForm(v);
    NineFormKeepsNumber(v);
  }

  method Tr16ToNineString(buf: array<char>, v: Tr16)
    requires buf.Length >= 8
    modifies buf
    ensures buf[..8] == NineForm(v) && buf[8..] == old(buf[8..])
    ensures ReadLowFirst(buf[..8]) == Num(v)
  {
    var index := 0;
    for i := 0 to 8
      invariant index == 2 * i
      invariant forall k :: 0 <= k < i ==> buf[k] == NineForm(v)[k]
      invariant buf[8..] == old(buf[8..])
    {
      var t0 := GetTrit16(v, index);
      var t1 := GetTrit16(v, index + 1);
      index := index + 2;
      buf[i] := SymbNineForm(t0, t1);
    }
    assert buf[..8] == NineForm(v);
    NineFormKeepsNumber(v);
  }

  /** The 32-trit form is written high digit first, unlike the two shorter ones. */
  method Tr32ToNineString(buf: array<char>, v: Tr32)
    requires buf.Length >= 16
    modifies buf
    ensures buf[..16] == Reversed(NineForm(v)) && buf[16..] == old(buf[16..])
    ensures ReadHighFirst(buf[..16]) == Num(v)
  {
    var index := 0;
    for i := 0 to 16
      invariant index == 2 * i
      invariant forall k :: 0 <= k < i ==> buf[15 - k] == NineForm(v)[k]
      invariant buf[16..] == old(buf[16..])
    {
      var t0 := GetTrit32(v, index);
      var t1 := GetTrit32(v, index + 1);
      index := index + 2;
      buf[15 - i] := SymbNineForm(t0, t1);
    }
    assert buf[..16] == Reversed(NineForm(v)) by {
      forall k | 0 <= k < 16
        ensures buf[k] == Reversed(NineForm(v))[k]
      {
        assert buf[15 - (15 - k)] == NineForm(v)[15 - k];
      }
    }
    NineFormKeepsNumber(v);
    ReadReversed(NineForm(v));
  }
}
