/** Instruction patterns: what a pattern means, when the two matcher loops terminate, and the
    matcher loops themselves. */
module Patterns {
  import opened Words
  import opened Ternary
  import opened Bits

  /** The digits a matcher compares, by the character that stands for them. */
  type Alphabet = map<char, int>

  const BIT_DIGITS: Alphabet := map['0' := 0, '1' := 1]
  const TRIT_DIGITS: Alphabet := map['0' := 0, '+' := 1, '-' := -1]

  predicate ValidAlphabet(a: Alphabet) {
    '0' in a && 'x' !in a && '_' !in a && '\0' !in a
  }

  predicate DigitsOf(a: Alphabet, w: Tr32) {
    forall i :: 0 <= i < 32 ==> w[i] in a.Values
  }

  /** A C string: the terminator follows the last character. */
  function CharAt(s: string, i: nat): char {
    if i < |s| then s[i] else '\0'
  }

  /** The text without its separators. */
  function Strip(s: string): (u: string)
    ensures |u| <= |s|
  {
    if |s| == 0 then "" else if s[0] == '_' then Strip(s[1..]) else [s[0]] + Strip(s[1..])
  }

  predicate HasHeader(s: string, h: char) {
    CharAt(s, 0) == '0' && CharAt(s, 1) == h
  }

  /** The symbols of a pattern, after its two header characters. */
  function Symbols(s: string): string {
    if |s| < 2 then "" else Strip(s[2..])
  }

  predicate IsSymbol(a: Alphabet, c: char) {
    c == 'x' || c in a
  }

  /** At least 32 symbols, and the first 32 are wildcards or digits. */
  predicate WellFormed(a: Alphabet, u: string) {
    |u| >= 32 && forall k :: 0 <= k < 32 ==> IsSymbol(a, u[k])
  }

  /** A pattern whose matcher terminates on every word: rejected at the header, or well formed. */
  predicate Total(a: Alphabet, h: char, s: string) {
    HasHeader(s, h) ==> WellFormed(a, Symbols(s))
  }

  predicate Fits(a: Alphabet, c: char, d: int) {
    c == 'x' || (c in a && a[c] == d)
  }

  /** Symbol k stands for digit 31 - k of the word. */
  predicate Matches(a: Alphabet, w: Tr32, u: string) {
    |u| >= 32 && forall k :: 0 <= k < 32 ==> Fits(a, u[k], w[31 - k])
  }

  predicate Answer(a: Alphabet, h: char, w: Tr32, s: string) {
    HasHeader(s, h) && Matches(a, w, Symbols(s))
  }

  /** The first cnt symbols fit. */
  predicate FitUpTo(a: Alphabet, w: Tr32, u: string, cnt: nat)
    requires cnt <= |u| && cnt <= 32
  {
    cnt == 0 || (Fits(a, u[cnt - 1], w[31 - (cnt - 1)]) && FitUpTo(a, w, u, cnt - 1))
  }

  lemma {:induction false} FitUpToAll(a: Alphabet, w: Tr32, u: string, cnt: nat)
    requires cnt <= |u| && cnt <= 32
    ensures FitUpTo(a, w, u, cnt) <==> forall k :: 0 <= k < cnt ==> Fits(a, u[k], w[31 - k])
  {
    if cnt == 0 {
    } else {
      FitUpToAll(a, w, u, cnt - 1);
    }
  }

  /** Wherever the word fits up to a position, there is a known symbol at that position. */
  predicate SafeFor(a: Alphabet, w: Tr32, u: string) {
    forall k :: 0 <= k < 32 && k <= |u| && FitUpTo(a, w, u, k) ==> k < |u| && IsSymbol(a, u[k])
  }

  /** What a matcher needs to terminate on a word: a wrong header, or no unknown symbol before the
      first mismatch. */
  predicate Safe(a: Alphabet, h: char, w: Tr32, s: string) {
    HasHeader(s, h) ==> SafeFor(a, w, Symbols(s))
  }

  // ---------------------------------------------------------------- the loops as recursions

  /** Whether the text from character i on fits the digits from symbol cnt on. */
  predicate Remaining(a: Alphabet, w: Tr32, s: string, i: nat, cnt: nat)
    decreases |s| - i
  {
    if cnt >= 32 then true
    else if i >= |s| then false
    else if s[i] == '_' then Remaining(a, w, s, i + 1, cnt)
    else Fits(a, s[i], w[31 - cnt]) && Remaining(a, w, s, i + 1, cnt + 1)
  }

  /** Whether a loop that has come this far meets no unknown symbol before its answer. */
  predicate SafeFrom(a: Alphabet, w: Tr32, s: string, i: nat, cnt: nat)
    decreases |s| - i
  {
    if cnt >= 32 then true
    else if i >= |s| then false
    else if s[i] == '_' then SafeFrom(a, w, s, i + 1, cnt)
    else IsSymbol(a, s[i]) && (Fits(a, s[i], w[31 - cnt]) ==> SafeFrom(a, w, s, i + 1, cnt + 1))
  }

  lemma StripAt(s: string, i: nat)
    requires i < |s|
    ensures Strip(s[i..]) == if s[i] == '_' then Strip(s[i + 1..]) else [s[i]] + Strip(s[i + 1..])
  {
    assert s[i..][1..] == s[i + 1..];
  }

  lemma DropHead(c: char, r: string, u: string, cnt: nat)
    requires cnt <= |u| && [c] + r == u[cnt..]
    ensures cnt < |u| && u[cnt] == c && u[cnt + 1..] == r
  {
    assert u[cnt..] != "";
    assert u[cnt..][0] == u[cnt] && u[cnt..][1..] == u[cnt + 1..];
  }

  predicate FitFrom(a: Alphabet, w: Tr32, u: string, cnt: nat) {
    |u| >= 32 && forall k :: cnt <= k < 32 ==> Fits(a, u[k], w[31 - k])
  }

  lemma {:induction false} RemainingFits(a: Alphabet, w: Tr32, s: string, u: string, i: nat, cnt: nat)
    requires i <= |s| && cnt <= 32 && cnt <= |u| && Strip(s[i..]) == u[cnt..]
    ensures Remaining(a, w, s, i, cnt) <==> FitFrom(a, w, u, cnt)
    decreases |s| - i
  {
    if cnt == 32 {
    } else if i == |s| {
      assert u[cnt..] == "";
    } else {
      StripAt(s, i);
      if s[i] == '_' {
        RemainingFits(a, w, s, u, i + 1, cnt);
      } else {
        DropHead(s[i], Strip(s[i + 1..]), u, cnt);
        RemainingFits(a, w, s, u, i + 1, cnt + 1);
        assert FitFrom(a, w, u, cnt) <==> FitFrom(a, w, u, cnt + 1) && Fits(a, u[cnt], w[31 - cnt]);
      }
    }
  }

  /** SafeFor, from symbol cnt on. */
  predicate KnownFrom(a: Alphabet, w: Tr32, u: string, cnt: nat) {
    forall k :: cnt <= k < 32 && k <= |u| && FitUpTo(a, w, u, k) ==> k < |u| && IsSymbol(a, u[k])
  }

  lemma NoLaterFit(a: Alphabet, w: Tr32, u: string, cnt: nat, k: nat)
    requires cnt < k <= |u| && k <= 32 && FitUpTo(a, w, u, k)
    ensures Fits(a, u[cnt], w[31 - cnt])
  {
    FitUpToAll(a, w, u, k);
  }

  lemma KnownStep(a: Alphabet, w: Tr32, u: string, cnt: nat)
    requires cnt < 32 && cnt < |u| && FitUpTo(a, w, u, cnt)
    ensures KnownFrom(a, w, u, cnt)
       <==> IsSymbol(a, u[cnt]) && (Fits(a, u[cnt], w[31 - cnt]) ==> KnownFrom(a, w, u, cnt + 1))
  {
    if !Fits(a, u[cnt], w[31 - cnt]) {
      forall k | cnt < k < 32 && k <= |u|
        ensures !FitUpTo(a, w, u, k)
      {
        if FitUpTo(a, w, u, k) {
          NoLaterFit(a, w, u, cnt, k);
        }
      }
    }
  }

  lemma {:induction false} SafeFromKnown(a: Alphabet, w: Tr32, s: string, u: string, i: nat, cnt: nat)
    requires i <= |s| && cnt <= 32 && cnt <= |u| && Strip(s[i..]) == u[cnt..] && FitUpTo(a, w, u, cnt)
    ensures SafeFrom(a, w, s, i, cnt) <==> KnownFrom(a, w, u, cnt)
    decreases |s| - i
  {
    if cnt == 32 {
    } else if i == |s| {
      assert u[cnt..] == "";
    } else {
      StripAt(s, i);
      if s[i] == '_' {
        SafeFromKnown(a, w, s, u, i + 1, cnt);
      } else {
        DropHead(s[i], Strip(s[i + 1..]), u, cnt);
        KnownStep(a, w, u, cnt);
        if Fits(a, u[cnt], w[31 - cnt]) {
          SafeFromKnown(a, w, s, u, i + 1, cnt + 1);
        }
      }
    }
  }

  /** After the header, the two recursions say what Safe and Answer say. */
  lemma AfterHeader(a: Alphabet, h: char, w: Tr32, s: string)
    requires HasHeader(s, h) && h != '\0'
    ensures |s| >= 2
    ensures Safe(a, h, w, s) <==> SafeFrom(a, w, s, 2, 0)
    ensures Answer(a, h, w, s) <==> Remaining(a, w, s, 2, 0)
  {
    var u := Symbols(s);
    assert Strip(s[2..]) == u[0..];
    RemainingFits(a, w, s, u, 2, 0);
    SafeFromKnown(a, w, s, u, 2, 0);
  }

  // ---------------------------------------------------------------- what the answers mean

  /** A ternary pattern, character by character. */
  lemma TritAnswerMeans(w: Tr32, s: string)
    ensures Answer(TRIT_DIGITS, 't', w, s) <==>
              && |s| >= 2 && s[0] == '0' && s[1] == 't'
              && |Strip(s[2..])| >= 32
              && forall k :: 0 <= k < 32 ==>
                   var c, d := Strip(s[2..])[k], w[31 - k];
                   c == 'x' || (c == '0' && d == 0) || (c == '+' && d == 1) || (c == '-' && d == -1)
  {
  }

  /** A binary pattern, character by character. */
  lemma BitAnswerMeans(v: nat, s: string)
    ensures Answer(BIT_DIGITS, 'b', BitTrits(32, v), s) <==>
              && |s| >= 2 && s[0] == '0' && s[1] == 'b'
              && |Strip(s[2..])| >= 32
              && forall k :: 0 <= k < 32 ==>
                   var c, d := Strip(s[2..])[k], Bit(v, 31 - k);
                   c == 'x' || (c == '0' && d == 0) || (c == '1' && d == 1)
  {
  }

  // ---------------------------------------------------------------- the matcher loops

  method TritpatMatchS(t: Tr32, s: string) returns (r: bool)
    requires Safe(TRIT_DIGITS, 't', Norm(t), s)
    ensures r == Answer(TRIT_DIGITS, 't', Norm(t), s)
  {
    var idx := 0;
    if CharAt(s, idx) != '0' {
      return false;
    }
    idx := idx + 1;
    if CharAt(s, idx) != 't' {
      return false;
    }
    idx := idx + 1;
    AfterHeader(TRIT_DIGITS, 't', Norm(t), s);
    r := TritLoop(t, s, idx);
  }

  /** The loop of tritpat_match_s, from the first character after the header. */
  method TritLoop(t: Tr32, s: string, start: nat) returns (r: bool)
    requires start <= |s| && SafeFrom(TRIT_DIGITS, Norm(t), s, start, 0)
    ensures r == Remaining(TRIT_DIGITS, Norm(t), s, start, 0)
  {
    var idx := start;
    var tritCnt := 0;
    ghost var w: Tr32 := Norm(t);
    while tritCnt < 32
      invariant idx <= |s| && tritCnt <= 32
      invariant SafeFrom(TRIT_DIGITS, w, s, idx, tritCnt)
      invariant Remaining(TRIT_DIGITS, w, s, idx, tritCnt) == Remaining(TRIT_DIGITS, w, s, start, 0)
      decreases |s| - idx
    {
      if s[idx] == '_' {
        idx := idx + 1;
        continue;
      }
      if s[idx] == 'x' {
        idx := idx + 1;
        tritCnt := tritCnt + 1;
        continue;
      }
      if s[idx] == '+' {
        if GetTrit32(t, 31 - tritCnt) == 1 {
          idx := idx + 1;
          tritCnt := tritCnt + 1;
          continue;
        }
        return false;
      } else if s[idx] == '0' {
        if GetTrit32(t, 31 - tritCnt) == 0 {
          idx := idx + 1;
          tritCnt := tritCnt + 1;
          continue;
        }
        return false;
      } else if s[idx] == '-' {
        if GetTrit32(t, 31 - tritCnt) == -1 {
          idx := idx + 1;
          tritCnt := tritCnt + 1;
          continue;
        }
        return false;
      }
    }
    return true;
  }

  method BitpatMatchS(t: nat, s: string) returns (r: bool)
    requires t < 0x1_0000_0000
    requires Safe(BIT_DIGITS, 'b', BitTrits(32, t), s)
    ensures r == Answer(BIT_DIGITS, 'b', BitTrits(32, t), s)
  {
    var idx := 0;
    if CharAt(s, idx) != '0' {
      return false;
    }
    idx := idx + 1;
    if CharAt(s, idx) != 'b' {
      return false;
    }
    idx := idx + 1;
    AfterHeader(BIT_DIGITS, 'b', BitTrits(32, t), s);
    r := BitLoop(t, s, idx);
  }

  /** The loop of bitpat_match_s. */
  method BitLoop(t: nat, s: string, start: nat) returns (r: bool)
    requires start <= |s| && SafeFrom(BIT_DIGITS, BitTrits(32, t), s, start, 0)
    ensures r == Remaining(BIT_DIGITS, BitTrits(32, t), s, start, 0)
  {
    var idx := start;
    var bitCnt := 0;
    ghost var w: Tr32 := BitTrits(32, t);
    while bitCnt < 32
      invariant idx <= |s| && bitCnt <= 32
      invariant SafeFrom(BIT_DIGITS, w, s, idx, bitCnt)
      invariant Remaining(BIT_DIGITS, w, s, idx, bitCnt) == Remaining(BIT_DIGITS, w, s, start, 0)
      decreases |s| - idx
    {
      if s[idx] == '_' {
        idx := idx + 1;
        continue;
      }
      if s[idx] == 'x' {
        idx := idx + 1;
        bitCnt := bitCnt + 1;
        continue;
      }
      var bit := And(Shr(t, 31 - bitCnt), 1);
      AndOne(Shr(t, 31 - bitCnt));
      assert bit == w[31 - bitCnt];
      if s[idx] == '1' {
        if bit != 0 {
          idx := idx + 1;
          bitCnt := bitCnt + 1;
          continue;
        }
        return false;
      } else if s[idx] == '0' {
        if bit == 0 {
          idx := idx + 1;
          bitCnt := bitCnt + 1;
          continue;
        }
        return false;
      }
    }
    return true;
  }
}
