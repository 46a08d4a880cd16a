/** Laws of patterns: separators do not count, a binary pattern is a mask test, and a binary pattern
    and its ternary translation agree. */
module PatternLaws {
  import opened Words
  import opened Bits
  import opened Patterns

  lemma {:induction false} StripConcat(p: string, q: string)
    ensures Strip(p + q) == Strip(p) + Strip(q)
  {
    if |p| == 0 {
      assert p + q == q;
    } else {
      assert (p + q)[1..] == p[1..] + q;
      StripConcat(p[1..], q);
    }
  }

  /** A separator may be inserted anywhere after the header without changing any answer. */
  lemma SeparatorsDoNotCount(a: Alphabet, h: char, w: Tr32, s: string, i: nat)
    requires 2 <= i <= |s|
    ensures var s' := s[..i] + "_" + s[i..];
            && (Safe(a, h, w, s') <==> Safe(a, h, w, s))
            && (Answer(a, h, w, s') <==> Answer(a, h, w, s))
  {
    var s' := s[..i] + "_" + s[i..];
    assert s'[2..] == (s[2..i] + "_") + s[i..];
    assert s[2..] == s[2..i] + s[i..];
    StripConcat(s[2..i], s[i..]);
    StripConcat(s[2..i] + "_", s[i..]);
    StripConcat(s[2..i], "_");
    assert "_"[1..] == "";
    assert Symbols(s') == Symbols(s);
  }

  // ---------------------------------------------------------------- the mask test

  /** A one for each symbol that is compared. */
  function MaskOf(u: string): nat {
    if |u| == 0 then 0
    else 2 * MaskOf(u[..|u| - 1]) + (if u[|u| - 1] == 'x' then 0 else 1)
  }

  /** A one for each symbol that must be one. */
  function BitsOf(u: string): nat {
    if |u| == 0 then 0
    else 2 * BitsOf(u[..|u| - 1]) + (if u[|u| - 1] == '1' then 1 else 0)
  }

  predicate FirstFit(v: nat, u: string, k: nat)
    requires k <= |u| && k <= 32
  {
    forall i :: 0 <= i < k ==> Fits(BIT_DIGITS, u[i], Bit(v, 31 - i))
  }

  predicate MaskTest(v: nat, u: string) {
    And(v, MaskOf(u)) == BitsOf(u)
  }

  /** After k symbols the top k bits of v have been tested against the mask built so far. */
  lemma {:induction false} MaskPrefix(v: nat, u: string, k: nat, top: nat)
    requires WellFormed(BIT_DIGITS, u) && k <= 32
    requires top == Shr(v, 32 - k)
    ensures MaskTest(top, u[..k]) <==> FirstFit(v, u, k)
  {
    if k == 0 {
    } else {
      ShrStep(v, 32 - k);
      MaskPrefix(v, u, k - 1, top / 2);
      assert IsSymbol(BIT_DIGITS, u[k - 1]);
      MaskDigit(top, u[..k], u[k - 1]);
      assert u[..k][..k - 1] == u[..k - 1];
      FitStep(v, u, k - 1);
    }
  }

  lemma FitStep(v: nat, u: string, k: nat)
    requires k < |u| && k < 32
    ensures FirstFit(v, u, k + 1) <==> FirstFit(v, u, k) && Fits(BIT_DIGITS, u[k], Bit(v, 31 - k))
  {
  }

  lemma MaskDigit(v: nat, u: string, c: char)
    requires |u| > 0 && u[|u| - 1] == c && IsSymbol(BIT_DIGITS, c)
    ensures MaskTest(v, u) <==> MaskTest(v / 2, u[..|u| - 1]) && Fits(BIT_DIGITS, c, v % 2)
  {
    AndDoubles(v, MaskOf(u[..|u| - 1]), if c == 'x' then 0 else 1);
  }

  lemma AndDoubles(v: nat, mask: nat, m: nat)
    requires m <= 1
    ensures And(v, 2 * mask + m) == v % 2 * m + 2 * And(v / 2, mask)
  {
    HalfOf(m, mask);
  }

  /** A well-formed binary pattern is the test (t & mask) == bits. */
  lemma BinaryPatternIsMaskTest(v: nat, u: string)
    requires WellFormed(BIT_DIGITS, u)
    ensures Matches(BIT_DIGITS, BitTrits(32, v), u) <==> MaskTest(v, u[..32])
  {
    MaskPrefix(v, u, 32, v);
  }

  // ---------------------------------------------------------------- binary and ternary patterns

  function ToTritChar(c: char): char {
    if c == '1' then '+' else c
  }

  function ToTritChars(s: string): (r: string)
    ensures |r| == |s|
    ensures forall i :: 0 <= i < |s| ==> r[i] == ToTritChar(s[i])
  {
    seq(|s|, i requires 0 <= i < |s| => ToTritChar(s[i]))
  }

  /** v is u in ternary characters. */
  predicate Renders(u: string, v: string) {
    v == ToTritChars(u)
  }

  /** The ternary pattern with the same layout: header 0t, and + for each 1. */
  function Translate(s: string): string {
    if |s| < 2 then s else "0t" + ToTritChars(s[2..])
  }

  lemma {:induction false} StripTranslated(s: string)
    ensures Strip(ToTritChars(s)) == ToTritChars(Strip(s))
  {
    if |s| == 0 {
    } else {
      StripTranslated(s[1..]);
      assert ToTritChars(s)[1..] == ToTritChars(s[1..]);
      if s[0] != '_' {
        var u := Strip(s[1..]);
        assert ToTritChars([s[0]] + u) == [ToTritChar(s[0])] + ToTritChars(u);
      }
    }
  }

  lemma TranslatedSymbol(c: char, d: int)
    requires IsSymbol(BIT_DIGITS, c)
    ensures IsSymbol(TRIT_DIGITS, ToTritChar(c))
    ensures Fits(TRIT_DIGITS, ToTritChar(c), d) == Fits(BIT_DIGITS, c, d)
  {
  }

  lemma TranslatedMatches(w: Tr32, u: string, v: string)
    requires WellFormed(BIT_DIGITS, u) && v == ToTritChars(u)
    ensures WellFormed(TRIT_DIGITS, v)
    ensures Matches(TRIT_DIGITS, w, v) == Matches(BIT_DIGITS, w, u)
  {
    forall k | 0 <= k < 32
      ensures IsSymbol(TRIT_DIGITS, v[k])
      ensures Fits(TRIT_DIGITS, v[k], w[31 - k]) == Fits(BIT_DIGITS, u[k], w[31 - k])
    {
      TranslatedSymbol(u[k], w[31 - k]);
    }
  }

  lemma TranslatedSymbols(s: string)
    requires HasHeader(s, 'b')
    ensures HasHeader(Translate(s), 't')
    ensures Symbols(Translate(s)) == ToTritChars(Symbols(s))
  {
    StripTranslated(s[2..]);
    assert Translate(s)[2..] == ToTritChars(s[2..]);
  }

  /** On the word of a 32-bit value, the translated pattern gives the answer of the binary one. */
  lemma TranslationAgrees(v: nat, s: string)
    requires HasHeader(s, 'b') && WellFormed(BIT_DIGITS, Symbols(s))
    ensures HasHeader(Translate(s), 't') && WellFormed(TRIT_DIGITS, Symbols(Translate(s)))
    ensures Answer(TRIT_DIGITS, 't', Norm(BitTrits(32, v)), Translate(s))
         == Answer(BIT_DIGITS, 'b', BitTrits(32, v), s)
  {
    NormOfTrits(BitTrits(32, v));
    TranslatedSymbols(s);
    TranslatedMatches(BitTrits(32, v), Symbols(s), Symbols(Translate(s)));
  }

  // ---------------------------------------------------------------- overlap and subsumption

  /** Different characters stand for different digits, and there is more than one digit. */
  predicate RichAlphabet(a: Alphabet) {
    && '0' in a
    && (forall c, d :: c in a && d in a && c != d ==> a[c] != a[d])
    && exists e :: e in a && e != '0'
  }

  lemma BitAlphabet()
    ensures RichAlphabet(BIT_DIGITS)
  {
    assert '1' in BIT_DIGITS && '1' != '0';
  }

  lemma TritAlphabet()
    ensures RichAlphabet(TRIT_DIGITS)
  {
    assert '+' in TRIT_DIGITS && '+' != '0';
  }

  /** No position holds two different digits. */
  predicate Compatible(u: string, v: string)
    requires |u| >= 32 && |v| >= 32
  {
    forall k :: 0 <= k < 32 ==> u[k] == 'x' || v[k] == 'x' || u[k] == v[k]
  }

  /** Where v has a digit, u has the same one. */
  predicate Covers(v: string, u: string)
    requires |u| >= 32 && |v| >= 32
  {
    forall k :: 0 <= k < 32 ==> v[k] == 'x' || v[k] == u[k]
  }

  ghost predicate Overlapping(a: Alphabet, u: string, v: string) {
    exists w: Tr32 :: DigitsOf(a, w) && Matches(a, w, u) && Matches(a, w, v)
  }

  ghost predicate Subsumed(a: Alphabet, u: string, v: string) {
    forall w: Tr32 :: DigitsOf(a, w) && Matches(a, w, u) ==> Matches(a, w, v)
  }

  /** A digit that fits both symbols, if they are compatible. */
  function DigitFor(a: Alphabet, c: char, d: char): (n: int)
    requires '0' in a
    ensures n in a.Values
  {
    if c != 'x' && c in a then a[c] else if d in a then a[d] else a['0']
  }

  function CommonWord(a: Alphabet, u: string, v: string): (w: Tr32)
    requires '0' in a && |u| >= 32 && |v| >= 32
    ensures forall i :: 0 <= i < 32 ==> w[i] == DigitFor(a, u[31 - i], v[31 - i])
    ensures DigitsOf(a, w)
  {
    seq(32, i requires 0 <= i < 32 => DigitFor(a, u[31 - i], v[31 - i]))
  }

  lemma DigitFits(a: Alphabet, c: char, d: char)
    requires ValidAlphabet(a) && IsSymbol(a, c) && IsSymbol(a, d)
    ensures Fits(a, c, DigitFor(a, c, d))
    ensures c == 'x' || d == 'x' || c == d ==> Fits(a, d, DigitFor(a, c, d))
  {
  }

  lemma CommonWordMatches(a: Alphabet, u: string, v: string)
    requires ValidAlphabet(a) && WellFormed(a, u) && WellFormed(a, v)
    ensures Matches(a, CommonWord(a, u, v), u)
    ensures Compatible(u, v) ==> Matches(a, CommonWord(a, u, v), v)
  {
    var w := CommonWord(a, u, v);
    forall k | 0 <= k < 32
      ensures Fits(a, u[k], w[31 - k])
      ensures Compatible(u, v) ==> Fits(a, v[k], w[31 - k])
    {
      DigitFits(a, u[k], v[k]);
    }
  }

  lemma CommonMatchCompatible(a: Alphabet, w: Tr32, u: string, v: string)
    requires RichAlphabet(a) && Matches(a, w, u) && Matches(a, w, v)
    ensures Compatible(u, v)
  {
    forall k | 0 <= k < 32
      ensures u[k] == 'x' || v[k] == 'x' || u[k] == v[k]
    {
      assert Fits(a, u[k], w[31 - k]) && Fits(a, v[k], w[31 - k]);
    }
  }

  /** Some word matches both patterns exactly when no position holds two different digits. */
  lemma OverlapExactly(a: Alphabet, u: string, v: string)
    requires ValidAlphabet(a) && RichAlphabet(a) && WellFormed(a, u) && WellFormed(a, v)
    ensures Overlapping(a, u, v) <==> Compatible(u, v)
  {
    CommonWordMatches(a, u, v);
    if Overlapping(a, u, v) {
      var w: Tr32 :| DigitsOf(a, w) && Matches(a, w, u) && Matches(a, w, v);
      CommonMatchCompatible(a, w, u, v);
    }
  }

  lemma CoveredMatches(a: Alphabet, w: Tr32, u: string, v: string)
    requires Matches(a, w, u) && |v| >= 32 && Covers(v, u)
    ensures Matches(a, w, v)
  {
    forall k | 0 <= k < 32
      ensures Fits(a, v[k], w[31 - k])
    {
      assert Fits(a, u[k], w[31 - k]);
    }
  }

  /** A digit that does not fit the symbol c. */
  ghost function OtherDigit(a: Alphabet, c: char): (d: char)
    requires RichAlphabet(a) && c in a
    ensures d in a && a[d] != a[c]
  {
    if c != '0' then '0' else var e :| e in a && e != '0'; e
  }

  /** Where v has a digit that u lacks, some word matches u but not v. */
  lemma UncoveredWord(a: Alphabet, u: string, v: string, k: nat) returns (w: Tr32)
    requires ValidAlphabet(a) && RichAlphabet(a) && WellFormed(a, u) && WellFormed(a, v)
    requires k < 32 && v[k] != 'x' && v[k] != u[k]
    ensures DigitsOf(a, w) && Matches(a, w, u) && !Matches(a, w, v)
  {
    assert IsSymbol(a, v[k]) && IsSymbol(a, u[k]);
    w := CommonWord(a, u, u);
    CommonWordMatches(a, u, u);
    assert Fits(a, u[k], w[31 - k]);
    if u[k] == 'x' {
      w := w[31 - k := a[OtherDigit(a, v[k])]];
    }
    assert !Fits(a, v[k], w[31 - k]);
  }

  /** Every word that matches u matches v exactly when u has every digit of v. */
  lemma SubsumedExactly(a: Alphabet, u: string, v: string)
    requires ValidAlphabet(a) && RichAlphabet(a) && WellFormed(a, u) && WellFormed(a, v)
    ensures Subsumed(a, u, v) <==> Covers(v, u)
  {
    if Covers(v, u) {
      forall w: Tr32 | DigitsOf(a, w) && Matches(a, w, u)
        ensures Matches(a, w, v)
      {
        CoveredMatches(a, w, u, v);
      }
    } else {
      var k :| 0 <= k < 32 && v[k] != 'x' && v[k] != u[k];
      var w := UncoveredWord(a, u, v, k);
    }
  }
}
