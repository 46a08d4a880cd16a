/** The algebra of word addition: what add_trs, sub_trs and neg_trs compute, and the laws they obey. */
module Adder {
  import opened Powers
  import opened Words

  /** Integer addition modulo 3^n, in balanced trits. */
  function Add(x: seq<int>, y: seq<int>): (r: seq<int>)
    requires |x| == |y|
    ensures |r| == |x| && IsTrits(r)
  {
    Encode(|x|, Num(x) + Num(y))
  }

  function Sub(x: seq<int>, y: seq<int>): (r: seq<int>)
    requires |x| == |y|
    ensures |r| == |x| && IsTrits(r)
  {
    Encode(|x|, Num(x) - Num(y))
  }

  /** Tritwise negation. */
  function Neg(x: seq<int>): (r: seq<int>)
    ensures |r| == |x|
    ensures forall i :: 0 <= i < |x| ==> r[i] == -x[i]
  {
    seq(|x|, i requires 0 <= i < |x| => -x[i])
  }

  /** A word denotes an in-range number, and its normal form encodes that number. */
  lemma NumEncoded(x: seq<int>)
    ensures -HalfRange(|x|) <= Num(x) <= HalfRange(|x|)
    ensures Encode(|x|, Num(x)) == Norm(x)
  {
    ValueBound(Norm(x));
    ValueBijection(|x|, Norm(x), 0);
  }

  /** Encoding depends on the integer only modulo 3^n. */
  lemma EncodeCongruent(n: nat, u: int, v: int, q: int)
    requires u == v + Pow3(n) * q
    ensures Encode(n, u) == Encode(n, v)
  {
    EncodeValue(n, v);
    ValueBound(Encode(n, v));
    Factor(Pow3(n), Overflow(n, v), q);
    EncodeUnique(n, u, Value(Encode(n, v)), Overflow(n, v) + q);
    ValueUnique(Encode(n, u), Encode(n, v));
  }

  lemma NumOfEncode(n: nat, v: int)
    ensures v == Num(Encode(n, v)) + Pow3(n) * Overflow(n, v)
  {
    NormOfTrits(Encode(n, v));
    EncodeValue(n, v);
  }

  /** Wrapping an intermediate result does not change the final one. */
  lemma EncodeAbsorbs(n: nat, u: int, v: int, t: int)
    requires t == u + v
    ensures Encode(n, Num(Encode(n, u)) + v) == Encode(n, t)
  {
    NumOfEncode(n, u);
    EncodeCongruent(n, t, Num(Encode(n, u)) + v, Overflow(n, u));
  }

  // ---------------------------------------------------------------- the group

  lemma AddCommutes(x: seq<int>, y: seq<int>)
    requires |x| == |y|
    ensures Add(x, y) == Add(y, x)
  {
  }

  /** Addition is associative trit for trit, whatever overflows on the way. */
  lemma {:induction false} AddAssociative(x: seq<int>, y: seq<int>, z: seq<int>)
    requires |x| == |y| == |z|
    ensures Add(Add(x, y), z) == Add(x, Add(y, z))
  {
    var t := Num(x) + Num(y) + Num(z);
    EncodeAbsorbs(|x|, Num(x) + Num(y), Num(z), t);
    EncodeAbsorbs(|x|, Num(y) + Num(z), Num(x), t);
  }

  lemma AddZero(x: seq<int>)
    ensures Add(x, Zeros(|x|)) == Norm(x) == Add(Zeros(|x|), x)
  {
    NormOfTrits(Zeros(|x|));
    ValueZeros(|x|);
    NumEncoded(x);
  }

  lemma NegNum(x: seq<int>)
    ensures Num(Neg(x)) == -Num(x)
    ensures Neg(Neg(x)) == x
    ensures Norm(Neg(x)) == Neg(Norm(x))
  {
    ValueOfNegation(Norm(x), Norm(Neg(x)));
  }

  lemma AddInverse(x: seq<int>)
    ensures Add(x, Neg(x)) == Zeros(|x|) == Add(Neg(x), x)
  {
    NegNum(x);
    ValueZeros(|x|);
    NormOfTrits(Zeros(|x|));
    NumEncoded(Zeros(|x|));
  }

  /** Subtraction is addition of the negation. */
  lemma SubIsAddNeg(x: seq<int>, y: seq<int>)
    requires |x| == |y|
    ensures Sub(x, y) == Add(x, Neg(y))
  {
    NegNum(y);
  }

  /** Subtraction is undone by addition, up to normalisation, even when it overflowed. */
  lemma AddUndoesSub(x: seq<int>, y: seq<int>)
    requires |x| == |y|
    ensures Add(Sub(x, y), y) == Norm(x)
  {
    NumEncoded(x);
    EncodeAbsorbs(|x|, Num(x) - Num(y), Num(y), Num(x));
  }

  lemma SubUndoesAdd(x: seq<int>, y: seq<int>)
    requires |x| == |y|
    ensures Sub(Add(x, y), y) == Norm(x)
  {
    NumEncoded(x);
    EncodeAbsorbs(|x|, Num(x) + Num(y), -Num(y), Num(x));
  }

  // ---------------------------------------------------------------- overflow

  /** The carry that leaves the top trit of x + y. */
  function DroppedCarry(x: seq<int>, y: seq<int>): int
    requires |x| == |y|
  {
    Overflow(|x|, Num(x) + Num(y))
  }

  /** The sum in exact integers: the result word and the carry that add_trs drops. */
  lemma {:induction false} SumSplits(x: seq<int>, y: seq<int>)
    requires |x| == |y|
    ensures Num(x) + Num(y) == Num(Add(x, y)) + Pow3(|x|) * DroppedCarry(x, y)
  {
    NumOfEncode(|x|, Num(x) + Num(y));
  }

  /** The dropped carry is one trit; it is non-zero exactly when the true sum is out of range, and
      then it has the sign of the true sum; otherwise the sum is exact. */
  lemma {:induction false} OverflowCriterion(x: seq<int>, y: seq<int>)
    requires |x| == |y|
    ensures IsTrit(DroppedCarry(x, y))
    ensures DroppedCarry(x, y) == 0 <==> -HalfRange(|x|) <= Num(x) + Num(y) <= HalfRange(|x|)
    ensures DroppedCarry(x, y) != 0 ==> DroppedCarry(x, y) == Sign(Num(x) + Num(y))
    ensures DroppedCarry(x, y) == 0 <==> Num(Add(x, y)) == Num(x) + Num(y)
  {
    NumEncoded(x);
    NumEncoded(y);
    NumEncoded(Add(x, y));
    SumSplits(x, y);
    DroppedMultiple(HalfRange(|x|), Pow3(|x|), Num(x) + Num(y), Num(Add(x, y)), DroppedCarry(x, y));
  }

  /** The overflow test the code asks for: the top trits of the two operands and of the result
      decide it. The dropped carry is a + b - s divided by 3, rounded to nearest. */
  lemma OverflowFromTopTrits(x: seq<int>, y: seq<int>)
    requires |x| == |y| > 0
    ensures var top := |x| - 1;
            var t := Sign(x[top]) + Sign(y[top]) - Sign(Add(x, y)[top]);
            && (DroppedCarry(x, y) == 1 <==> t >= 2)
            && (DroppedCarry(x, y) == -1 <==> t <= -2)
  {
    var top := |x| - 1;
    var r := Add(x, y);
    var a, b, s, c := Sign(x[top]), Sign(y[top]), Sign(r[top]), DroppedCarry(x, y);
    SumSplits(x, y);
    OverflowCriterion(x, y);
    SplitTop(x);
    SplitTop(y);
    SplitTop(r);
    TopTritsArithmetic(HalfRange(top), Pow3(top), a, b, s, c,
                       Num(x[..top]), Num(y[..top]), Num(r[..top]));
  }

  lemma TopTritsArithmetic(h: int, p: int, a: int, b: int, s: int, c: int, x: int, y: int, r: int)
    requires h >= 0 && p == 2 * h + 1 && IsTrit(s)
    requires -h <= x <= h && -h <= y <= h && -h <= r <= h
    requires (x + p * a) + (y + p * b) == (r + p * s) + (3 * p) * c
    ensures -1 <= a + b - s - 3 * c <= 1
  {
    Factor(p, a, b);
    Factor(p, a + b, s);
    Factor(p, a + b - s, 3 * c);
    SmallMultiple(h, p, a + b - s - 3 * c);
  }

  lemma SplitTop(x: seq<int>)
    requires |x| > 0
    ensures var top := |x| - 1;
            && Num(x) == Num(x[..top]) + Pow3(top) * Sign(x[top])
            && -HalfRange(top) <= Num(x[..top]) <= HalfRange(top)
  {
    var top := |x| - 1;
    ValuePrefix(Norm(x), top);
    assert Norm(x)[..top + 1] == Norm(x);
    assert Norm(x)[..top] == Norm(x[..top]);
    ValueBound(Norm(x[..top]));
  }
}
