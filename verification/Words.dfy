/** Balanced-ternary words: a word is a sequence of trits, trit 0 lowest.

    A stored trit is a C int, and the arithmetic reads it through its sign, so a word denotes
    the number of its sign-normalised trits. */
module Words {
  import opened Powers

  type Tr8 = w: seq<int> | |w| == 8 witness [0, 0, 0, 0, 0, 0, 0, 0]
  type Tr16 = w: seq<int> | |w| == 16 witness [0, 0, 0, 0, 0, 0, 0, 0] + [0, 0, 0, 0, 0, 0, 0, 0]
  type Tr32 = w: seq<int> | |w| == 32 witness seq(32, _ => 0)

  function Sign(x: int): (t: int)
    ensures t == 0 <==> x == 0
    ensures t == 1 <==> x > 0
    ensures t == -1 <==> x < 0
  {
    (if x > 0 then 1 else 0) - (if x < 0 then 1 else 0)
  }

  predicate IsTrit(t: int) {
    -1 <= t <= 1
  }

  predicate IsTrits(w: seq<int>) {
    forall i :: 0 <= i < |w| ==> IsTrit(w[i])
  }

  function Zeros(n: nat): (w: seq<int>) {
    seq(n, _ => 0)
  }

  /** The word with every trit replaced by its sign. */
  function Norm(w: seq<int>): (r: seq<int>)
    ensures |r| == |w|
    ensures forall i :: 0 <= i < |w| ==> r[i] == Sign(w[i])
    ensures IsTrits(r)
  {
    seq(|w|, i requires 0 <= i < |w| => Sign(w[i]))
  }

  /** Sum of w[i] * 3^i. */
  function Value(w: seq<int>): int {
    if |w| == 0 then 0 else w[0] + 3 * Value(w[1..])
  }

  /** The number a stored word denotes. */
  function Num(w: seq<int>): int {
    Value(Norm(w))
  }

  lemma NormOfTrits(w: seq<int>)
    requires IsTrits(w)
    ensures Norm(w) == w
  {
    forall i | 0 <= i < |w|
      ensures Norm(w)[i] == w[i]
    {
      assert IsTrit(w[i]);
    }
  }

  /** Adding a trit at the top adds its weight. */
  lemma {:induction false} ValueSnoc(w: seq<int>, d: int)
    ensures Value(w + [d]) == Value(w) + Pow3(|w|) * d
  {
    if |w| == 0 {
      assert w + [d] == [d];
    } else {
      assert (w + [d])[1..] == w[1..] + [d];
      ValueSnoc(w[1..], d);
    }
  }

  lemma ValuePrefix(w: seq<int>, i: nat)
    requires i < |w|
    ensures Value(w[..i + 1]) == Value(w[..i]) + Pow3(i) * w[i]
  {
    assert w[..i + 1] == w[..i] + [w[i]];
    ValueSnoc(w[..i], w[i]);
  }

  /** Zero trits above a word do not change its value. */
  lemma {:induction false} ValueZeroFill(w: seq<int>, n: nat)
    ensures Value(w + Zeros(n)) == Value(w)
  {
    if n == 0 {
      assert w + Zeros(0) == w;
    } else {
      assert w + Zeros(n) == (w + Zeros(n - 1)) + [0];
      ValueSnoc(w + Zeros(n - 1), 0);
      ValueZeroFill(w, n - 1);
    }
  }

  lemma ValueZeros(n: nat)
    ensures Value(Zeros(n)) == 0
  {
    assert [] + Zeros(n) == Zeros(n);
    ValueZeroFill([], n);
  }

  /** n trits never leave the balanced range, so every partial sum of the conversion loop fits. */
  lemma {:induction false} ValueBound(w: seq<int>)
    requires IsTrits(w)
    ensures -HalfRange(|w|) <= Value(w) <= HalfRange(|w|)
  {
    if |w| == 0 {
    } else {
      ValueBound(w[1..]);
      assert IsTrit(w[0]);
    }
  }

  /** Representations are unique: equal numbers have equal trits. */
  lemma {:induction false} ValueUnique(x: seq<int>, y: seq<int>)
    requires |x| == |y| && IsTrits(x) && IsTrits(y)
    requires Value(x) == Value(y)
    ensures x == y
  {
    if |x| == 0 {
    } else {
      assert IsTrit(x[0]) && IsTrit(y[0]);
      assert x[0] - y[0] == 3 * (Value(y[1..]) - Value(x[1..]));
      ValueUnique(x[1..], y[1..]);
      assert x == [x[0]] + x[1..] && y == [y[0]] + y[1..];
    }
  }

  lemma {:induction false} ValueOfNegation(x: seq<int>, y: seq<int>)
    requires |x| == |y| && forall i :: 0 <= i < |x| ==> y[i] == -x[i]
    ensures Value(y) == -Value(x)
  {
    if |x| == 0 {
    } else {
      ValueOfNegation(x[1..], y[1..]);
    }
  }

  /** Value is linear: a tritwise difference has the difference of the values. */
  lemma {:induction false} ValueOfDifference(x: seq<int>, y: seq<int>, z: seq<int>)
    requires |x| == |y| == |z| && forall i :: 0 <= i < |x| ==> z[i] == x[i] - y[i]
    ensures Value(z) == Value(x) - Value(y)
  {
    if |x| == 0 {
    } else {
      ValueOfDifference(x[1..], y[1..], z[1..]);
    }
  }

  // ---------------------------------------------------------------- from integers to words

  /** The trit congruent to v modulo 3. */
  function LowTrit(v: int): (d: int)
    ensures IsTrit(d) && (v - d) % 3 == 0
  {
    if v % 3 == 2 then -1 else v % 3
  }

  /** The low n trits of the integer v. */
  function Encode(n: nat, v: int): (w: seq<int>)
    ensures |w| == n
    ensures IsTrits(w)
  {
    if n == 0 then [] else [LowTrit(v)] + Encode(n - 1, (v - LowTrit(v)) / 3)
  }

  /** What is left of v above its low n trits. */
  function Overflow(n: nat, v: int): int {
    if n == 0 then v else Overflow(n - 1, (v - LowTrit(v)) / 3)
  }

  lemma {:induction false} EncodeValue(n: nat, v: int)
    ensures v == Value(Encode(n, v)) + Pow3(n) * Overflow(n, v)
  {
    if n == 0 {
    } else {
      var rest := (v - LowTrit(v)) / 3;
      EncodeValue(n - 1, rest);
      assert Encode(n, v)[1..] == Encode(n - 1, rest);
      Triple(Pow3(n - 1), Overflow(n - 1, rest));
    }
  }

  /** The low n trits of v denote the only number in the balanced range congruent to v modulo 3^n. */
  lemma EncodeUnique(n: nat, v: int, r: int, q: int)
    requires -HalfRange(n) <= r <= HalfRange(n)
    requires v == r + Pow3(n) * q
    ensures r == Value(Encode(n, v)) && q == Overflow(n, v)
  {
    EncodeValue(n, v);
    ValueBound(Encode(n, v));
    SameResidue(r, Value(Encode(n, v)), Pow3(n), q, Overflow(n, v));
  }

  /** u and v differ by a multiple of 3^n. */
  ghost predicate Congruent(n: nat, u: int, v: int) {
    exists q :: u == v + Pow3(n) * q
  }

  /** r is the representative of v modulo 3^n in the balanced range. */
  ghost predicate Residue(n: nat, v: int, r: int) {
    -HalfRange(n) <= r <= HalfRange(n) && Congruent(n, v, r)
  }

  lemma EncodeIsResidue(n: nat, v: int, r: int)
    ensures r == Value(Encode(n, v)) <==> Residue(n, v, r)
  {
    EncodeValue(n, v);
    ValueBound(Encode(n, v));
    if Residue(n, v, r) {
      var q :| v == r + Pow3(n) * q;
      EncodeUnique(n, v, r, q);
    }
  }

  /** A word that normalises to the low trits of v denotes the residue of v, and nothing else does. */
  lemma NormDecodes(n: nat, w: seq<int>, v: int, r: int)
    requires Norm(w) == Encode(n, v)
    ensures r == Num(w) <==> Residue(n, v, r)
  {
    EncodeIsResidue(n, v, r);
  }

  /** Encode and Value are inverse: normalised words of width n and the integers of magnitude at
      most (3^n - 1)/2 are in bijection. */
  lemma ValueBijection(n: nat, w: seq<int>, v: int)
    requires |w| == n && IsTrits(w)
    ensures Encode(n, Value(w)) == w
    ensures Value(Encode(n, v)) == v <==> -HalfRange(n) <= v <= HalfRange(n)
  {
    ValueBound(w);
    EncodeUnique(n, Value(w), Value(w), 0);
    ValueUnique(Encode(n, Value(w)), w);
    if -HalfRange(n) <= v <= HalfRange(n) {
      EncodeUnique(n, v, v, 0);
    } else {
      ValueBound(Encode(n, v));
    }
  }

  /** Two stored words denote the same number exactly when they normalise to the same trits. */
  lemma SameNumber(x: seq<int>, y: seq<int>)
    requires |x| == |y|
    ensures Num(x) == Num(y) <==> Norm(x) == Norm(y)
  {
    if Num(x) == Num(y) {
      ValueUnique(Norm(x), Norm(y));
    }
  }
}
