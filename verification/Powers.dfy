/** Powers of two and three, and the little modular arithmetic the rest of the project needs. */
module Powers {

  function Pow3(n: nat): (r: int)
    ensures r >= 1
  {
    if n == 0 then 1 else 3 * Pow3(n - 1)
  }

  function Pow2(n: nat): (r: int)
    ensures r >= 1
  {
    if n == 0 then 1 else 2 * Pow2(n - 1)
  }

  /** The largest number that n balanced trits can hold. */
  function HalfRange(n: nat): (h: int)
    ensures 2 * h + 1 == Pow3(n)
  {
    if n == 0 then 0 else 3 * HalfRange(n - 1) + 1
  }

  lemma {:induction false} Pow2Adds(a: nat, b: nat)
    ensures Pow2(a + b) == Pow2(a) * Pow2(b)
  {
    if a == 0 {
    } else {
      Pow2Adds(a - 1, b);
    }
  }

  lemma {:induction false} Pow2Monotone(a: nat, b: nat)
    requires a <= b
    ensures Pow2(a) <= Pow2(b)
  {
    if a == b {
    } else {
      Pow2Monotone(a, b - 1);
    }
  }

  lemma {:induction false} Pow3Monotone(a: nat, b: nat)
    requires a <= b
    ensures Pow3(a) <= Pow3(b)
  {
    if a == b {
    } else {
      Pow3Monotone(a, b - 1);
    }
  }

  /** The quotient by m of a number known to lie in the k-th block of length m. */
  lemma DivIs(a: int, m: int, k: int)
    requires m > 0 && m * k <= a < m * (k + 1)
    ensures a / m == k && a % m == a - m * k
  {
    var q, r := a / m, a % m;
    assert a == m * q + r;
    assert q < k ==> m * (q + 1) <= m * k;
    assert q > k ==> m * (k + 1) <= m * q;
  }

  /** Two numbers that agree modulo m and lie within one block of length m are equal. */
  lemma SameResidue(a: int, b: int, m: int, p: int, q: int)
    requires m > 0 && -m < a - b < m
    requires a + m * p == b + m * q
    ensures a == b && p == q
  {
    assert p < q ==> m * (p + 1) <= m * q;
    assert q < p ==> m * (q + 1) <= m * p;
  }

  lemma Factor(m: int, a: int, b: int)
    ensures m * a + m * b == m * (a + b)
    ensures m * a - m * b == m * (a - b)
    ensures m * -a == -(m * a)
  {
  }

  lemma Triple(m: int, a: int)
    ensures 3 * (m * a) == (3 * m) * a
  {
  }

  /** A sum of two numbers of magnitude at most h, brought back into range by dropping c
      multiples of 2h + 1, drops at most one, and drops it on the side the sum left the range. */
  lemma DroppedMultiple(h: int, m: int, sum: int, r: int, c: int)
    requires h >= 0 && m == 2 * h + 1
    requires -h <= r <= h && -2 * h <= sum <= 2 * h
    requires sum == r + m * c
    ensures -1 <= c <= 1
    ensures c == 0 <==> -h <= sum <= h
    ensures c == 1 ==> sum > h
    ensures c == -1 ==> sum < -h
    ensures c == 0 <==> r == sum
  {
    assert c >= 2 ==> m * c >= m * 2;
    assert c <= -2 ==> m * c <= m * -2;
  }

  /** A multiple of m = 2h + 1 of magnitude at most 3h is -m, 0 or m. */
  lemma SmallMultiple(h: int, m: int, d: int)
    requires h >= 0 && m == 2 * h + 1
    requires -3 * h <= m * d <= 3 * h
    ensures -1 <= d <= 1
  {
    assert d >= 2 ==> m * d >= m * 2;
    assert d <= -2 ==> m * d <= m * -2;
  }
}
