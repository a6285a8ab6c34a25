/** The facts about quotient and remainder that the counting components share.

    Division is Euclidean here as in Dafny. Where JavaScript's remainder of negative operands matters
    it is spelled out beside its use, and where quotients are taken of natural numbers the two agree,
    so that these lemmas serve the page arithmetic and the grouping of digits alike. */
module Division {

  /** A quotient and a remainder in range are the quotient and the remainder. */
  lemma QuotientIsUnique(a: int, n: int, q: int, r: int)
    requires 0 < n && a == n * q + r && 0 <= r < n
    ensures a / n == q && a % n == r
  {
    var d := q - a / n;
    assert a % n - r == n * d;
    assert !(1 <= d) && !(d <= -1);
  }

  lemma SmallModulus(a: nat, n: nat)
    requires a < n
    ensures a % n == a && a / n == 0
  {
    QuotientIsUnique(a, n, 0, a);
  }

  lemma ShiftModulus(a: nat, n: nat)
    requires 0 < n
    ensures (a + n) % n == a % n && (a + n) / n == a / n + 1
  {
    QuotientIsUnique(a + n, n, a / n + 1, a % n);
  }
}
