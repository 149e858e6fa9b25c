/** Remainders and quotients by a divisor that is not a constant, and powers of two. */
module Arithmetic {

  lemma UniqueMod(a: int, q: int, r: nat, size: nat)
    requires a == q * size + r && r < size
    ensures a % size == r
  {
    var q2, r2 := a / size, a % size;
    DifferenceOfMultiples(q, q2, size, r, r2);
  }

  lemma DifferenceOfMultiples(q: int, q2: int, size: nat, r: nat, r2: nat)
    requires q * size + r == q2 * size + r2 && r < size && r2 < size
    ensures r == r2
  {
    if q > q2 {
      assert (q - q2) * size == q * size - q2 * size;
      AtLeastOnce(q - q2, size);
    } else if q < q2 {
      assert (q2 - q) * size == q2 * size - q * size;
      AtLeastOnce(q2 - q, size);
    }
  }

  lemma AtLeastOnce(d: nat, size: nat)
    requires d > 0
    ensures d * size >= size
  {
  }

  lemma DividesMeans(n: nat, d: nat)
    requires d > 0 && n % d == 0
    ensures n == n / d * d
  {
  }

  lemma Associate(a: int, b: int, c: int)
    ensures a * (b * c) == (a * b) * c
  {
  }

  lemma QuotientForm(a: nat, d: nat)
    requires d > 0
    ensures a == a / d * d + a % d
  {
  }

  lemma SumOfMultiples(a: int, b: int, d: int)
    ensures a * d + b * d == (a + b) * d
  {
  }

  // ---- powers of two ----

  predicate PowerOfTwo(n: nat) {
    n == 1 || (n > 1 && n % 2 == 0 && PowerOfTwo(n / 2))
  }

  function Pow2(k: nat): nat {
    if k == 0 then 1 else 2 * Pow2(k - 1)
  }

  /** Of two powers of two the smaller divides the larger. */
  lemma {:induction false} PowersDivide(size: nat, k: nat, p: nat)
    requires PowerOfTwo(size) && p == Pow2(k) && p > 0
    ensures size >= p ==> size % p == 0
    ensures size <= p ==> p % size == 0
  {
    if k != 0 && size != 1 {
      var h := Pow2(k - 1);
      PowersDivide(size / 2, k - 1, h);
      if size >= p {
        DoubleDivides(h, size / 2);
      }
      if size <= p {
        DoubleDivides(size / 2, h);
      }
    }
  }

  lemma DoubleDivides(d: nat, n: nat)
    requires d > 0 && n % d == 0
    ensures (2 * n) % (2 * d) == 0
  {
    var q := n / d;
    DividesMeans(n, d);
    Associate(q, d, 2);
    UniqueMod(2 * n, q, 0, 2 * d);
  }

  lemma Pow2Of32()
    ensures Pow2(32) == 0x1_0000_0000
  {
    assert Pow2(8) == 2 * Pow2(7) == 4 * Pow2(6) == 8 * Pow2(5) == 16 * Pow2(4) == 256;
    assert Pow2(16) == 2 * Pow2(15) == 4 * Pow2(14) == 8 * Pow2(13) == 16 * Pow2(12);
    assert Pow2(12) == 2 * Pow2(11) == 4 * Pow2(10) == 8 * Pow2(9) == 16 * Pow2(8);
    assert Pow2(24) == 2 * Pow2(23) == 4 * Pow2(22) == 8 * Pow2(21) == 16 * Pow2(20);
    assert Pow2(20) == 2 * Pow2(19) == 4 * Pow2(18) == 8 * Pow2(17) == 16 * Pow2(16);
    assert Pow2(32) == 2 * Pow2(31) == 4 * Pow2(30) == 8 * Pow2(29) == 16 * Pow2(28);
    assert Pow2(28) == 2 * Pow2(27) == 4 * Pow2(26) == 8 * Pow2(25) == 16 * Pow2(24);
  }

  /** Halving a power of two `k` times leaves one. */
  lemma {:induction false} PowerQuotient(size: nat, k: nat, p: nat)
    requires PowerOfTwo(size) && p == Pow2(k) && size >= p > 0
    ensures PowerOfTwo(size / p) && size / p > 0
  {
    if k != 0 {
      var h := Pow2(k - 1);
      PowerQuotient(size / 2, k - 1, h);
      QuotientOfQuotient(size, h);
    }
  }

  lemma QuotientOfQuotient(size: nat, h: nat)
    requires h > 0 && size % 2 == 0
    ensures size / (2 * h) == size / 2 / h
  {
    var s := size / 2;
    var q, r := s / h, s % h;
    QuotientForm(s, h);
    assert size == q * (2 * h) + 2 * r by {
      Associate(q, h, 2);
      Associate(q, 2, h);
    }
    UniqueQuotient(size, q, 2 * r, 2 * h);
  }

  lemma UniqueQuotient(a: nat, q: nat, r: nat, d: nat)
    requires d > 0 && a == q * d + r && r < d
    ensures a / d == q
  {
    UniqueMod(a, q, r, d);
    QuotientForm(a, d);
    SameMultiple(a / d, q, d);
  }

  lemma SameMultiple(a: int, b: int, d: nat)
    requires d > 0 && a * d == b * d
    ensures a == b
  {
    if a > b {
      assert (a - b) * d == a * d - b * d;
      AtLeastOnce(a - b, d);
    } else if b > a {
      assert (b - a) * d == b * d - a * d;
      AtLeastOnce(b - a, d);
    }
  }
}
