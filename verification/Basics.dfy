/** Vocabulary shared by the other modules. */
module Basics {

  datatype Option<+T> = None | Some(value: T)

  datatype Result<+T, +E> = Ok(value: T) | Err(error: E)

  /** An octet, kept as an integer so that index arithmetic stays arithmetic. */
  type byte = x: int | 0 <= x < 256
}

/** Facts about products and quotients that the solver needs spelled out. */
module Arithmetic {

  lemma LessThanOneMultiple(d: int, m: int)
    requires 0 < d && d * m < d
    ensures m <= 0
  {
  }

  lemma DivIs(x: int, d: int, q: int)
    requires 0 < d && d * q <= x < d * q + d
    ensures x / d == q
  {
    var k := x / d;
    assert d * (k - q) == d * k - d * q && d * (q - k) == d * q - d * k;
    LessThanOneMultiple(d, k - q);
    LessThanOneMultiple(d, q - k);
  }

  lemma ModIs(x: int, d: int, q: int, r: int)
    requires x == d * q + r && 0 <= r < d
    ensures x / d == q && x % d == r
  {
    DivIs(x, d, q);
  }

  lemma SuccessorRemainder(k: int, m: int)
    requires 1 < m
    ensures (k % m + 1) % m == (k + 1) % m
  {
    var q, r := k / m, k % m;
    assert k == m * q + r;
    if r == m - 1 {
      assert k + 1 == m * (q + 1);
      ModIs(k + 1, m, q + 1, 0);
      ModIs(r + 1, m, 1, 0);
    } else {
      ModIs(k + 1, m, q, r + 1);
      ModIs(r + 1, m, 0, r + 1);
    }
  }

  lemma MulMono(a: int, b: int, s: int)
    requires a <= b && 0 <= s
    ensures a * s <= b * s
  {
  }

  lemma QuotientBelow(x: int, s: int, n: int)
    requires 0 < s && 0 <= x < s * n
    ensures x / s < n
  {
    var k := x / s;
    assert s * k <= x;
    assert s * (k - n + 1) == s * k - s * n + s;
    LessThanOneMultiple(s, k - n + 1);
  }

  lemma SameRemainder(a: int, b: int, m: int)
    requires 0 < m
    ensures (b - a) % m == 0 <==> a % m == b % m
  {
    var p, q := a / m, b / m;
    assert a == m * p + a % m && b == m * q + b % m;
    if a % m == b % m {
      assert b - a == m * (q - p);
      DivIs(b - a, m, q - p);
    }
    if (b - a) % m == 0 {
      var k := (b - a) / m;
      assert b == m * (p + k) + a % m;
      DivIs(b, m, p + k);
    }
  }
}
