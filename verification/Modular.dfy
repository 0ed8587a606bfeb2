// Remainders modulo a width, and the signed values of words.
module Modular {

  lemma ModQuotient(a: int, b: int, m: nat, q: int)
    requires m > 0 && a == b + q * m
    ensures a % m == b % m
  {
    var r, d := b % m, b / m;
    assert b == d * m + r;
    assert a == (d + q) * m + r;
    UniqueRemainder(a, d + q, r, m);
  }

  lemma UniqueRemainder(a: int, d: int, r: int, m: nat)
    requires m > 0 && 0 <= r < m && a == d * m + r
    ensures a % m == r
  {
    var d', r' := a / m, a % m;
    assert a == d' * m + r';
    assert (d - d') * m == r' - r;
    SmallMultiple(d - d', m, r' - r);
  }

  lemma SmallMultiple(x: int, m: int, e: int)
    requires x * m == e && -m < e < m
    ensures x == 0
  {
    assert x >= 1 ==> x * m >= m;
    assert x <= -1 ==> x * m <= -m;
  }

  lemma ModSum(a: int, b: int, m: nat)
    requires m > 0
    ensures (a % m + b) % m == (a + b) % m
  {
    ModQuotient(a + b, a % m + b, m, a / m);
  }

  lemma ModProduct(c: int, x: int, m: nat)
    requires m > 0
    ensures (c * (x % m)) % m == (c * x) % m
  {
    var q := x / m;
    assert x == q * m + x % m;
    assert c * x == c * (x % m) + (c * q) * m;
    ModQuotient(c * x, c * (x % m), m, c * q);
  }

  const WORD: nat := 0x1_0000_0000

  // The signed value of v in words with w values.
  function Signed(v: int, w: nat): int
    requires w > 0
  {
    if v % w < w / 2 then v % w else v % w - w
  }

  predicate FitsSigned(v: int, w: nat) {
    -(w / 2) <= v < w / 2
  }

  lemma SignedExact(v: int, w: nat)
    requires w > 0 && w % 2 == 0
    ensures Signed(v, w) == v <==> FitsSigned(v, w)
    ensures FitsSigned(Signed(v, w), w)
  {
    if 0 <= v < w / 2 {
      UniqueRemainder(v, 0, v, w);
    } else if -(w / 2) <= v < 0 {
      UniqueRemainder(v, -1, v + w, w);
    }
  }

  // Truncating an operand first does not change the low bits of the sum.
  lemma SignedSum(a: int, b: int, w: nat)
    requires w > 0
    ensures Signed(Signed(a, w) + b, w) == Signed(a + b, w)
  {
    var q := a / w;
    assert a == q * w + a % w;
    if a % w < w / 2 {
      ModQuotient(a + b, Signed(a, w) + b, w, q);
    } else {
      ModQuotient(a + b, Signed(a, w) + b, w, q + 1);
    }
  }

  lemma SignedRemainder(a: int, w: nat)
    requires w > 0
    ensures Signed(a, w) % w == a % w
  {
    var q := a / w;
    assert a == q * w + a % w;
    ModQuotient(Signed(a, w), a, w, if a % w < w / 2 then -q else -q - 1);
  }

  // Two words are equal if and only if the values they stand for differ by a multiple of w.
  lemma SignedEqual(a: int, b: int, w: nat)
    requires w > 0
    ensures Signed(a, w) == Signed(b, w) <==> (a - b) % w == 0
    ensures Signed(a, w) % w == a % w
  {
    SignedRemainder(a, w);
    SignedRemainder(b, w);
    if (a - b) % w == 0 {
      ModQuotient(a, b, w, (a - b) / w);
    } else if a % w == b % w {
      var qa, qb := a / w, b / w;
      assert a == qa * w + a % w && b == qb * w + b % w;
      MultipleZero(a - b, qa - qb, w);
    }
  }

  lemma MultipleZero(x: int, q: int, w: nat)
    requires w > 0 && x == q * w
    ensures x % w == 0
  {
    UniqueRemainder(x, q, 0, w);
  }
}
