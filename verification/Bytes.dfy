/** Bytes. */
module Bytes {

  type Byte = x: int | 0 <= x < 0x100

  /** The byte that holds the low bits of a number. */
  function Low(x: int): Byte {
    x % 0x100
  }

  /** What a quotient and a remainder are. */
  lemma DivIs(n: int, d: nat, q: int, r: int)
    requires d > 0 && n == q * d + r && 0 <= r < d
    ensures n / d == q && n % d == r
  {
    Same(n / d - q, d, r - n % d);
  }

  /** Division when d more are divided. */
  lemma DropOne(m: nat, d: nat)
    requires d > 0
    ensures (m + d) / d == m / d + 1 && (m + d) % d == m % d
    ensures m < d ==> m / d == 0 && m % d == m
    ensures m == d ==> m / d == 1 && m % d == 0
  {
    var q, r := m / d, m % d;
    assert m + d == (q + 1) * d + r;
    Same((m + d) / d - (q + 1), d, r - (m + d) % d);
    Same(m / d, d, m - r);
    Same(m / d - 1, d, m - d - r);
  }

  /** A multiple of d that is less than d away from nothing is nothing. */
  lemma Same(k: int, d: int, r: int)
    requires d > 0 && k * d == r
    ensures -d < r < d ==> k == 0 && r == 0
  {
    assert k >= 1 ==> (k - 1) * d >= 0;
    assert k <= -1 ==> (-1 - k) * d >= 0;
  }

  /** Three bytes are four times six bits in one way only. */
  lemma Sextets(d0: int, d1: int, d2: int, v0: nat, v1: nat, v2: nat, v3: nat)
    requires 0 <= d0 < 0x100 && 0 <= d1 < 0x100 && 0 <= d2 < 0x100 && v0 < 64 && v1 < 64 && v2 < 64 && v3 < 64
    requires v0 * 0x4_0000 + v1 * 0x1000 + v2 * 0x40 + v3 == d0 * 0x1_0000 + d1 * 0x100 + d2
    ensures v0 == d0 / 4 && v1 == d0 % 4 * 16 + d1 / 16 && v2 == d1 % 16 * 4 + d2 / 64 && v3 == d2 % 64
  {
    assert d0 == d0 / 4 * 4 + d0 % 4 && d1 == d1 / 16 * 16 + d1 % 16 && d2 == d2 / 64 * 64 + d2 % 64;
    SameSextets(v0, v1, v2, v3, d0 / 4, d0 % 4 * 16 + d1 / 16, d1 % 16 * 4 + d2 / 64, d2 % 64);
  }

  lemma SameSextets(v0: nat, v1: nat, v2: nat, v3: nat, u0: nat, u1: nat, u2: nat, u3: nat)
    requires v0 < 64 && v1 < 64 && v2 < 64 && v3 < 64 && u0 < 64 && u1 < 64 && u2 < 64 && u3 < 64
    requires v0 * 0x4_0000 + v1 * 0x1000 + v2 * 0x40 + v3 == u0 * 0x4_0000 + u1 * 0x1000 + u2 * 0x40 + u3
    ensures v0 == u0 && v1 == u1 && v2 == u2 && v3 == u3
  {
  }
}
