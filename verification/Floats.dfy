/** Whole numbers as single-precision floating point holds them: with 24 significant bits. */
module Floats {
  import opened Bits

  const PRECISION := 0x100_0000

  /** The distance between neighbouring numbers of single precision around c. */
  function Spacing(c: nat): (g: nat)
    ensures g > 0
  {
    if c < PRECISION then 1 else 2 * Spacing(c / 2)
  }

  /** c rounded to a multiple of g: to the nearest one, and to the even one of two. */
  function RoundTo(c: nat, g: nat): nat
    requires g > 0
  {
    var low := c - c % g;
    if 2 * (c - low) < g || (2 * (c - low) == g && low % (2 * g) == 0) then low else low + g
  }

  /** The conversion to single precision. */
  function Nearest(c: nat): nat {
    RoundTo(c, Spacing(c))
  }

  function Distance(a: nat, b: nat): nat {
    if a <= b then b - a else a - b
  }

  /** Rounding gives a multiple of g, and of two that are as near to c the even one. */
  lemma RoundIs(c: nat, g: nat)
    requires g > 0
    ensures RoundTo(c, g) % g == 0 && 2 * Distance(RoundTo(c, g), c) <= g
    ensures 2 * Distance(RoundTo(c, g), c) == g ==> RoundTo(c, g) % (2 * g) == 0
  {
    Neighbours(c, g, c / g);
  }

  /** No multiple of g is nearer to c. */
  lemma NoneNearer(c: nat, g: nat, m: nat)
    requires g > 0 && m % g == 0
    ensures Distance(RoundTo(c, g), c) <= Distance(m, c)
  {
    Gap(c, g, m, c / g, m / g);
  }

  /** The multiples of g around c. */
  lemma Neighbours(c: nat, g: nat, q: nat)
    requires g > 0 && q == c / g
    ensures var low := c - c % g;
            low >= 0 && low % g == 0 && (low + g) % g == 0 && (low % (2 * g) == 0 || (low + g) % (2 * g) == 0)
  {
    var low := c - c % g;
    assert low == q * g;
    ModIs(low, g, q, 0);
    ModIs(low + g, g, q + 1, 0);
    if q % 2 == 0 {
      Halved(low, g, q);
    } else {
      Halved(low + g, g, q + 1);
    }
  }

  lemma Halved(m: nat, g: nat, q: nat)
    requires g > 0 && m == q * g && q % 2 == 0
    ensures m % (2 * g) == 0
  {
    assert q == 2 * (q / 2);
    assert m == q / 2 * (2 * g);
    ModIs(m, 2 * g, q / 2, 0);
  }

  /** A multiple of g is not between the two around c. */
  lemma Gap(c: nat, g: nat, m: nat, q: nat, k: nat)
    requires g > 0 && m % g == 0 && q == c / g && k == m / g
    ensures m <= c - c % g || c - c % g + g <= m
  {
    assert c - c % g == q * g && m == k * g;
    assert (k - q) * g == m - (c - c % g);
    if k > q {
      AtLeast(k - q, g);
    } else {
      Product(q - k, g);
      assert (q - k) * g == -((k - q) * g);
    }
  }

  /** The conversion loses nothing exactly for the multiples of the spacing, among them every number up to 2^24. */
  lemma NearestExact(c: nat)
    ensures Nearest(c) == c <==> c % Spacing(c) == 0
    ensures c <= PRECISION ==> Nearest(c) == c
  {
    RoundIs(c, Spacing(c));
    if c % Spacing(c) == 0 {
      NoneNearer(c, Spacing(c), c);
    }
    if c == PRECISION {
      SpacingIs(c, 2);
    }
  }

  /** The spacing k of numbers that have as many bits more than 24 as k - 1 has. */
  lemma {:induction false} SpacingIs(c: nat, k: nat)
    requires k in {1, 2, 4, 8, 16, 32, 64} && c < k * PRECISION && (k == 1 || k * (PRECISION / 2) <= c)
    ensures Spacing(c) == k
  {
    if k > 1 {
      SpacingIs(c / 2, k / 2);
    }
  }

  lemma {:induction false} SpacingAtMost(c: nat, k: nat)
    requires k in {1, 2, 4, 8, 16} && c < k * PRECISION
    ensures Spacing(c) <= k && (Spacing(c) == 1 || Spacing(c) * (PRECISION / 2) <= c)
  {
    if c >= PRECISION {
      SpacingAtMost(c / 2, k / 2);
    }
  }
}
