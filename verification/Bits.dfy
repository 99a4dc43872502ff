/** Powers of two and masks on 32-bit unsigned words. */
module Bits {
  /** size_t has 32 bits: its values are below WORD, and the largest capacity is MAX_POW_TWO. */
  const WORD := 0x1_0000_0000
  const MAX_POW_TWO := 0x8000_0000

  function Pow2(n: nat): nat {
    if n == 0 then 1 else 2 * Pow2(n - 1)
  }

  lemma Pow2Monotone(a: nat, b: nat)
    requires a <= b
    ensures Pow2(a) <= Pow2(b)
  {
  }

  lemma Pow2Positive(k: nat)
    ensures Pow2(k) > 0
  {
  }

  // ---- The operator & ----

  function And(x: nat, y: nat): nat {
    if x == 0 || y == 0 then 0
    else (if x % 2 == 1 && y % 2 == 1 then 1 else 0) + 2 * And(x / 2, y / 2)
  }

  /** Whether bit i of x is set. */
  predicate Bit(x: nat, i: nat) {
    if i == 0 then x % 2 == 1 else Bit(x / 2, i - 1)
  }

  lemma {:induction false} AndBits(x: nat, y: nat, i: nat)
    ensures Bit(And(x, y), i) <==> Bit(x, i) && Bit(y, i)
  {
    if x == 0 || y == 0 {
      ZeroBits(i);
    } else if i > 0 {
      AndBits(x / 2, y / 2, i - 1);
      assert And(x, y) / 2 == And(x / 2, y / 2);
    }
  }

  lemma {:induction false} ZeroBits(i: nat)
    ensures !Bit(0, i)
  {
    if i > 0 {
      ZeroBits(i - 1);
    }
  }

  /** Masking with a power of two less one is taking the remainder. */
  lemma {:induction false} AndMask(x: nat, k: nat)
    ensures Pow2(k) > 0 && And(x, Pow2(k) - 1) == x % Pow2(k)
  {
    Pow2Positive(k);
    if k > 0 {
      Pow2Positive(k - 1);
      var p := Pow2(k - 1);
      assert (Pow2(k) - 1) / 2 == p - 1;
      ModDouble(x, p);
      AndMask(x / 2, k - 1);
    }
  }

  /** All bits set, masked: what 0 - 1 wraps around to. */
  lemma {:induction false} MaskOnes(n: nat, k: nat)
    requires k <= n
    ensures Pow2(k) > 0 && Pow2(n) > 0 && (Pow2(n) - 1) % Pow2(k) == Pow2(k) - 1
  {
    if k == 0 {
      Pow2Positive(n);
    } else {
      MaskOnes(n - 1, k - 1);
      OnesDouble(Pow2(n - 1), Pow2(k - 1));
    }
  }

  lemma OnesDouble(a: nat, b: nat)
    requires a > 0 && b > 0 && (a - 1) % b == b - 1
    ensures (2 * a - 1) % (2 * b) == 2 * b - 1
  {
    ModDouble(2 * a - 1, b);
    assert (2 * a - 1) / 2 == a - 1;
  }

  lemma CapacityBound(k: nat)
    requires k < 32
    ensures 0 < Pow2(k) <= MAX_POW_TWO
    ensures Pow2(k) == MAX_POW_TWO <==> k == 31
  {
    HighPowers();
    Pow2Positive(k);
    Pow2Monotone(k, 31);
    if k < 31 {
      Pow2Monotone(k, 30);
    }
  }

  /** The next capacity after 2^k, unless that is the largest. */
  lemma Doubling(k: nat)
    requires k < 32 && Pow2(k) != MAX_POW_TWO
    ensures Pow2(k) * 2 % WORD == Pow2(k + 1) == 2 * Pow2(k) && k + 1 < 32
  {
    CapacityBound(k);
  }

  /** The powers of two whose four-fold is not 0 in 32 bits. */
  lemma Addressable(k: nat)
    requires Pow2(k) < WORD
    ensures 4 * Pow2(k) % WORD > 0 <==> Pow2(k) < 0x4000_0000
  {
    SmallOrNot(k);
    if k < 30 {
      FourFold(Pow2(k));
    }
  }

  lemma SmallOrNot(k: nat)
    requires Pow2(k) < WORD
    ensures if k < 30 then 0 < Pow2(k) <= 0x2000_0000 else Pow2(k) == 0x4000_0000 || Pow2(k) == 0x8000_0000
  {
    HighPowers();
    Pow2Positive(k);
    if k < 30 {
      Pow2Monotone(k, 29);
    } else if k > 31 {
      Pow2Monotone(32, k);
    }
  }

  lemma FourFold(p: nat)
    requires 0 < p <= 0x2000_0000
    ensures 4 * p % WORD == 4 * p
  {
  }

  /** The index after x in a buffer of 2^k slots. */
  lemma MaskNext(x: nat, k: nat)
    requires k < 32 && x < Pow2(k)
    ensures And(x + 1, Pow2(k) - 1) == if x + 1 == Pow2(k) then 0 else x + 1
  {
    AndMask(x + 1, k);
    if x + 1 == Pow2(k) {
      ModIs(x + 1, Pow2(k), 1, 0);
    } else {
      ModIs(x + 1, Pow2(k), 0, x + 1);
    }
  }

  /** Subtracting 1 in 32 bits. */
  lemma Decrement(x: nat)
    requires x <= MAX_POW_TWO
    ensures (x + WORD - 1) % WORD == if x == 0 then WORD - 1 else x - 1
  {
  }

  lemma OnesMasked(k: nat, n: nat)
    requires k < 32 && n == 32
    ensures Pow2(k) > 0 && (WORD - 1) % Pow2(k) == Pow2(k) - 1
  {
    HighPowers();
    MaskOnes(n, k);
  }

  /** The index before x: 0 - 1 wraps around in 32 bits and is masked to the last slot. */
  lemma MaskPrevious(x: nat, k: nat)
    requires k < 32 && x < Pow2(k) <= MAX_POW_TWO
    ensures And((x + WORD - 1) % WORD, Pow2(k) - 1) == if x == 0 then Pow2(k) - 1 else x - 1
  {
    Decrement(x);
    AndMask((x + WORD - 1) % WORD, k);
    if x == 0 {
      OnesMasked(k, 32);
    } else {
      ModIs(x - 1, Pow2(k), 0, x - 1);
    }
  }

  lemma ModDouble(x: nat, p: nat)
    requires p > 0
    ensures x % (2 * p) == x % 2 + 2 * (x / 2 % p)
  {
    var h, b := x / 2, x % 2;
    var d, r := h / p, h % p;
    assert x == 2 * (d * p + r) + b;
    ModIs(x, 2 * p, d, 2 * r + b);
  }

  lemma ModIs(x: nat, n: nat, d: nat, r: nat)
    requires r < n && x == d * n + r
    ensures x % n == r
  {
    var e, s := x / n, x % n;
    Multiple(d - e, n, s - r);
  }

  /** The only multiple of n between -n and n is 0. */
  lemma Multiple(c: int, n: int, y: int)
    requires c * n == y && -n < y < n
    ensures y == 0
  {
    if c > 0 {
      AtLeast(c, n);
    } else if c < 0 {
      assert -c * n == -(c * n);
      AtLeast(-c, n);
    }
  }

  lemma AtLeast(c: int, n: int)
    requires c >= 1 && n >= 0
    ensures c * n >= n
  {
    Product(c - 1, n);
    assert c * n == (c - 1) * n + n;
  }

  lemma Product(a: int, b: int)
    requires a >= 0 && b >= 0
    ensures a * b >= 0
  {
  }

  // ---- Rounding up to a power of two ----

  function Or(x: nat, y: nat): nat {
    if x == 0 then y
    else if y == 0 then x
    else (if x % 2 == 1 || y % 2 == 1 then 1 else 0) + 2 * Or(x / 2, y / 2)
  }

  lemma {:induction false} OrBits(x: nat, y: nat, i: nat)
    ensures Bit(Or(x, y), i) <==> Bit(x, i) || Bit(y, i)
  {
    if x == 0 || y == 0 {
      ZeroBits(i);
    } else {
      OrHalves(x, y);
      if i > 0 {
        OrBits(x / 2, y / 2, i - 1);
      }
    }
  }

  lemma OrHalves(x: nat, y: nat)
    requires x > 0 && y > 0
    ensures Or(x, y) / 2 == Or(x / 2, y / 2) && (Or(x, y) % 2 == 1 <==> x % 2 == 1 || y % 2 == 1)
  {
  }

  /** The operator >> : s times halved. */
  function Shr(x: nat, s: nat): nat {
    if s == 0 then x else Shr(x / 2, s - 1)
  }

  lemma {:induction false} ShrBits(x: nat, s: nat, i: nat)
    ensures Bit(Shr(x, s), i) <==> Bit(x, i + s)
  {
    if s > 0 {
      ShrBits(x / 2, s - 1, i);
    }
  }

  /** Bit k of x is its highest, and the s bits from there downwards are set. */
  predicate RunAt(x: nat, k: nat, s: nat, i: nat) {
    (i > k ==> !Bit(x, i)) && (i <= k < i + s ==> Bit(x, i))
  }

  ghost predicate Run(x: nat, k: nat, s: nat) {
    forall i: nat {:trigger RunAt(x, k, s, i)} :: RunAt(x, k, s, i)
  }

  lemma {:induction false} HighestBit(x: nat) returns (k: nat)
    requires x > 0
    ensures Run(x, k, 1) && Pow2(k) <= x < Pow2(k + 1)
  {
    if x == 1 {
      k := 0;
      forall i: nat
        ensures RunAt(x, 0, 1, i)
      {
        if i > 0 {
          ZeroBits(i - 1);
        }
      }
    } else {
      k := HighestBit(x / 2);
      k := k + 1;
      forall i: nat
        ensures RunAt(x, k, 1, i)
      {
        if i > 0 {
          assert RunAt(x / 2, k - 1, 1, i - 1);
        }
      }
    }
  }

  /** One step of the smearing doubles the run of set bits. */
  lemma SmearStep(x: nat, k: nat, s: nat)
    requires Run(x, k, s)
    ensures Run(Or(x, Shr(x, s)), k, 2 * s)
  {
    var y, t := Or(x, Shr(x, s)), 2 * s;
    forall i: nat
      ensures RunAt(y, k, t, i)
    {
      OrBits(x, Shr(x, s), i);
      ShrBits(x, s, i);
      assert RunAt(x, k, s, i) && RunAt(x, k, s, i + s);
    }
  }

  lemma {:induction false} NoBits(x: nat)
    requires forall i: nat :: !Bit(x, i)
    ensures x == 0
  {
    if x > 0 {
      assert !Bit(x, 0);
      forall i: nat
        ensures !Bit(x / 2, i)
      {
        assert !Bit(x, i + 1);
      }
      NoBits(x / 2);
    }
  }

  lemma {:induction false} AllSet(x: nat, k: nat, s: nat)
    requires Run(x, k, s) && s > k
    ensures x == Pow2(k + 1) - 1
  {
    assert RunAt(x, k, s, 0);
    var h := x / 2;
    if k == 0 {
      forall i: nat
        ensures !Bit(h, i)
      {
        assert RunAt(x, k, s, i + 1);
      }
      NoBits(h);
    } else {
      var k' := k - 1;
      forall i: nat
        ensures RunAt(h, k', s, i)
      {
        assert RunAt(x, k, s, i + 1);
      }
      AllSet(h, k', s);
    }
  }

  ghost predicate PowerOfTwo(n: nat) {
    exists k :: n == Pow2(k)
  }

  /** n is the capacity for a requested size: 2 for none, the largest one for too much,
      and otherwise the power of two that is at least size while its half is not. */
  ghost predicate RoundsUp(size: nat, n: nat) {
    if size == 0 then n == 2
    else if size > MAX_POW_TWO then n == MAX_POW_TWO
    else n / 2 < size <= n
  }

  /** upper_pow_two of deque.c, which is round_pow_two of hashtable.c. */
  method UpperPowTwo(size: nat) returns (n: nat, ghost exponent: nat)
    requires size < WORD
    ensures exponent < 32 && n == Pow2(exponent) && RoundsUp(size, n)
    ensures if size == 0 then n == 2 else if size > 0x8000_0000 then n == 0x8000_0000 else n / 2 < size <= n
  {
    if size >= MAX_POW_TWO {
      HighPowers();
      return MAX_POW_TWO, 31;
    }
    if size == 0 {
      return 2, 1;
    }
    n := size;
    n := n - 1;
    n, exponent := SmearBits(n);
    n := (n + 1) % WORD;
  }

  /** All bits of x from its highest one downwards set. */
  method SmearBits(x: nat) returns (n: nat, ghost exponent: nat)
    requires x + 1 < MAX_POW_TWO
    ensures exponent < 32 && n + 1 == Pow2(exponent) <= MAX_POW_TWO && RoundsUp(x + 1, n + 1)
  {
    exponent := SmearedUp(x + 1);
    n := x;
    n := Or(n, Shr(n, 1));
    n := Or(n, Shr(n, 2));
    n := Or(n, Shr(n, 4));
    n := Or(n, Shr(n, 8));
    n := Or(n, Shr(n, 16));
  }

  /** x with every bit below its highest one set. */
  function Smear(x: nat): nat {
    var n1 := Or(x, Shr(x, 1));
    var n2 := Or(n1, Shr(n1, 2));
    var n4 := Or(n2, Shr(n2, 4));
    var n8 := Or(n4, Shr(n4, 8));
    Or(n8, Shr(n8, 16))
  }

  lemma Smeared(n: nat, k: nat)
    requires Run(n, k, 1) && Pow2(k) <= n < MAX_POW_TWO
    ensures k < 31 && Smear(n) == Pow2(k + 1) - 1
  {
    HighPowers();
    if k >= 31 {
      Pow2Monotone(31, k);
    }
    var n1 := Or(n, Shr(n, 1));
    var n2 := Or(n1, Shr(n1, 2));
    var n4 := Or(n2, Shr(n2, 4));
    var n8 := Or(n4, Shr(n4, 8));
    SmearStep(n, k, 1);
    SmearStep(n1, k, 2);
    SmearStep(n2, k, 4);
    SmearStep(n4, k, 8);
    SmearStep(n8, k, 16);
    AllSet(Smear(n), k, 32);
  }

  lemma SmearedUp(size: nat) returns (k: nat)
    requires 0 < size < MAX_POW_TWO
    ensures k < 32 && Smear(size - 1) + 1 == Pow2(k) <= MAX_POW_TWO && RoundsUp(size, Pow2(k))
  {
    if size == 1 {
      k := 0;
    } else {
      k := HighestBit(size - 1);
      Smeared(size - 1, k);
      k := k + 1;
      CapacityBound(k);
    }
  }

  /** The rounded capacity is the least power of two that is not below the request. */
  lemma LeastPower(size: nat, k: nat, j: nat)
    requires 0 < size <= MAX_POW_TWO && RoundsUp(size, Pow2(k)) && size <= Pow2(j)
    ensures size <= Pow2(k) <= Pow2(j)
  {
    if j < k {
      assert Pow2(k) / 2 == Pow2(k - 1) < size;
      Pow2Monotone(j, k - 1);
    } else {
      Pow2Monotone(k, j);
    }
  }

  /** What is rounded at the ends of the range: no size at all, and too large a one. */
  lemma RoundsUpEnds(size: nat, n: nat)
    requires RoundsUp(size, n)
    ensures size == 0 ==> n == 2
    ensures size > 0x8000_0000 ==> n == 0x8000_0000
  {
  }

  /** No power of two lies between the largest capacity and the end of the words. */
  lemma NoneBetween(j: nat)
    ensures 0 < Pow2(j) && (Pow2(j) <= MAX_POW_TWO || Pow2(j) >= WORD)
  {
    Pow2Positive(j);
    HighPowers();
    Pow2Monotone(if j < 32 then j else 31, if j < 32 then 31 else j);
    if j >= 32 {
      Pow2Monotone(31, j - 1);
    }
  }

  /** A request that is a power of two is granted as it is. */
  lemma PowerGranted(size: nat, k: nat)
    requires 0 < size <= MAX_POW_TWO && RoundsUp(size, Pow2(k))
    ensures Pow2(k) == size <==> PowerOfTwo(size)
  {
    if PowerOfTwo(size) {
      var j :| size == Pow2(j);
      LeastPower(size, k, j);
    }
  }

  lemma HighPowers()
    ensures Pow2(16) == 0x10000 && Pow2(17) == 0x20000 && Pow2(18) == 0x40000 && Pow2(19) == 0x80000
    ensures Pow2(20) == 0x100000 && Pow2(21) == 0x200000 && Pow2(22) == 0x400000 && Pow2(23) == 0x800000
    ensures Pow2(24) == 0x1000000 && Pow2(25) == 0x2000000 && Pow2(26) == 0x4000000 && Pow2(27) == 0x8000000
    ensures Pow2(28) == 0x10000000 && Pow2(29) == 0x20000000 && Pow2(30) == 0x40000000 && Pow2(31) == 0x80000000
  {
    assert Pow2(4) == 16;
    assert Pow2(5) == 2 * Pow2(4);
    assert Pow2(6) == 2 * Pow2(5);
    assert Pow2(7) == 2 * Pow2(6);
    assert Pow2(8) == 2 * Pow2(7);
    assert Pow2(9) == 2 * Pow2(8);
    assert Pow2(10) == 2 * Pow2(9);
    assert Pow2(11) == 2 * Pow2(10);
    assert Pow2(12) == 2 * Pow2(11);
    assert Pow2(13) == 2 * Pow2(12);
    assert Pow2(14) == 2 * Pow2(13);
    assert Pow2(15) == 2 * Pow2(14);
    assert Pow2(16) == 2 * Pow2(15);
    assert Pow2(17) == 2 * Pow2(16);
    assert Pow2(18) == 2 * Pow2(17);
    assert Pow2(19) == 2 * Pow2(18);
    assert Pow2(20) == 2 * Pow2(19);
    assert Pow2(21) == 2 * Pow2(20);
    assert Pow2(22) == 2 * Pow2(21);
    assert Pow2(23) == 2 * Pow2(22);
    assert Pow2(24) == 2 * Pow2(23);
    assert Pow2(25) == 2 * Pow2(24);
    assert Pow2(26) == 2 * Pow2(25);
    assert Pow2(27) == 2 * Pow2(26);
    assert Pow2(28) == 2 * Pow2(27);
    assert Pow2(29) == 2 * Pow2(28);
    assert Pow2(30) == 2 * Pow2(29);
    assert Pow2(31) == 2 * Pow2(30);
  }
}
