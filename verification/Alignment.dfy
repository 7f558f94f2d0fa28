/** Powers of two, and rounding up to a multiple by masking bits. */
module Alignment {
  import opened Types

  const TWO_64: nat := 0x1_0000_0000_0000_0000

  lemma DivModUnique(x: int, q: nat, d: int, r: int)
    requires q > 0 && x == q * d + r && 0 <= r < q
    ensures x / q == d && x % q == r
  {
    var k := x / q - d;
    assert q * k == r - x % q;
    assert k >= 1 ==> q * k >= q;
    assert k <= -1 ==> q * k + q <= 0;
  }

  predicate PowerOfTwo(n: nat) {
    n == 1 || (n > 1 && n % 2 == 0 && PowerOfTwo(n / 2))
  }

  lemma {:induction false} PowerDivides(q: nat, n: nat)
    requires PowerOfTwo(q) && PowerOfTwo(n) && q <= n
    ensures n % q == 0
  {
    if q > 1 {
      PowerDivides(q / 2, n / 2);
      var m := (n / 2) / (q / 2);
      assert n / 2 == (q / 2) * m;
      assert n == q * m + 0;
      DivModUnique(n, q, m, 0);
    } else {
      DivModUnique(n, 1, n, 0);
    }
  }

  /** x & y, bit by bit. */
  function BitAnd(x: nat, y: nat): nat {
    if x == 0 || y == 0 then 0
    else (if x % 2 == 1 && y % 2 == 1 then 1 else 0) + 2 * BitAnd(x / 2, y / 2)
  }

  /** ~x on 64 bits. */
  function BitNot(x: u64): u64 {
    TWO_64 - 1 - x
  }

  /** (value + alignment - 1) & ~(alignment - 1), on size_t. */
  function AlignUp(value: nat, alignment: nat): nat
    requires 0 < alignment < TWO_64
  {
    BitAnd((value + alignment - 1) % TWO_64, BitNot(alignment - 1))
  }

  lemma {:induction false} AndAllOnes(x: nat, n: nat)
    requires PowerOfTwo(n) && x < n
    ensures BitAnd(x, n - 1) == x
  {
    if x > 0 {
      AndAllOnes(x / 2, n / 2);
      assert (n - 1) / 2 == n / 2 - 1;
    }
  }

  /** Masking with n - a, the n-bit complement of a - 1, drops the remainder by a. */
  lemma {:induction false} AndMask(x: nat, a: nat, n: nat)
    requires PowerOfTwo(a) && PowerOfTwo(n) && a <= n && x < n
    ensures BitAnd(x, n - a) == x - x % a
  {
    if a == 1 {
      AndAllOnes(x, n);
    } else {
      AndMask(x / 2, a / 2, n / 2);
      assert (n - a) / 2 == n / 2 - a / 2;
      HalfRemainder(x, a);
    }
  }

  lemma HalfRemainder(x: nat, a: nat)
    requires a > 1 && a % 2 == 0
    ensures x % a == 2 * (x / 2 % (a / 2)) + x % 2
  {
    var h := a / 2;
    var d, m := x / 2 / h, x / 2 % h;
    assert x / 2 == h * d + m;
    assert x == a * d + (2 * m + x % 2);
    DivModUnique(x, a, d, 2 * m + x % 2);
  }

  lemma Doubled(n: nat)
    requires PowerOfTwo(n)
    ensures PowerOfTwo(2 * n)
  {
    assert 2 * n / 2 == n;
  }

  lemma Times16(n: nat)
    requires PowerOfTwo(n)
    ensures PowerOfTwo(16 * n)
  {
    hide PowerOfTwo;
    Doubled(n);
    Doubled(2 * n);
    Doubled(4 * n);
    Doubled(8 * n);
  }

  lemma Times65536(n: nat)
    requires PowerOfTwo(n)
    ensures PowerOfTwo(0x1_0000 * n)
  {
    hide PowerOfTwo;
    Times16(n);
    Times16(16 * n);
    Times16(0x100 * n);
    Times16(0x1000 * n);
  }

  lemma Two64IsPowerOfTwo()
    ensures PowerOfTwo(TWO_64)
  {
    assert PowerOfTwo(1);
    hide PowerOfTwo;
    Times65536(1);
    Times65536(0x1_0000);
    Times65536(0x1_0000_0000);
    Times65536(0x1_0000_0000_0000);
  }

  lemma AlignUpRoundsDown(value: nat, alignment: nat)
    requires PowerOfTwo(alignment) && alignment < TWO_64 && value + alignment <= TWO_64
    ensures alignment > 0 && AlignUp(value, alignment) == value + alignment - 1 - (value + alignment - 1) % alignment
  {
    hide PowerOfTwo, BitAnd;
    Two64IsPowerOfTwo();
    PowerPositive(alignment);
    AndMask(value + alignment - 1, alignment, TWO_64);
  }

  lemma PowerPositive(a: nat)
    requires PowerOfTwo(a)
    ensures a > 0
  {}

  /** Main result: the masked expression is the least multiple of the alignment that is not
      below the value. */
  lemma AlignUpIsLeast(value: nat, alignment: nat, multiple: nat)
    requires PowerOfTwo(alignment) && alignment < TWO_64 && value + alignment <= TWO_64
    ensures alignment > 0 && AlignUp(value, alignment) % alignment == 0
    ensures value <= AlignUp(value, alignment) < value + alignment
    ensures multiple % alignment == 0 && multiple >= value ==> AlignUp(value, alignment) <= multiple
  {
    hide *;
    AlignUpRoundsDown(value, alignment);
    RoundDown(value + alignment - 1, alignment);
    LeastMultiple(value, alignment, AlignUp(value, alignment), multiple);
  }

  lemma RoundDown(x: nat, a: nat)
    requires a > 0
    ensures x - x % a >= 0 && (x - x % a) % a == 0
  {
    assert x - x % a == a * (x / a) + 0;
    DivModUnique(x - x % a, a, x / a, 0);
  }

  lemma LeastMultiple(value: nat, a: nat, rounded: nat, multiple: nat)
    requires a > 0 && rounded % a == 0 && rounded < value + a
    ensures multiple % a == 0 && multiple >= value ==> rounded <= multiple
  {
    if multiple % a == 0 && multiple >= value {
      var d, m := rounded / a, multiple / a;
      Difference(a, d, m);
    }
  }

  lemma Difference(a: nat, d: int, m: int)
    requires a > 0
    ensures a * d - a * m >= a || a * d - a * m <= 0
  {
    var k := d - m;
    assert a * d - a * m == a * k;
    if k >= 1 { Scale(a, 1, k); } else { Scale(a, k, 0); }
  }

  lemma Scale(a: nat, x: int, y: int)
    requires x <= y
    ensures a * x <= a * y
  {}
}
