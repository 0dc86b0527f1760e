/** Fixed-width machine words: 16-bit free-running counters, masks and alignment. */
module Words {

  /** The number of values of a u16. */
  const U16: nat := 0x1_0000
  /** The number of values of a u32. */
  const U32: nat := 0x1_0000_0000

  type byte = b: int | 0 <= b < 256

  /** The u16 that holds the integer `x` after truncation. */
  function Trunc16(x: int): (r: nat)
    ensures r < U16
  {
    x % U16
  }

  /** `idx++` on a u16. */
  function Inc16(x: nat): (r: nat)
    ensures r < U16
  {
    Trunc16(x + 1)
  }

  predicate PowerOfTwo(n: nat) {
    n == 1 || (n > 1 && n % 2 == 0 && PowerOfTwo(n / 2))
  }

  /** Bitwise `x & y` on natural numbers. */
  function BitAnd(x: nat, y: nat): nat {
    if x == 0 || y == 0 then 0 else 2 * BitAnd(x / 2, y / 2) + (x % 2) * (y % 2)
  }

  lemma {:induction false} MaskIsMod(x: nat, n: nat)
    requires PowerOfTwo(n)
    ensures BitAnd(x, n - 1) == x % n
  {
    if n == 1 || x == 0 {
    } else {
      MaskIsMod(x / 2, n / 2);
      var h := n / 2;
      assert n == 2 * h && (n - 1) / 2 == h - 1 && (n - 1) % 2 == 1;
      HalveMod(x, h);
    }
  }

  lemma HalveMod(x: nat, h: nat)
    requires h > 0
    ensures x % (2 * h) == 2 * ((x / 2) % h) + x % 2
  {
    var q, r := (x / 2) / h, (x / 2) % h;
    assert x == 2 * (h * q + r) + x % 2;
    var lo := 2 * r + x % 2;
    assert x == (2 * h) * q + lo && 0 <= lo < 2 * h by {
      assert 2 * (h * q) == (2 * h) * q;
    }
    DivModUnique(x, 2 * h, q, lo);
  }

  /** A product `n * d` lies strictly between `-n` and `n` only when `d` is 0. */
  lemma MulBound(n: int, d: int)
    requires n > 0
    ensures d >= 1 ==> n * d >= n
    ensures d <= -1 ==> n * d <= -n
  {
    assert n * d - n == n * (d - 1) && n * d + n == n * (d + 1);
  }

  lemma DivModUnique(x: int, n: int, q: int, r: int)
    requires n > 0 && 0 <= r < n && x == n * q + r
    ensures x / n == q && x % n == r
  {
    assert n * (x / n - q) == r - x % n by {
      assert x == n * (x / n) + x % n;
      assert n * (x / n - q) == n * (x / n) - n * q;
    }
    MulBound(n, x / n - q);
  }

  lemma MulMono(n: nat, a: int, b: int)
    requires a <= b
    ensures n * a <= n * b && a * n <= b * n
  {
    assert n * b - n * a == n * (b - a);
  }

  /** A power of two up to 65536 divides 65536. */
  lemma {:induction false} PowerOfTwoDivides(n: nat, m: nat)
    requires PowerOfTwo(n) && PowerOfTwo(m) && n <= m
    ensures m % n == 0
  {
    if n == 1 {
    } else {
      PowerOfTwoDivides(n / 2, m / 2);
      HalveMod(m, n / 2);
    }
  }

  /** The next power of two is at least twice as large. */
  lemma {:induction false} PowerOfTwoGap(n: nat, m: nat)
    requires PowerOfTwo(n) && PowerOfTwo(m) && n < m
    ensures 2 * n <= m
  {
    if n > 1 { PowerOfTwoGap(n / 2, m / 2); }
  }

  lemma ModDivisor(x: int, n: int, m: int)
    requires n > 0 && m > 0 && m % n == 0
    ensures (x % m) % n == x % n
  {
    var k := m / n;
    assert m == n * k;
    var q, r := x / m, (x % m) / n;
    assert x == n * (k * q + r) + (x % m) % n by {
      assert x == m * q + x % m;
      assert m * q == n * (k * q);
      assert x % m == n * r + (x % m) % n;
      assert n * (k * q + r) == n * (k * q) + n * r;
    }
    DivModUnique(x, n, k * q + r, (x % m) % n);
  }

  /** Masking a free-running u16 that holds `x` mod 65536 finds slot `x % n`. */
  lemma SlotOf(x: nat, n: nat)
    requires PowerOfTwo(n) && n <= U16
    ensures BitAnd(Trunc16(x), n - 1) == Trunc16(x) % n == x % n
  {
    MaskIsMod(Trunc16(x), n);
    assert PowerOfTwo(U16) by {
      assert PowerOfTwo(0x100) by { assert PowerOfTwo(0x10); }
      assert PowerOfTwo(0x1000) by { assert PowerOfTwo(0x200); }
      assert PowerOfTwo(0x8000);
    }
    PowerOfTwoDivides(n, U16);
    ModDivisor(x, n, U16);
  }

  /** Free-running counters at distance below `n` occupy different slots. */
  lemma SlotsDiffer(i: nat, j: nat, n: nat)
    requires i < j < i + n
    ensures i % n != j % n
  {
    var d := j / n - i / n;
    assert j - i == n * d + (j % n - i % n) by {
      assert i == n * (i / n) + i % n && j == n * (j / n) + j % n;
      assert n * (j / n - i / n) == n * (j / n) - n * (i / n);
    }
    MulBound(n, d);
  }

  /** Two counters less than 65536 apart agree as u16 exactly when they are equal. */
  lemma Trunc16Injective(a: nat, b: nat)
    requires a <= b < a + U16
    ensures Trunc16(a) == Trunc16(b) <==> a == b
  {
    if a < b { SlotsDiffer(a, b, U16); }
  }

  lemma Inc16Trunc(a: nat)
    ensures Inc16(Trunc16(a)) == Trunc16(a + 1)
  {
  }

  /** `ALIGN(x, a)`: the least multiple of `a` that is at least `x`. */
  function Align(x: nat, a: nat): (r: nat)
    requires a > 0
    ensures x <= r < x + a && r % a == 0
  {
    var q := (x + a - 1) / a;
    assert q * a % a == 0 by { DivModUnique(q * a, a, q, 0); }
    q * a
  }

  lemma AlignClearsRemainder(x: nat, a: nat)
    requires a > 0
    ensures Align(x, a) == x + a - 1 - (x + a - 1) % a
  {
  }

  /** `(x + a - 1) & ~(a - 1)` clears the low bits, which is `Align` for a power of two. */
  lemma AlignIsMask(x: nat, a: nat)
    requires PowerOfTwo(a)
    ensures Align(x, a) == x + a - 1 - BitAnd(x + a - 1, a - 1)
  {
    AlignClearsRemainder(x, a);
    MaskIsMod(x + a - 1, a);
  }
}
