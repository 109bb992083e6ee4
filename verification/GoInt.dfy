/** Go's fixed-width integers as bounded naturals, with wrap-around written out. */
module GoInt {

  const TWO32: nat := 0x1_0000_0000
  const TWO63: nat := 0x8000_0000_0000_0000
  const TWO64: nat := 0x1_0000_0000_0000_0000
  const TWO128: nat := 0x1_0000_0000_0000_0000_0000_0000_0000_0000

  type uint8 = n: nat | n < 0x100
  type uint32 = n: nat | n < TWO32
  type uint64 = n: nat | n < TWO64

  /** The 64-bit word a uint64 expression leaves behind. */
  function Wrap(n: int): uint64 {
    n % TWO64
  }

  /** The conversion `int(n)` and the result of wrapping `int` arithmetic: two's complement. */
  function ToInt(n: int): int {
    var w := n % TWO64;
    if w < TWO63 then w else w - TWO64
  }

  function Pow2(n: nat): (p: nat)
    ensures p > 0
  {
    if n == 0 then 1 else 2 * Pow2(n - 1)
  }

  lemma {:induction false} Pow2Sum(a: nat, b: nat)
    ensures Pow2(a + b) == Pow2(a) * Pow2(b)
  {
    if a == 0 {
    } else {
      Pow2Sum(a - 1, b);
      assert a + b - 1 == (a - 1) + b;
      assert 2 * (Pow2(a - 1) * Pow2(b)) == (2 * Pow2(a - 1)) * Pow2(b);
    }
  }

  lemma {:induction false} Pow2Monotone(a: nat, b: nat)
    requires a <= b
    ensures Pow2(a) <= Pow2(b)
  {
    if a < b {
      Pow2Monotone(a, b - 1);
    }
  }

  /** `x >> k` */
  function ShiftRight(x: uint64, k: nat): uint64 {
    DivAtMost(x, Pow2(k));
    x / Pow2(k)
  }

  /** `x |= 1 << k`: the bit is added unless it is there already. */
  function SetBit(x: uint64, k: nat): uint64
    requires k < 64
  {
    if (x / Pow2(k)) % 2 == 1 then x else BitFits(x, k); x + Pow2(k)
  }

  lemma DivAtMost(x: nat, d: nat)
    requires d > 0
    ensures 0 <= x / d <= x
  {
    var q := x / d;
    QuotientFacts(x, d);
    MulMono(1, d, q);
  }

  lemma BitFits(x: uint64, k: nat)
    requires k < 64 && (x / Pow2(k)) % 2 != 1
    ensures x + Pow2(k) < TWO64
  {
    PowersMeet(k);
    QuotientFacts(x, Pow2(k));
    EvenBelow(x, Pow2(k), x / Pow2(k), Pow2(63 - k));
  }

  lemma PowersMeet(k: nat)
    requires k < 64
    ensures 2 * Pow2(63 - k) * Pow2(k) == TWO64
  {
    Pow2Sum(63 - k, k);
    Pow2Word(63 - k + k);
    TwiceProduct(Pow2(63 - k), Pow2(k));
  }

  lemma TwiceProduct(a: nat, b: nat)
    ensures 2 * a * b == 2 * (a * b)
  {
  }

  lemma Pow2Step(n: nat, p: nat)
    requires Pow2(n) == p
    ensures Pow2(n + 7) == 0x80 * p
  {
    Pow2Sum(n, 7);
    assert Pow2(7) == 0x80;
  }

  lemma Pow2Word(n: nat)
    requires n == 63
    ensures Pow2(n) == TWO63
  {
    Pow2Step(n - 63, 1);
    Pow2Step(n - 56, 0x80);
    Pow2Step(n - 49, 0x4000);
    Pow2Step(n - 42, 0x20_0000);
    Pow2Step(n - 35, 0x1000_0000);
    Pow2Step(n - 28, 0x8_0000_0000);
    Pow2Step(n - 21, 0x400_0000_0000);
    Pow2Step(n - 14, 0x2_0000_0000_0000);
    Pow2Step(n - 7, 0x100_0000_0000_0000);
  }

  lemma Pow2Of63()
    ensures Pow2(63) == TWO63
  {
    Pow2Word(63);
  }

  lemma Pow2Of64()
    ensures Pow2(64) == TWO64 && Pow2(128) == TWO128
  {
    Pow2Of63();
    Pow2Sum(64, 64);
  }

  lemma EvenBelow(x: nat, p: nat, q: nat, h: nat)
    requires q * p <= x < 2 * h * p
    requires x < (q + 1) * p && q % 2 == 0
    ensures x + p < 2 * h * p
  {
    if q >= 2 * h {
      MulMono(2 * h, q, p);
    }
    MulMono(q + 2, 2 * h, p);
    assert (q + 2) * p == (q + 1) * p + p;
  }

  lemma QuotientFacts(n: nat, d: nat)
    requires d > 0
    ensures n == (n / d) * d + n % d
    ensures 0 <= n / d && 0 <= n % d < d
    ensures (n / d) * d <= n
    ensures n < (n / d + 1) * d
  {
    assert n == (n / d) * d + n % d;
    var q := n / d;
    assert (q + 1) * d == q * d + d;
  }

  lemma MulMono(a: nat, b: nat, p: nat)
    requires a <= b
    ensures a * p <= b * p && p * a <= p * b
  {
  }

  /** The defining equation of division with remainder has one solution. */
  lemma QuotientUnique(n: nat, d: nat, q: nat, r: nat)
    requires d > 0 && n == q * d + r && r < d
    ensures q == n / d && r == n % d
  {
    var q', r' := n / d, n % d;
    QuotientFacts(n, d);
    if q < q' {
      MulMono(q + 1, q', d);
    } else if q' < q {
      MulMono(q' + 1, q, d);
    }
  }

  /** Reduction of a number that is less than one modulus out of range. */
  lemma ModNear(n: int, m: int)
    requires m > 0 && -m <= n < 2 * m
    ensures n % m == if n < 0 then n + m else if n < m then n else n - m
  {
    if n < 0 {
      assert n == (-1) * m + (n + m);
    } else if n >= m {
      QuotientUnique(n, m, 1, n - m);
    } else {
      QuotientUnique(n, m, 0, n);
    }
  }

  lemma InRange(n: nat, m: nat)
    requires n < m
    ensures n % m == n
  {
    QuotientUnique(n, m, 0, n);
  }

  /** A register that wraps at every addition holds the wrapped sum. */
  lemma ModOfSum(a: nat, b: nat)
    ensures (a % TWO128 + b) % TWO128 == (a + b) % TWO128
  {
    QuotientFacts(a, TWO128);
    var m := a % TWO128 + b;
    QuotientFacts(m, TWO128);
    QuotientUnique(a + b, TWO128, a / TWO128 + m / TWO128, m % TWO128);
  }

  /** What `int` arithmetic leaves behind differs from the number by whole wraps, and is in range. */
  lemma ToIntCongruent(n: int)
    ensures 0 <= ToInt(n) + TWO63 < TWO64
    ensures (ToInt(n) - n) % TWO64 == 0
  {
    var q := n / TWO64;
    assert n == q * TWO64 + n % TWO64;
    assert (ToInt(n) - n) == (-q) * TWO64 || (ToInt(n) - n) == (-q - 1) * TWO64;
  }
}
