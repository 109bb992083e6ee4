/** The 128-bit difficulty arithmetic: two 64-bit words refining natural numbers. */
module Difficulties {
  import opened GoInt

  /** The quotient word of the standard library's `bits.Div64`, which panics unless `hi < y`. */
  function BitsDiv64(hi: uint64, lo: uint64, y: uint64): (q: uint64)
    requires hi < y
    ensures q * y <= hi * TWO64 + lo < (q + 1) * y
  {
    QuotientBelow(hi, lo, y);
    QuotientFacts(hi * TWO64 + lo, y);
    (hi * TWO64 + lo) / y
  }

  lemma QuotientBelow(hi: uint64, lo: uint64, y: uint64)
    requires hi < y
    ensures 0 <= (hi * TWO64 + lo) / y < TWO64
  {
    var n := hi * TWO64 + lo;
    QuotientFacts(n, y);
    MulMono(hi + 1, y, TWO64);
    if n / y >= TWO64 {
      MulMono(TWO64, n / y, y);
    }
  }

  datatype Difficulty = Difficulty(Lo: uint64, Hi: uint64)
  {
    function Value(): (v: nat)
      ensures v < TWO128
    {
      Hi * TWO64 + Lo
    }

    predicate IsZero() {
      Lo == 0 && Hi == 0
    }

    function Cmp(other: Difficulty): (c: int)
      ensures c == -1 || c == 0 || c == 1
      ensures c < 0 <==> Value() < other.Value()
      ensures c > 0 <==> Value() > other.Value()
      ensures c == 0 <==> this == other
    {
      if Hi < other.Hi then -1
      else if Hi > other.Hi then 1
      else if Lo < other.Lo then -1
      else if Lo > other.Lo then 1
      else 0
    }

    function Add(other: Difficulty): (r: Difficulty)
      ensures r.Value() == (Value() + other.Value()) % TWO128
    {
      AddCorrect(this, other);
      var lo := Wrap(Lo + other.Lo);
      var hi := Wrap(Hi + other.Hi);
      Difficulty(lo, if lo < Lo then Wrap(hi + 1) else hi)
    }

    function Sub(other: Difficulty): (r: Difficulty)
      ensures r.Value() == (Value() - other.Value()) % TWO128
    {
      SubCorrect(this, other);
      var lo := Wrap(Lo - other.Lo);
      var hi := Wrap(Hi - other.Hi);
      Difficulty(lo, if Lo < other.Lo then Wrap(hi - 1) else hi)
    }

    /** Four 32-bit partial products, every sum and product wrapping at 64 bits. */
    function Mul64(v: uint64): (r: Difficulty)
      ensures r.Value() == (Value() * v) % TWO128
    {
      var loLo := Wrap(Lo % TWO32 * (v % TWO32));
      var loHi := Wrap(Lo / TWO32 * (v % TWO32));
      var hiLo := Wrap(Lo % TWO32 * (v / TWO32));
      var hiHi := Wrap(Lo / TWO32 * (v / TWO32));
      var mid := Wrap(loLo / TWO32 + loHi % TWO32 + hiLo % TWO32);
      var hi := Wrap(loHi / TWO32 + hiLo / TWO32 + hiHi + mid / TWO32 + Hi * v);
      Mul64Correct(this, v);
      Difficulty(loLo % TWO32 + mid % TWO32 * TWO32, hi)
    }

    function Div64(v: uint64): (r: Difficulty)
      ensures v != 0 ==> r.Value() == Value() / v
      ensures v == 0 ==> r.Value() == 0
    {
      if v == 0 then Difficulty(0, 0)
      else
        DivAtMost(Hi, v);
        var resultHi := if Hi >= v then Hi / v else 0;
        var rem := if Hi >= v then Hi % v else Hi;
        Div64Correct(this, v, resultHi, rem);
        Difficulty(BitsDiv64(rem, Lo, v), resultHi)
    }
  }

  lemma AddCorrect(d: Difficulty, e: Difficulty)
    ensures var lo := Wrap(d.Lo + e.Lo);
            var hi := Wrap(d.Hi + e.Hi);
            (if lo < d.Lo then Wrap(hi + 1) else hi) * TWO64 + lo == (d.Value() + e.Value()) % TWO128
  {
    var hi: int := Wrap(d.Hi + e.Hi);
    ModNear(d.Lo + e.Lo, TWO64);
    ModNear(d.Hi + e.Hi, TWO64);
    ModNear(hi + 1, TWO64);
    ModNear(d.Value() + e.Value(), TWO128);
  }

  lemma SubCorrect(d: Difficulty, e: Difficulty)
    ensures var lo := Wrap(d.Lo - e.Lo);
            var hi := Wrap(d.Hi - e.Hi);
            (if d.Lo < e.Lo then Wrap(hi - 1) else hi) * TWO64 + lo == (d.Value() - e.Value()) % TWO128
  {
    var hi: int := Wrap(d.Hi - e.Hi);
    ModNear(d.Lo - e.Lo, TWO64);
    ModNear(d.Hi - e.Hi, TWO64);
    ModNear(hi - 1, TWO64);
    ModNear(d.Value() - e.Value(), TWO128);
  }

  lemma ProductBelow(a: nat, b: nat)
    requires a < TWO32 && b < TWO32
    ensures a * b <= (TWO32 - 1) * (TWO32 - 1)
  {
    MulMono(a, TWO32 - 1, b);
    MulMono(b, TWO32 - 1, TWO32 - 1);
  }

  /** The schoolbook sum of the partial products `a*x`, `b*x`, `a*y`, `b*y` of two 64-bit words. */
  lemma PartialProducts(a: nat, b: nat, x: nat, y: nat)
    ensures (a + b * TWO32) * (x + y * TWO32) == a * x + (b * x + a * y) * TWO32 + (b * y) * TWO64
  {
    assert (a + b * TWO32) * (x + y * TWO32)
        == a * x + a * (y * TWO32) + (b * TWO32) * x + (b * TWO32) * (y * TWO32);
    assert a * (y * TWO32) == (a * y) * TWO32;
    assert (b * TWO32) * x == (b * x) * TWO32;
    assert (b * TWO32) * (y * TWO32) == (b * y) * TWO64;
  }

  /** Carrying the 32-bit halves: no sum below overflows, and nothing is lost. */
  lemma CarryHalves(p: nat, q: nat, r: nat, t: nat)
    requires p <= (TWO32 - 1) * (TWO32 - 1) && q <= (TWO32 - 1) * (TWO32 - 1)
    requires r <= (TWO32 - 1) * (TWO32 - 1)
    ensures var mid := p / TWO32 + q % TWO32 + r % TWO32;
            && mid < TWO64
            && (q / TWO32 + r / TWO32 + t + mid / TWO32) * TWO64 + (p % TWO32 + mid % TWO32 * TWO32)
            == p + (q + r) * TWO32 + t * TWO64
  {
    var mid := p / TWO32 + q % TWO32 + r % TWO32;
    var m1, m0, p1, p0 := mid / TWO32, mid % TWO32, p / TWO32, p % TWO32;
    var q1, q0, r1, r0 := q / TWO32, q % TWO32, r / TWO32, r % TWO32;
    assert mid == m1 * TWO32 + m0 && p == p1 * TWO32 + p0 && q == q1 * TWO32 + q0 && r == r1 * TWO32 + r0;
  }

  lemma Mul64Correct(d: Difficulty, v: uint64)
    ensures var loLo := Wrap(d.Lo % TWO32 * (v % TWO32));
            var loHi := Wrap(d.Lo / TWO32 * (v % TWO32));
            var hiLo := Wrap(d.Lo % TWO32 * (v / TWO32));
            var hiHi := Wrap(d.Lo / TWO32 * (v / TWO32));
            var mid := Wrap(loLo / TWO32 + loHi % TWO32 + hiLo % TWO32);
            var hi := Wrap(loHi / TWO32 + hiLo / TWO32 + hiHi + mid / TWO32 + d.Hi * v);
            && loLo % TWO32 + mid % TWO32 * TWO32 < TWO64
            && hi * TWO64 + (loLo % TWO32 + mid % TWO32 * TWO32) == (d.Value() * v) % TWO128
  {
    var a, b, x, y := d.Lo % TWO32, d.Lo / TWO32, v % TWO32, v / TWO32;
    ProductBelow(a, x); ProductBelow(b, x); ProductBelow(a, y); ProductBelow(b, y);
    var p, q, r, t := a * x, b * x, a * y, b * y;
    assert d.Lo * v == p + (q + r) * TWO32 + t * TWO64 by {
      PartialProducts(a, b, x, y);
    }
    InRange(p, TWO64); InRange(q, TWO64); InRange(r, TWO64); InRange(t, TWO64);
    CombineHalves(d, v, p, q, r, t);
  }

  lemma CombineHalves(d: Difficulty, v: uint64, p: nat, q: nat, r: nat, t: nat)
    requires p <= (TWO32 - 1) * (TWO32 - 1) && q <= (TWO32 - 1) * (TWO32 - 1)
    requires r <= (TWO32 - 1) * (TWO32 - 1) && t <= (TWO32 - 1) * (TWO32 - 1)
    requires d.Lo * v == p + (q + r) * TWO32 + t * TWO64
    ensures var mid := Wrap(p / TWO32 + q % TWO32 + r % TWO32);
            var hi := Wrap(q / TWO32 + r / TWO32 + t + mid / TWO32 + d.Hi * v);
            && p % TWO32 + mid % TWO32 * TWO32 < TWO64
            && hi * TWO64 + (p % TWO32 + mid % TWO32 * TWO32) == (d.Value() * v) % TWO128
  {
    var mid := p / TWO32 + q % TWO32 + r % TWO32;
    CarryHalves(p, q, r, t);
    InRange(mid, TWO64);
    var carry := q / TWO32 + r / TWO32 + t + mid / TWO32;
    var low := p % TWO32 + mid % TWO32 * TWO32;
    assert d.Value() * v == (carry + d.Hi * v) * TWO64 + low by {
      HighWord(d.Hi, d.Lo, v, carry, low);
    }
    assert low < TWO64;
    WordOfSum(carry + d.Hi * v, low);
  }

  lemma HighWord(hi: nat, lo: nat, v: nat, carry: nat, low: nat)
    requires lo * v == carry * TWO64 + low
    ensures (hi * TWO64 + lo) * v == (carry + hi * v) * TWO64 + low
  {
    assert (hi * TWO64 + lo) * v == (hi * TWO64) * v + lo * v;
    assert (hi * TWO64) * v == (hi * v) * TWO64;
  }

  /** Keeping 64 bits of the high part is keeping 128 bits of the whole. */
  lemma WordOfSum(total: nat, low: nat)
    requires low < TWO64
    ensures (total % TWO64) * TWO64 + low == (total * TWO64 + low) % TWO128
  {
    var q := total / TWO64;
    assert total * TWO64 + low == q * TWO128 + ((total % TWO64) * TWO64 + low);
    QuotientUnique(total * TWO64 + low, TWO128, q, (total % TWO64) * TWO64 + low);
  }

  lemma Div64Correct(d: Difficulty, v: uint64, resultHi: nat, rem: nat)
    requires v != 0
    requires resultHi == (if d.Hi >= v then d.Hi / v else 0)
    requires rem == (if d.Hi >= v then d.Hi % v else d.Hi)
    ensures rem < v
    ensures resultHi * TWO64 + (rem * TWO64 + d.Lo) / v == d.Value() / v
  {
    QuotientFacts(d.Hi, v);
    assert d.Hi == resultHi * v + rem;
    var n := rem * TWO64 + d.Lo;
    QuotientFacts(n, v);
    TwoStage(d.Hi, d.Lo, v, resultHi, rem, n / v, n % v);
    QuotientUnique(d.Value(), v, resultHi * TWO64 + n / v, n % v);
  }

  lemma TwoStage(hi: nat, lo: nat, v: nat, h: nat, rem: nat, q: nat, r: nat)
    requires hi == h * v + rem && rem * TWO64 + lo == q * v + r
    ensures hi * TWO64 + lo == (h * TWO64 + q) * v + r
  {
    assert (h * v + rem) * TWO64 == (h * v) * TWO64 + rem * TWO64;
    assert (h * TWO64 + q) * v == (h * TWO64) * v + q * v;
    assert (h * TWO64) * v == (h * v) * TWO64;
  }

  lemma ValueInjective(d: Difficulty, e: Difficulty)
    requires d.Value() == e.Value()
    ensures d == e
  {
  }

  lemma WrapUndone(a: nat, b: nat, m: int)
    requires a < m && b < m
    ensures ((a + b) % m - b) % m == a
    ensures ((a - b) % m + b) % m == a
  {
    ModNear(a + b, m);
    ModNear(a - b, m);
    ModNear((a + b) % m - b, m);
    ModNear((a - b) % m + b, m);
  }

  /** Addition and subtraction undo each other on every pair, wrapping or not. */
  lemma AddThenSub(d: Difficulty, e: Difficulty)
    ensures d.Add(e).Sub(e) == d
  {
    WrapUndone(d.Value(), e.Value(), TWO128);
    ValueInjective(d.Add(e).Sub(e), d);
  }

  lemma SubThenAdd(d: Difficulty, e: Difficulty)
    ensures d.Sub(e).Add(e) == d
  {
    WrapUndone(d.Value(), e.Value(), TWO128);
    ValueInjective(d.Sub(e).Add(e), d);
  }

  /** Without a wrap, and only then, sums and differences agree with the order that Cmp decides. */
  lemma OrderAgrees(d: Difficulty, e: Difficulty)
    ensures d.Cmp(e) >= 0 <==> d.Sub(e).Value() == d.Value() - e.Value()
    ensures d.Add(e).Cmp(d) >= 0 <==> d.Add(e).Value() == d.Value() + e.Value()
  {
    ModNear(d.Value() + e.Value(), TWO128);
    ModNear(d.Value() - e.Value(), TWO128);
  }

  // ---------------------------------------------------------------------------------------------
  // 128-bit by 128-bit division
  // ---------------------------------------------------------------------------------------------

  /** The dividend bits read before round `i` of the long division, as a number. */
  function Prefix(d: Difficulty, i: nat): nat {
    DivAtMost(d.Value(), Pow2(i));
    d.Value() / Pow2(i)
  }

  /** Bit `i` of the dividend as the source picks it out of the two words. */
  function BitAt(d: Difficulty, i: nat): (b: uint64)
    requires i < 128
    ensures b == 0 || b == 1
  {
    if i >= 64 then ShiftRight(d.Hi, i - 64) % 2 else ShiftRight(d.Lo, i) % 2
  }

  lemma HalveTwice(n: nat, p: nat)
    requires p > 0
    ensures n / p == 2 * (n / (2 * p)) + (n / p) % 2
  {
    QuotientFacts(n, p);
    var q, r := n / p, n % p;
    var h, b := q / 2, q % 2;
    assert q == 2 * h + b;
    assert n == h * (2 * p) + (b * p + r) by {
      assert (2 * h + b) * p == h * (2 * p) + b * p;
    }
    MulMono(b, 1, p);
    QuotientUnique(n, 2 * p, h, b * p + r);
  }

  /** Dividing a two-word number by a power of two at least one word long leaves the high word. */
  lemma HighPart(hi: nat, lo: nat, p: nat)
    requires p > 0 && lo < TWO64
    ensures (hi * TWO64 + lo) / (TWO64 * p) == hi / p
  {
    QuotientFacts(hi, p);
    var q, r := hi / p, hi % p;
    assert hi * TWO64 + lo == q * (TWO64 * p) + (r * TWO64 + lo) by {
      assert (q * p + r) * TWO64 == q * (TWO64 * p) + r * TWO64;
    }
    MulMono(r + 1, p, TWO64);
    QuotientUnique(hi * TWO64 + lo, TWO64 * p, q, r * TWO64 + lo);
  }

  lemma HighIsEven(hi: nat, lo: nat, p: nat, h: nat, q: nat, r: nat)
    requires 2 * h * p == TWO64 && lo == q * p + r
    ensures hi * TWO64 + lo == (2 * (hi * h) + q) * p + r
  {
    assert hi * (2 * h * p) == (2 * (hi * h)) * p;
    assert (2 * (hi * h) + q) * p == (2 * (hi * h)) * p + q * p;
  }

  /** Below one word the high word only adds an even number, so the low word decides the bit. */
  lemma LowPart(hi: nat, lo: nat, p: nat, h: nat)
    requires p > 0 && 2 * h * p == TWO64
    ensures ((hi * TWO64 + lo) / p) % 2 == (lo / p) % 2
  {
    QuotientFacts(lo, p);
    var q, r, e := lo / p, lo % p, hi * h;
    HighIsEven(hi, lo, p, h, q, r);
    QuotientUnique(hi * TWO64 + lo, p, 2 * e + q, r);
    assert (2 * e + q) % 2 == q % 2;
  }

  /** Reading one more bit doubles the prefix and adds the bit. */
  lemma PrefixStep(d: Difficulty, i: nat)
    requires i < 128
    ensures Prefix(d, i) == 2 * Prefix(d, i + 1) + BitAt(d, i)
  {
    HalveTwice(d.Value(), Pow2(i));
    if i >= 64 {
      Pow2Of64();
      Pow2Sum(64, i - 64);
      assert 64 + (i - 64) == i;
      HighPart(d.Hi, d.Lo, Pow2(i - 64));
    } else {
      PowersMeet(i);
      LowPart(d.Hi, d.Lo, Pow2(i), Pow2(63 - i));
    }
  }

  lemma ShiftedWordHasRoom(x: uint64)
    ensures Wrap(2 * x) % 2 == 0 && Wrap(2 * x) <= TWO64 - 2
    ensures Wrap(2 * x) == 2 * x - (x / TWO63) * TWO64
    ensures x / TWO63 <= 1
  {
    ModNear(2 * x, TWO64);
  }

  /** The remainder register after the shift and the new bit, before the comparison. */
  function ShiftIn(r: Difficulty, bit: uint64): Difficulty
    requires bit <= 1
  {
    ShiftedWordHasRoom(r.Lo);
    ShiftedWordHasRoom(r.Hi);
    Pow2Of63();
    var lo := Wrap(2 * r.Lo);
    Difficulty(if bit == 1 then SetBit(lo, 0) else lo, Wrap(2 * r.Hi) + ShiftRight(r.Lo, 63))
  }

  /** While the doubled remainder still fits, the unguarded 128-bit shift loses no bit. */
  lemma ShiftInExact(r: Difficulty, bit: uint64)
    requires bit <= 1 && 2 * r.Value() + bit < TWO128
    ensures ShiftIn(r, bit).Value() == 2 * r.Value() + bit
  {
    ShiftedWordHasRoom(r.Lo);
    ShiftedWordHasRoom(r.Hi);
    Pow2Of63();
    assert Pow2(0) == 1;
  }

  /** Setting quotient bit `i`, as the source spreads it over the two words. */
  function SetQuotientBit(q: Difficulty, i: nat): Difficulty
    requires i < 128
  {
    if i >= 64 then Difficulty(q.Lo, SetBit(q.Hi, i - 64)) else Difficulty(SetBit(q.Lo, i), q.Hi)
  }

  lemma EvenMultiple(n: nat, m: nat, p: nat)
    requires p > 0 && n == m * (2 * p)
    ensures (n / p) % 2 == 0
  {
    QuotientUnique(n, p, 2 * m, 0);
  }

  lemma SetHighBit(q: Difficulty, m: nat, p: nat)
    requires p > 0 && q.Value() == m * (2 * (TWO64 * p))
    ensures (q.Hi / p) % 2 == 0
  {
    assert m * (2 * (TWO64 * p)) == (m * (2 * p)) * TWO64;
    QuotientUnique(q.Value(), TWO64, m * (2 * p), 0);
    QuotientUnique(q.Value(), TWO64, q.Hi, q.Lo);
    EvenMultiple(q.Hi, m, p);
  }

  lemma SetLowBit(q: Difficulty, m: nat, p: nat, h: nat)
    requires p > 0 && 2 * h * p == TWO64 && q.Value() == m * (2 * p)
    ensures (q.Lo / p) % 2 == 0
  {
    assert q.Hi * (2 * h * p) == (q.Hi * h) * (2 * p);
    if m < q.Hi * h {
      MulMono(m + 1, q.Hi * h, 2 * p);
    } else {
      assert (m - q.Hi * h) * (2 * p) == m * (2 * p) - (q.Hi * h) * (2 * p);
      EvenMultiple(q.Lo, m - q.Hi * h, p);
    }
  }

  /** While no bit at or below `i` is set, setting bit `i` adds `2^i`. */
  lemma SetQuotientBitAdds(q: Difficulty, m: nat, i: nat)
    requires i < 128 && q.Value() == m * Pow2(i + 1)
    ensures SetQuotientBit(q, i).Value() == (2 * m + 1) * Pow2(i)
  {
    var p := Pow2(i);
    assert (2 * m + 1) * p == m * (2 * p) + p;
    if i >= 64 {
      Pow2Of64();
      Pow2Sum(64, i - 64);
      assert 64 + (i - 64) == i;
      SetHighBit(q, m, Pow2(i - 64));
    } else {
      PowersMeet(i);
      SetLowBit(q, m, p, Pow2(63 - i));
    }
  }

  /**
   * One round of long division on numbers. The remainder never exceeds the prefix read so far, so
   * its double plus the next bit is at most the next prefix and fits wherever the dividend does.
   */
  lemma DivisionRound(prefix: nat, q: nat, r: nat, v: nat, bit: nat)
    requires v > 0 && prefix == q * v + r && r < v && bit <= 1
    ensures r <= prefix
    ensures var r' := 2 * r + bit;
            && r' <= 2 * prefix + bit
            && (r' >= v ==> r' - v < v && 2 * prefix + bit == (2 * q + 1) * v + (r' - v))
            && (r' < v ==> 2 * prefix + bit == (2 * q) * v + r')
  {
    assert q * v >= 0;
    assert (2 * q) * v == 2 * (q * v);
    assert (2 * q + 1) * v == (2 * q) * v + v;
  }

  /** What holds before the round for bit `i - 1`: `q` is the quotient of the prefix read so far. */
  ghost predicate Dividing(d: Difficulty, divisor: Difficulty, i: nat,
                           quotient: Difficulty, remainder: Difficulty, q: nat)
  {
    && Prefix(d, i) == q * divisor.Value() + remainder.Value()
    && remainder.Value() < divisor.Value()
    && quotient.Value() == q * Pow2(i)
  }

  /** The shifted register is twice the remainder plus the bit, though nothing guards the shift. */
  lemma ShiftIsSafe(d: Difficulty, divisor: Difficulty, i: nat,
                    quotient: Difficulty, remainder: Difficulty, q: nat)
    requires i < 128 && Dividing(d, divisor, i + 1, quotient, remainder, q)
    ensures ShiftIn(remainder, BitAt(d, i)).Value() == 2 * remainder.Value() + BitAt(d, i)
    ensures ShiftIn(remainder, BitAt(d, i)).Value() <= Prefix(d, i)
  {
    PrefixStep(d, i);
    DivAtMost(d.Value(), Pow2(i));
    DivisionRound(Prefix(d, i + 1), q, remainder.Value(), divisor.Value(), BitAt(d, i));
    ShiftInExact(remainder, BitAt(d, i));
  }

  lemma RoundSubtracts(d: Difficulty, divisor: Difficulty, i: nat,
                       quotient: Difficulty, remainder: Difficulty, q: nat)
    requires i < 128 && Dividing(d, divisor, i + 1, quotient, remainder, q)
    requires ShiftIn(remainder, BitAt(d, i)).Cmp(divisor) >= 0
    ensures Dividing(d, divisor, i, SetQuotientBit(quotient, i),
                     ShiftIn(remainder, BitAt(d, i)).Sub(divisor), 2 * q + 1)
  {
    var shifted := ShiftIn(remainder, BitAt(d, i));
    ShiftIsSafe(d, divisor, i, quotient, remainder, q);
    OrderAgrees(shifted, divisor);
    var reduced := shifted.Sub(divisor);
    var v, bit, prefix := divisor.Value(), BitAt(d, i), Prefix(d, i + 1);
    assert reduced.Value() == 2 * remainder.Value() + bit - v;
    DivisionRound(prefix, q, remainder.Value(), v, bit);
    assert Prefix(d, i) == 2 * prefix + bit by {
      PrefixStep(d, i);
    }
    SetQuotientBitAdds(quotient, q, i);
  }

  lemma RoundSkips(d: Difficulty, divisor: Difficulty, i: nat,
                   quotient: Difficulty, remainder: Difficulty, q: nat)
    requires i < 128 && Dividing(d, divisor, i + 1, quotient, remainder, q)
    requires ShiftIn(remainder, BitAt(d, i)).Cmp(divisor) < 0
    ensures Dividing(d, divisor, i, quotient, ShiftIn(remainder, BitAt(d, i)), 2 * q)
  {
    var shifted := ShiftIn(remainder, BitAt(d, i));
    ShiftIsSafe(d, divisor, i, quotient, remainder, q);
    var v, bit, prefix := divisor.Value(), BitAt(d, i), Prefix(d, i + 1);
    assert shifted.Value() < v;
    DivisionRound(prefix, q, remainder.Value(), v, bit);
    assert Prefix(d, i) == 2 * prefix + bit by {
      PrefixStep(d, i);
    }
    Reassociate(q, Pow2(i));
  }

  lemma Reassociate(q: nat, p: nat)
    ensures q * (2 * p) == (2 * q) * p
  {
  }

  /**
   * Floor division of 128-bit numbers. A zero divisor gives zero; a divisor of one word takes the
   * two-stage path; the rest is 128 rounds of shift and subtract.
   */
  method Div(d: Difficulty, divisor: Difficulty) returns (quotient: Difficulty)
    ensures divisor.Value() != 0 ==> quotient.Value() == d.Value() / divisor.Value()
    ensures divisor.Value() == 0 ==> quotient.Value() == 0
  {
    if divisor.IsZero() {
      return Difficulty(0, 0);
    }
    if divisor.Hi == 0 {
      return d.Div64(divisor.Lo);
    }
    quotient := Difficulty(0, 0);
    var remainder := Difficulty(0, 0);
    ghost var q: nat := 0;
    Pow2Of64();
    QuotientUnique(d.Value(), TWO128, 0, d.Value());
    var i := 127;
    while i >= 0
      invariant -1 <= i <= 127
      invariant Dividing(d, divisor, i + 1, quotient, remainder, q)
    {
      ghost var before := remainder;
      remainder := ShiftIn(remainder, BitAt(d, i));
      if remainder.Cmp(divisor) >= 0 {
        RoundSubtracts(d, divisor, i, quotient, before, q);
        remainder := remainder.Sub(divisor);
        quotient := SetQuotientBit(quotient, i);
        q := 2 * q + 1;
      } else {
        RoundSkips(d, divisor, i, quotient, before, q);
        q := 2 * q;
      }
      i := i - 1;
    }
    assert Pow2(0) == 1;
    QuotientUnique(d.Value(), divisor.Value(), q, remainder.Value());
  }
}
