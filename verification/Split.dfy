/** The cumulative-floor reward split and the credit of sorted outputs by position. */
module Split {
  import opened GoInt
  import opened Difficulties
  import opened Sorting

  function Cumulative(ws: seq<nat>, k: nat): nat
    requires k <= |ws|
  {
    if k == 0 then 0 else Cumulative(ws, k - 1) + ws[k - 1]
  }

  /** What the first `k` miners have been given together. */
  function GivenBy(ws: seq<nat>, total: nat, reward: nat, k: nat): nat
    requires k <= |ws| && total > 0
  {
    NonNegativeQuotient(Cumulative(ws, k) * reward, total);
    Cumulative(ws, k) * reward / total
  }

  lemma NonNegativeQuotient(n: nat, d: nat)
    requires d > 0
    ensures n / d >= 0
  {
    QuotientFacts(n, d);
  }

  lemma {:induction false} CumulativeMonotone(ws: seq<nat>, j: nat, k: nat)
    requires j <= k <= |ws|
    ensures Cumulative(ws, j) <= Cumulative(ws, k)
  {
    if j < k {
      CumulativeMonotone(ws, j, k - 1);
    }
  }

  lemma QuotientMonotone(m: nat, n: nat, d: nat)
    requires m <= n && d > 0
    ensures m / d <= n / d
  {
    QuotientFacts(m, d);
    QuotientFacts(n, d);
    if n / d + 1 <= m / d {
      MulMono(n / d + 1, m / d, d);
    }
  }

  lemma GivenMonotone(ws: seq<nat>, total: nat, reward: nat, j: nat, k: nat)
    requires j <= k <= |ws| && total > 0
    ensures GivenBy(ws, total, reward, j) <= GivenBy(ws, total, reward, k)
  {
    CumulativeMonotone(ws, j, k);
    MulMono(Cumulative(ws, j), Cumulative(ws, k), reward);
    QuotientMonotone(Cumulative(ws, j) * reward, Cumulative(ws, k) * reward, total);
  }

  /** What miner `i` gets on exact numbers: the difference of consecutive floors. */
  function Payout(ws: seq<nat>, total: nat, reward: nat, i: nat): nat
    requires total > 0 && i < |ws|
  {
    GivenMonotone(ws, total, reward, i, i + 1);
    GivenBy(ws, total, reward, i + 1) - GivenBy(ws, total, reward, i)
  }

  function Amounts(ws: seq<nat>, total: nat, reward: nat): (amounts: seq<nat>)
    requires total > 0
    ensures |amounts| == |ws|
  {
    seq(|ws|, i requires 0 <= i < |ws| => Payout(ws, total, reward, i))
  }

  /** The first `k` payouts together are the floor of the first `k` miners' proportion. */
  lemma {:induction false} PrefixSum(ws: seq<nat>, total: nat, reward: nat, k: nat)
    requires total > 0 && k <= |ws|
    ensures Sum(Amounts(ws, total, reward)[..k]) == Cumulative(ws, k) * reward / total
  {
    var a := Amounts(ws, total, reward);
    if k == 0 {
      QuotientUnique(0, total, 0, 0);
    } else {
      PrefixSum(ws, total, reward, k - 1);
      assert a[..k][..k - 1] == a[..k - 1];
    }
  }

  /** All payouts together are exactly the reward. */
  lemma SplitConserves(ws: seq<nat>, total: nat, reward: nat)
    requires total > 0 && Cumulative(ws, |ws|) == total
    ensures Sum(Amounts(ws, total, reward)) == reward
  {
    var a := Amounts(ws, total, reward);
    PrefixSum(ws, total, reward, |ws|);
    assert a[..|ws|] == a;
    QuotientUnique(total * reward, total, reward, 0);
  }

  /** A difference of floors is the floor of the difference, or one more; exact if that is whole. */
  lemma FloorDifference(a: nat, b: nat, d: nat)
    requires d > 0
    ensures var x := (a + b) / d - a / d;
            && b / d <= x <= b / d + 1
            && (b % d == 0 ==> x == b / d)
  {
    QuotientFacts(a, d);
    QuotientFacts(b, d);
    var r := a % d + b % d;
    assert a + b == (a / d + b / d) * d + r by {
      assert (a / d + b / d) * d == a / d * d + b / d * d;
    }
    if r < d {
      QuotientUnique(a + b, d, a / d + b / d, r);
    } else {
      assert (a / d + b / d + 1) * d == (a / d + b / d) * d + d;
      QuotientUnique(a + b, d, a / d + b / d + 1, r - d);
    }
  }

  /** Each payout is the floor or the ceiling of the miner's proportion of the reward. */
  lemma AmountNearProportion(ws: seq<nat>, total: nat, reward: nat, i: nat)
    requires total > 0 && i < |ws|
    ensures var share, x := ws[i] * reward, Amounts(ws, total, reward)[i];
            && share / total <= x <= share / total + 1
            && (share % total == 0 ==> x == share / total)
  {
    assert Cumulative(ws, i + 1) * reward == Cumulative(ws, i) * reward + ws[i] * reward;
    FloorDifference(Cumulative(ws, i) * reward, ws[i] * reward, total);
  }

  /** `x` is `share / total` rounded down or up, without rounding where nothing is to round. */
  predicate CreditNear(share: nat, total: nat, x: int)
    requires total > 0
  {
    share / total <= x <= share / total + 1 && (share % total == 0 ==> x == share / total)
  }

  /** Each of the amounts is its miner's proportion rounded, and together they are the reward. */
  predicate FairCredits(ws: seq<nat>, total: nat, reward: nat, credited: seq<int>)
    requires total > 0
  {
    && |credited| == |ws| && Sum(credited) == reward
    && forall k :: 0 <= k < |ws| ==> CreditNear(ws[k] * reward, total, credited[k])
  }

  /** Moreover the first `k` amounts are the floor of the first `k` miners' proportion, for every `k`. */
  predicate ExactSplit(ws: seq<nat>, total: nat, reward: nat, amounts: seq<int>)
    requires total > 0
  {
    && FairCredits(ws, total, reward, amounts)
    && forall k :: 0 <= k <= |ws| ==> Sum(amounts[..k]) == Cumulative(ws, k) * reward / total
  }

  lemma AmountsExact(ws: seq<nat>, total: nat, reward: nat)
    requires total > 0 && Cumulative(ws, |ws|) == total
    ensures ExactSplit(ws, total, reward, Amounts(ws, total, reward))
  {
    hide Sum, Amounts, Cumulative;
    SplitConserves(ws, total, reward);
    forall k | 0 <= k <= |ws|
      ensures Sum(Amounts(ws, total, reward)[..k]) == Cumulative(ws, k) * reward / total
    {
      PrefixSum(ws, total, reward, k);
    }
    forall i | 0 <= i < |ws|
      ensures CreditNear(ws[i] * reward, total, Amounts(ws, total, reward)[i])
    {
      AmountNearProportion(ws, total, reward, i);
    }
  }

  // ---------------------------------------------------------------------------------------------
  // Where the dust goes
  // ---------------------------------------------------------------------------------------------

  /** The first `k` proportions, each rounded down. */
  function Floors(ws: seq<nat>, total: nat, reward: nat, k: nat): nat
    requires total > 0 && k <= |ws|
  {
    if k == 0 then 0
    else NonNegativeQuotient(ws[k - 1] * reward, total); Floors(ws, total, reward, k - 1) + ws[k - 1] * reward / total
  }

  /** What that rounding leaves over, in units of one part in `total`. */
  function Dust(ws: seq<nat>, total: nat, reward: nat, k: nat): nat
    requires total > 0 && k <= |ws|
  {
    if k == 0 then 0
    else QuotientFacts(ws[k - 1] * reward, total); Dust(ws, total, reward, k - 1) + ws[k - 1] * reward % total
  }

  /** Every miner before the last gets its proportion rounded down, so that the last gets all the dust. */
  predicate DustGoesLast(ws: seq<nat>, total: nat, reward: nat, amounts: seq<int>)
    requires total > 0 && |amounts| == |ws|
  {
    forall k :: 0 <= k < |ws| - 1 ==> amounts[k] == ws[k] * reward / total
  }

  lemma SumScales(a: nat, b: nat, p: nat)
    ensures (a + b) * p == a * p + b * p
  {
  }

  lemma {:induction false} FloorsAndDust(ws: seq<nat>, total: nat, reward: nat, k: nat)
    requires total > 0 && k <= |ws|
    ensures Cumulative(ws, k) * reward == Floors(ws, total, reward, k) * total + Dust(ws, total, reward, k)
  {
    if k > 0 {
      FloorsAndDust(ws, total, reward, k - 1);
      QuotientFacts(ws[k - 1] * reward, total);
      SumScales(Floors(ws, total, reward, k - 1), ws[k - 1] * reward / total, total);
      SumScales(Cumulative(ws, k - 1), ws[k - 1], reward);
    }
  }

  lemma {:induction false} DustMonotone(ws: seq<nat>, total: nat, reward: nat, j: nat, k: nat)
    requires total > 0 && j <= k <= |ws|
    ensures Dust(ws, total, reward, j) <= Dust(ws, total, reward, k)
  {
    if j < k {
      DustMonotone(ws, total, reward, j, k - 1);
      QuotientFacts(ws[k - 1] * reward, total);
    }
  }

  /** The first `k` miners have together been given their rounded-down proportions, and no dust. */
  lemma NoDustYet(ws: seq<nat>, total: nat, reward: nat, k: nat)
    requires total > 0 && k <= |ws|
    ensures GivenBy(ws, total, reward, k) == Floors(ws, total, reward, k) <==> Dust(ws, total, reward, k) < total
  {
    hide Floors, Dust, Cumulative;
    FloorsAndDust(ws, total, reward, k);
    QuotientFacts(Cumulative(ws, k) * reward, total);
    if Dust(ws, total, reward, k) < total {
      QuotientUnique(Cumulative(ws, k) * reward, total, Floors(ws, total, reward, k), Dust(ws, total, reward, k));
    }
  }

  /** As long as nobody got dust, the rounded-down proportions are all that was given. */
  lemma {:induction false} FlooredPrefix(ws: seq<nat>, total: nat, reward: nat, k: nat)
    requires total > 0 && k <= |ws|
    requires forall i :: 0 <= i < k ==> Amounts(ws, total, reward)[i] == ws[i] * reward / total
    ensures GivenBy(ws, total, reward, k) == Floors(ws, total, reward, k)
  {
    if k == 0 {
      QuotientUnique(0, total, 0, 0);
    } else {
      hide GivenBy;
      FlooredPrefix(ws, total, reward, k - 1);
      assert Amounts(ws, total, reward)[k - 1] == Payout(ws, total, reward, k - 1);
    }
  }

  /** All dust goes to the last miner if and only if that of the others together does not make a whole unit. */
  lemma DustLastExactly(ws: seq<nat>, total: nat, reward: nat)
    requires total > 0 && ws != []
    ensures DustGoesLast(ws, total, reward, Amounts(ws, total, reward)) <==> Dust(ws, total, reward, |ws| - 1) < total
  {
    hide GivenBy;
    var a, last := Amounts(ws, total, reward), |ws| - 1;
    NoDustYet(ws, total, reward, last);
    if DustGoesLast(ws, total, reward, a) {
      FlooredPrefix(ws, total, reward, last);
    }
    if Dust(ws, total, reward, last) < total {
      forall k | 0 <= k < last
        ensures a[k] == ws[k] * reward / total
      {
        DustMonotone(ws, total, reward, k, last);
        DustMonotone(ws, total, reward, k + 1, last);
        NoDustYet(ws, total, reward, k);
        NoDustYet(ws, total, reward, k + 1);
        assert a[k] == Payout(ws, total, reward, k);
      }
    }
  }

  // ---------------------------------------------------------------------------------------------
  // Crediting sorted outputs by position
  // ---------------------------------------------------------------------------------------------

  /** With descending weights, proportions descend, and so do their floors. */
  lemma ProportionsDescend(ws: seq<nat>, total: nat, reward: nat, i: nat, j: nat)
    requires total > 0 && i <= j < |ws| && DescendingInts(ws)
    ensures ws[j] * reward <= ws[i] * reward
    ensures ws[j] * reward / total <= ws[i] * reward / total
  {
    if i < j {
      assert ws[i] >= ws[j];
    }
    MulMono(ws[j], ws[i], reward);
    QuotientMonotone(ws[j] * reward, ws[i] * reward, total);
  }

  /** A later miner's payout exceeds an exact proportion only if its own proportion is not smaller. */
  lemma LaterNotAboveExact(ws: seq<nat>, total: nat, reward: nat, k: nat, i: nat)
    requires total > 0 && k <= i < |ws| && DescendingInts(ws) && ws[k] * reward % total == 0
    ensures Amounts(ws, total, reward)[i] <= ws[k] * reward / total
  {
    AmountNearProportion(ws, total, reward, i);
    ProportionsDescend(ws, total, reward, k, i);
    QuotientFacts(ws[i] * reward, total);
    QuotientFacts(ws[k] * reward, total);
    if ws[i] * reward / total == ws[k] * reward / total {
      assert ws[i] * reward % total == 0;
    }
  }

  /**
   * The amounts of a split arrive in any order. Sorted and credited by position they give every miner
   * the floor or the ceiling of its proportion, the exact proportion where that is whole, and sum to
   * the reward.
   */
  lemma CreditByPosition(ws: seq<nat>, total: nat, reward: nat, outputs: seq<int>)
    requires total > 0 && Cumulative(ws, |ws|) == total && DescendingInts(ws)
    requires multiset(outputs) == multiset(Amounts(ws, total, reward))
    ensures FairCredits(ws, total, reward, SortDescending(outputs))
  {
    hide Sum, Amounts, SortDescending, CreditNear, Cumulative;
    var a, credited := Amounts(ws, total, reward), SortDescending(outputs);
    SortDescendingSorts(outputs);
    SamePermutationLength(a, credited);
    SumPermutes(a, credited);
    SplitConserves(ws, total, reward);
    forall k | 0 <= k < |ws|
      ensures CreditNear(ws[k] * reward, total, credited[k])
    {
      CreditOfPosition(ws, total, reward, a, credited, k);
    }
  }

  lemma CreditOfPosition(ws: seq<nat>, total: nat, reward: nat, a: seq<int>, credited: seq<int>, k: nat)
    requires total > 0 && DescendingInts(ws) && a == Amounts(ws, total, reward)
    requires DescendingInts(credited) && multiset(credited) == multiset(a)
    requires k < |ws| == |credited|
    ensures CreditNear(ws[k] * reward, total, credited[k])
  {
    var floor := ws[k] * reward / total;
    forall i | 0 <= i <= k
      ensures a[i] >= floor
    {
      AmountNearProportion(ws, total, reward, i);
      ProportionsDescend(ws, total, reward, i, k);
    }
    RankAtLeast(a, credited, k, floor);
    forall i | k <= i < |a|
      ensures a[i] <= floor + 1
    {
      AmountNearProportion(ws, total, reward, i);
      ProportionsDescend(ws, total, reward, k, i);
    }
    RankAtMost(a, credited, k, floor + 1);
    if ws[k] * reward % total == 0 {
      forall i | k <= i < |a|
        ensures a[i] <= floor
      {
        LaterNotAboveExact(ws, total, reward, k, i);
      }
      RankAtMost(a, credited, k, floor);
    }
  }

  // ---------------------------------------------------------------------------------------------
  // The split in registers
  // ---------------------------------------------------------------------------------------------

  /** The 128-bit cumulative weight after `k` miners. */
  function CumulativeWeight(ws: seq<Difficulty>, k: nat): Difficulty
    requires k <= |ws|
  {
    if k == 0 then Difficulty(0, 0) else CumulativeWeight(ws, k - 1).Add(ws[k - 1])
  }

  /** `nextValue.Lo` after `k` miners: a wrapping product, a floor division and the low word of it. */
  function NextValue(ws: seq<Difficulty>, total: Difficulty, reward: uint64, k: nat): uint64
    requires k <= |ws| && total.Value() > 0
  {
    if k == 0 then 0 else Wrap(CumulativeWeight(ws, k).Mul64(reward).Value() / total.Value())
  }

  /** What the loop gives miner `i`, the wrapping subtraction included. */
  function RegisterPayout(ws: seq<Difficulty>, total: Difficulty, reward: uint64, i: nat): uint64
    requires total.Value() > 0 && i < |ws|
  {
    Wrap(NextValue(ws, total, reward, i + 1) - NextValue(ws, total, reward, i))
  }

  function RegisterAmounts(ws: seq<Difficulty>, total: Difficulty, reward: uint64): (amounts: seq<uint64>)
    requires total.Value() > 0
    ensures |amounts| == |ws|
  {
    seq(|ws|, i requires 0 <= i < |ws| => RegisterPayout(ws, total, reward, i))
  }

  function Values(ws: seq<Difficulty>): (v: seq<nat>)
    ensures |v| == |ws| && forall i :: 0 <= i < |ws| ==> v[i] == ws[i].Value()
  {
    seq(|ws|, i requires 0 <= i < |ws| => ws[i].Value())
  }

  lemma {:induction false} CumulativeExact(ws: seq<Difficulty>, k: nat)
    requires k <= |ws| && Cumulative(Values(ws), |ws|) < TWO128
    ensures CumulativeWeight(ws, k).Value() == Cumulative(Values(ws), k)
  {
    hide Difficulty.Value, Difficulty.Add;
    if k == 0 {
      ZeroValue();
    } else {
      CumulativeExact(ws, k - 1);
      CumulativeMonotone(Values(ws), k, |ws|);
      InRange(Cumulative(Values(ws), k), TWO128);
    }
  }

  lemma ZeroValue()
    ensures Difficulty(0, 0).Value() == 0
  {
  }

  /** A part of the total times the reward stays in 128 bits, and its quotient within the reward. */
  lemma PartOfReward(c: nat, t: nat, reward: uint64)
    requires c <= t && t > 0 && t * reward < TWO128
    ensures (c * reward) % TWO128 == c * reward
    ensures 0 <= c * reward / t <= reward
  {
    MulMono(c, t, reward);
    InRange(c * reward, TWO128);
    QuotientMonotone(c * reward, t * reward, t);
    QuotientUnique(t * reward, t, reward, 0);
    QuotientFacts(c * reward, t);
  }

  /** Overflow or not: what the loop gives, in terms of the weights as numbers and nothing but remainders. */
  lemma RegistersWrap(ws: seq<Difficulty>, total: Difficulty, reward: uint64, i: nat)
    requires total.Value() > 0 && i < |ws|
    ensures RegisterAmounts(ws, total, reward)[i]
         == (WrappedGiven(ws, total, reward, i + 1) - WrappedGiven(ws, total, reward, i)) % TWO64
  {
    hide Difficulty.Value, CumulativeWeight, Cumulative, Values;
    GivenWraps(ws, total, reward, i);
    GivenWraps(ws, total, reward, i + 1);
  }

  /** What the first `k` miners have been given together, each register wrapping. */
  function WrappedGiven(ws: seq<Difficulty>, total: Difficulty, reward: uint64, k: nat): int
    requires k <= |ws| && total.Value() > 0
  {
    Cumulative(Values(ws), k) % TWO128 * reward % TWO128 / total.Value() % TWO64
  }

  lemma {:induction false} CumulativeWraps(ws: seq<Difficulty>, k: nat)
    requires k <= |ws|
    ensures CumulativeWeight(ws, k).Value() == Cumulative(Values(ws), k) % TWO128
  {
    hide Difficulty.Value, Difficulty.Add;
    if k == 0 {
      ZeroValue();
      InRange(0, TWO128);
    } else {
      CumulativeWraps(ws, k - 1);
      ModOfSum(Cumulative(Values(ws), k - 1), ws[k - 1].Value());
    }
  }

  lemma GivenWraps(ws: seq<Difficulty>, total: Difficulty, reward: uint64, k: nat)
    requires k <= |ws| && total.Value() > 0
    ensures NextValue(ws, total, reward, k) == WrappedGiven(ws, total, reward, k)
  {
    hide Difficulty.Value, Difficulty.Mul64;
    CumulativeWraps(ws, k);
    if k == 0 {
      InRange(0, TWO128);
      QuotientUnique(0, total.Value(), 0, 0);
      InRange(0, TWO64);
    }
  }

  lemma NextValueExact(ws: seq<Difficulty>, total: Difficulty, reward: uint64, k: nat)
    requires k <= |ws| && total.Value() > 0
    requires Cumulative(Values(ws), |ws|) == total.Value() && total.Value() * reward < TWO128
    ensures NextValue(ws, total, reward, k) == GivenBy(Values(ws), total.Value(), reward, k) <= reward
  {
    hide Difficulty.Value, Difficulty.Mul64, CumulativeWeight, Cumulative;
    var t, c := total.Value(), Cumulative(Values(ws), k);
    CumulativeExact(ws, k);
    CumulativeMonotone(Values(ws), k, |ws|);
    PartOfReward(c, t, reward);
    InRange(c * reward / t, TWO64);
    if k == 0 {
      NothingGiven(Values(ws), t, reward);
    }
  }

  lemma NothingGiven(ws: seq<nat>, total: nat, reward: nat)
    requires total > 0
    ensures GivenBy(ws, total, reward, 0) == 0
  {
    QuotientUnique(0, total, 0, 0);
  }

  /** While weight times reward fits 128 bits, no register wraps and no subtraction underflows. */
  lemma RegistersExact(ws: seq<Difficulty>, total: Difficulty, reward: uint64)
    requires total.Value() > 0
    requires Cumulative(Values(ws), |ws|) == total.Value() && total.Value() * reward < TWO128
    ensures RegisterAmounts(ws, total, reward) == Amounts(Values(ws), total.Value(), reward)
  {
    hide Difficulty.Value, RegisterPayout, Payout, Values, Cumulative;
    forall i | 0 <= i < |ws|
      ensures RegisterPayout(ws, total, reward, i) == Payout(Values(ws), total.Value(), reward, i)
    {
      PayoutExact(ws, total, reward, i);
    }
  }

  lemma PayoutExact(ws: seq<Difficulty>, total: Difficulty, reward: uint64, i: nat)
    requires total.Value() > 0 && i < |ws|
    requires Cumulative(Values(ws), |ws|) == total.Value() && total.Value() * reward < TWO128
    ensures RegisterPayout(ws, total, reward, i) == Payout(Values(ws), total.Value(), reward, i)
  {
    hide Difficulty.Value, NextValue, GivenBy, Values, Cumulative;
    NextValueExact(ws, total, reward, i);
    NextValueExact(ws, total, reward, i + 1);
    GivenMonotone(Values(ws), total.Value(), reward, i, i + 1);
    InRange(NextValue(ws, total, reward, i + 1) - NextValue(ws, total, reward, i), TWO64);
  }

  /** Three equal miners and a reward of two: the second one, not the last alone, is paid above its floor. */
  lemma DustNeedNotGoLast()
    ensures var one, three := Difficulty(1, 0), Difficulty(3, 0);
            && RegisterAmounts([one, one, one], three, 2) == [0, 1, 1]
            && !DustGoesLast([1, 1, 1], 3, 2, [0, 1, 1])
  {
    var one, three, ws := Difficulty(1, 0), Difficulty(3, 0), [1, 1, 1];
    assert Values([one, one, one]) == ws;
    assert Cumulative(ws, 0) == 0 && Cumulative(ws, 1) == 1 && Cumulative(ws, 2) == 2 && Cumulative(ws, 3) == 3;
    RegistersExact([one, one, one], three, 2);
    assert Amounts(ws, 3, 2) == [0, 1, 1];
  }
}
