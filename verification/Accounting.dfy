/** From share difficulties to atomic units: what the window, the accounts and the split give together. */
module Accounting {
  import opened GoInt
  import opened Wire
  import opened Difficulties
  import opened Shares
  import opened Window
  import opened Tally
  import opened Sorting
  import opened Split
  import opened Pplns

  /** The accounts of a finished calculation. */
  function AccountsOf(w: Walk): Accounts {
    Finalized(TallyOf(w.credits), |w.visits|)
  }

  // ---------------------------------------------------------------------------------------------
  // Sums over miners
  // ---------------------------------------------------------------------------------------------

  /** An account after bucketing: still the sum of its credits, with its buckets filled. */
  lemma AccountOf(w: Walk, a: Address)
    requires a in AccountsOf(w)
    ensures var r := AccountsOf(w)[a];
            && r.addr == a
            && r.weight.Value() == Of(w.credits, a, InWeight) % TWO128
            && r.shareCount == Of(w.credits, a, InShares) == |r.sharePositions|
            && r.uncleCount == Of(w.credits, a, InUncles) == |r.unclePositions|
            && r.sharePositions == Depths(w.credits, a, false)
            && r.unclePositions == Depths(w.credits, a, true)
            && r.shareBuckets == Histogram(r.sharePositions, |w.visits|)
            && r.uncleBuckets == Histogram(r.unclePositions, |w.visits|)
  {
    TallyAccounts(w.credits);
    hide TallyOf, Of, Depths, Histogram;
  }

  lemma {:induction false} PartOfTotal(credits: seq<Credit>, a: Address, k: Measure)
    ensures Of(credits, a, k) <= Total(credits, k)
  {
    if credits != [] {
      PartOfTotal(credits[..|credits| - 1], a, k);
    }
  }

  /** Summed over the miners in whatever order, a measure of the accounts is its total over the credits. */
  lemma MeasureConserved(w: Walk, order: seq<Address>, k: Measure)
    requires Enumerates(order, AccountsOf(w))
    ensures SumOver(order, w.credits, k) == Total(w.credits, k)
  {
    TallyAccounts(w.credits);
    SumOverAll(order, w.credits, k);
  }

  lemma {:induction false} CumulativeIsSumOver(w: Walk, ms: seq<MinerRecord>, k: nat)
    requires k <= |ms| && Total(w.credits, InWeight) < TWO128
    requires forall i :: 0 <= i < |ms| ==> ms[i].addr in AccountsOf(w) && ms[i] == AccountsOf(w)[ms[i].addr]
    ensures Cumulative(Values(Weights(ms)), k) == SumOver(Addresses(ms)[..k], w.credits, InWeight)
  {
    hide AccountsOf, Difficulty.Value, Of, Total;
    if k > 0 {
      CumulativeIsSumOver(w, ms, k - 1);
      var a := ms[k - 1].addr;
      AccountOf(w, a);
      PartOfTotal(w.credits, a, InWeight);
      InRange(Of(w.credits, a, InWeight), TWO128);
      assert Addresses(ms)[..k][..k - 1] == Addresses(ms)[..k - 1];
    }
  }

  /** The miners' weights sum to the total weight, which is the difficulty of everything in the window. */
  lemma MinersSumToTotal(shares: map<Hash, Share>, tip: Share, mainchainDiff: Difficulty, ms: seq<MinerRecord>)
    requires Raw(WindowOf(shares, tip, mainchainDiff).visits) < TWO128
    requires TopOrder(ms, AccountsOf(WindowOf(shares, tip, mainchainDiff)))
    ensures var w := WindowOf(shares, tip, mainchainDiff);
            Cumulative(Values(Weights(ms)), |ms|) == w.weight.Value() == Raw(w.visits)
  {
    var w := WindowOf(shares, tip, mainchainDiff);
    WeightConserved(shares, tip, mainchainDiff);
    TotalIsCredited(w.credits);
    hide WindowOf, AccountsOf, Raw, Credited, UpToWraps, Cumulative, Difficulty.Value, Total;
    CumulativeIsSumOver(w, ms, |ms|);
    assert Addresses(ms)[..|ms|] == Addresses(ms);
    MeasureConserved(w, Addresses(ms), InWeight);
  }

  // ---------------------------------------------------------------------------------------------
  // Order independence
  // ---------------------------------------------------------------------------------------------

  /** However the map is iterated, the sorted weights are the same list, ties included. */
  lemma WeightsByPosition(accounts: Accounts, ms: seq<MinerRecord>, ns: seq<MinerRecord>)
    requires TopOrder(ms, accounts) && TopOrder(ns, accounts)
    ensures multiset(ms) == multiset(ns)
    ensures Weights(ms) == Weights(ns)
  {
    SameElementsPermute(Addresses(ms), Addresses(ns));
    var record := (a: Address) => if a in accounts then accounts[a] else NewRecord(a);
    MapPermutes(record, Addresses(ms), Addresses(ns));
    assert Sorting.Map(record, Addresses(ms)) == ms && Sorting.Map(record, Addresses(ns)) == ns;
    MapPermutes(WeightOf, ms, ns);
    var v, u := Sorting.Map(WeightOf, ms), Sorting.Map(WeightOf, ns);
    DescendingUnique(v, u);
    forall i | 0 <= i < |ms|
      ensures |ns| == |ms| && ms[i].weight == ns[i].weight
    {
      assert v[i] == u[i];
      ValueInjective(ms[i].weight, ns[i].weight);
    }
  }

  /** The amount list does not depend on map iteration order, for any total and reward. */
  lemma AmountsByPosition(accounts: Accounts, ms: seq<MinerRecord>, ns: seq<MinerRecord>,
                          total: Difficulty, reward: uint64)
    requires TopOrder(ms, accounts) && TopOrder(ns, accounts) && total.Value() > 0
    ensures RegisterAmounts(Weights(ms), total, reward) == RegisterAmounts(Weights(ns), total, reward)
  {
    WeightsByPosition(accounts, ms, ns);
  }

  // ---------------------------------------------------------------------------------------------
  // Conservation, end to end
  // ---------------------------------------------------------------------------------------------

  /** No 128-bit register wraps between the shares and the payouts. */
  predicate Fits(w: Walk, reward: uint64) {
    Raw(w.visits) < TWO128 && w.weight.Value() * reward < TWO128
  }

  /**
   * For every share map, tip, cap and reward: the payouts are the exact split, sum to the reward, the
   * first k of them sum to the floor of their proportion, and each is its proportion rounded down or up.
   */
  lemma PayoutConserves(shares: map<Hash, Share>, tip: Share, mainchainDiff: Difficulty, reward: uint64,
                        ms: seq<MinerRecord>)
    requires Fits(WindowOf(shares, tip, mainchainDiff), reward)
    requires WindowOf(shares, tip, mainchainDiff).weight.Value() > 0
    requires TopOrder(ms, AccountsOf(WindowOf(shares, tip, mainchainDiff)))
    ensures var total := WindowOf(shares, tip, mainchainDiff).weight;
            ExactSplit(Values(Weights(ms)), total.Value(), reward, RegisterAmounts(Weights(ms), total, reward))
  {
    var w := WindowOf(shares, tip, mainchainDiff);
    hide WindowOf, Raw, Cumulative, Difficulty.Value, Amounts, RegisterAmounts, TopOrder, ExactSplit;
    MinersSumToTotal(shares, tip, mainchainDiff, ms);
    RegistersExact(Weights(ms), w.weight, reward);
    AmountsExact(Values(Weights(ms)), w.weight.Value(), reward);
  }

  /** In a window the last miner gets all the dust exactly if that of the others makes no whole atomic unit. */
  lemma WindowDust(shares: map<Hash, Share>, tip: Share, mainchainDiff: Difficulty, reward: uint64,
                   ms: seq<MinerRecord>)
    requires Fits(WindowOf(shares, tip, mainchainDiff), reward)
    requires WindowOf(shares, tip, mainchainDiff).weight.Value() > 0
    requires TopOrder(ms, AccountsOf(WindowOf(shares, tip, mainchainDiff)))
    ensures var (ws, total) := (Values(Weights(ms)), WindowOf(shares, tip, mainchainDiff).weight);
            ms != [] && (DustGoesLast(ws, total.Value(), reward, RegisterAmounts(Weights(ms), total, reward))
                         <==> Dust(ws, total.Value(), reward, |ms| - 1) < total.Value())
  {
    var w := WindowOf(shares, tip, mainchainDiff);
    hide WindowOf, Raw, Difficulty.Value, Amounts, RegisterAmounts, TopOrder, DustGoesLast;
    MinersSumToTotal(shares, tip, mainchainDiff, ms);
    RegistersExact(Weights(ms), w.weight, reward);
    DustLastExactly(Values(Weights(ms)), w.weight.Value(), reward);
  }

  lemma WeightsDescend(ms: seq<MinerRecord>, accounts: Accounts)
    requires TopOrder(ms, accounts)
    ensures DescendingInts(Values(Weights(ms)))
  {
    forall i, j | 0 <= i < j < |ms|
      ensures Values(Weights(ms))[i] >= Values(Weights(ms))[j]
    {
      assert WeightOf(ms[i]) >= WeightOf(ms[j]);
    }
  }

  /**
   * The coinbase of a found block holds the amounts of one iteration order of the map, in any order; the
   * snapshot lists the miners in another. Sorted and credited by position, every miner of the snapshot
   * gets its proportion rounded down or up, exactly where it is whole, and the credits sum to the reward.
   */
  lemma SnapshotCredits(shares: map<Hash, Share>, tip: Share, mainchainDiff: Difficulty, reward: uint64,
                        coinbase: seq<MinerRecord>, snapshot: seq<MinerRecord>, outputs: seq<int>)
    requires Fits(WindowOf(shares, tip, mainchainDiff), reward)
    requires WindowOf(shares, tip, mainchainDiff).weight.Value() > 0
    requires TopOrder(coinbase, AccountsOf(WindowOf(shares, tip, mainchainDiff)))
    requires TopOrder(snapshot, AccountsOf(WindowOf(shares, tip, mainchainDiff)))
    requires multiset(outputs)
          == multiset(RegisterAmounts(Weights(coinbase), WindowOf(shares, tip, mainchainDiff).weight, reward))
    ensures FairCredits(Values(Weights(snapshot)), WindowOf(shares, tip, mainchainDiff).weight.Value(), reward,
                        SortDescending(outputs))
  {
    var w := WindowOf(shares, tip, mainchainDiff);
    var ws, t := Values(Weights(snapshot)), w.weight.Value();
    hide WindowOf, AccountsOf, Raw, Cumulative, Difficulty.Value, Amounts, RegisterAmounts, TopOrder, FairCredits,
         SortDescending;
    AmountsByPosition(AccountsOf(w), coinbase, snapshot, w.weight, reward);
    MinersSumToTotal(shares, tip, mainchainDiff, snapshot);
    RegistersExact(Weights(snapshot), w.weight, reward);
    WeightsDescend(snapshot, AccountsOf(w));
    CreditByPosition(ws, t, reward, outputs);
  }

  // ---------------------------------------------------------------------------------------------
  // Counts and positions
  // ---------------------------------------------------------------------------------------------

  /** Credits of a walk: one main credit per visit, one per counted uncle, all at depths inside it. */
  predicate WellCounted(w: Walk) {
    && Total(w.credits, InShares) == |w.visits|
    && Total(w.credits, InUncles) == UnclesOf(w.visits)
    && (forall c | c in w.credits :: c.depth < |w.visits|)
    && (forall d :: 0 <= d < |w.visits| ==> d in Depths(w.credits, w.visits[d].share.minerWallet, false))
  }

  predicate ScanCounted(w: Walk, s: Scan) {
    && Total(s.credits, InShares) == |w.visits|
    && Total(s.credits, InUncles) == UnclesOf(w.visits) + |s.counted|
    && (forall c | c in s.credits :: c.depth <= |w.visits|)
    && (forall d :: 0 <= d < |w.visits| ==> d in Depths(s.credits, w.visits[d].share.minerWallet, false))
  }

  lemma TotalAppend(credits: seq<Credit>, c: Credit, a: Address)
    ensures forall k: Measure :: Total(credits + [c], k) == Total(credits, k) + Amount(c, k)
    ensures Depths(credits + [c], a, false)
         == Depths(credits, a, false) + (if c.addr == a && !c.isUncle then [c.depth] else [])
  {
    assert (credits + [c])[..|credits|] == credits;
  }

  lemma {:induction false} ScanUnclesCounted(ctx: Context, cur: Share, w: Walk, k: nat)
    requires WellCounted(w) && k <= |cur.uncles|
    ensures ScanCounted(w, ScanUncles(ctx, cur, w, k))
  {
    hide Counts, UncleWeight, UnclePenalty, Depths, Total, UnclesOf;
    if k > 0 {
      ScanUnclesCounted(ctx, cur, w, k - 1);
      var s, id := ScanUncles(ctx, cur, w, k - 1), cur.uncles[k - 1];
      if Counts(ctx, s.weight, id) {
        var uncle := ScanUncleCredit(ctx, s, id, |w.visits|);
        forall d | 0 <= d < |w.visits|
          ensures Depths(s.credits + [uncle], w.visits[d].share.minerWallet, false)
               == Depths(s.credits, w.visits[d].share.minerWallet, false) + []
        {
          TotalAppend(s.credits, uncle, w.visits[d].share.minerWallet);
        }
        TotalAppend(s.credits, uncle, cur.minerWallet);
      }
    }
  }

  lemma ScanUncleCredit(ctx: Context, s: Scan, id: Hash, depth: nat) returns (c: Credit)
    requires Counts(ctx, s.weight, id)
    ensures ScanUncle(ctx, s, id, depth).credits == s.credits + [c] && c.isUncle && c.depth == depth
    ensures |ScanUncle(ctx, s, id, depth).counted| == |s.counted| + 1
  {
    c := Credit(ctx.shares[id].minerWallet, UncleWeight(ctx.shares[id]), true, depth);
  }

  lemma VisitCounted(ctx: Context, cur: Share, w: Walk)
    requires WellCounted(w)
    ensures WellCounted(VisitShare(ctx, cur, w))
  {
    hide ScanUncles, Depths, Total, UnclesOf;
    var s := ScanUncles(ctx, cur, w, |cur.uncles|);
    ScanUnclesCounted(ctx, cur, w, |cur.uncles|);
    var c, v := Credit(cur.minerWallet, s.curWeight, false, |w.visits|), Visit(cur, s.counted);
    UnclesAppend(w.visits, v);
    TotalAppend(s.credits, c, cur.minerWallet);
    forall d | 0 <= d < |w.visits|
      ensures d in Depths(s.credits + [c], w.visits[d].share.minerWallet, false)
    {
      TotalAppend(s.credits, c, w.visits[d].share.minerWallet);
    }
  }

  lemma {:induction false} WalkCounted(ctx: Context, cur: Share, w: Walk)
    requires |w.visits| < PPLNS_WINDOW && WellCounted(w)
    ensures WellCounted(WalkFrom(ctx, cur, w))
    decreases PPLNS_WINDOW - |w.visits|
  {
    hide WellCounted, VisitShare;
    var w' := VisitShare(ctx, cur, w);
    VisitCounted(ctx, cur, w);
    VisitCount(ctx, cur, w);
    if !Stops(ctx, cur, w') {
      WalkCounted(ctx, ctx.shares[cur.parent], w');
    }
  }

  lemma {:induction false} DepthsAreCredits(credits: seq<Credit>, a: Address, uncles: bool, bound: nat)
    requires forall c | c in credits :: c.depth < bound
    ensures forall d | d in Depths(credits, a, uncles) :: d < bound
  {
    if credits != [] {
      DepthsAreCredits(credits[..|credits| - 1], a, uncles, bound);
    }
  }

  lemma {:induction false} FoundInBucket(positions: seq<nat>, size: nat, d: nat)
    requires d in positions
    ensures CountIn(positions, size, Bucket(d, size)) >= 1
  {
    var last := |positions| - 1;
    if positions[last] != d {
      FoundInBucket(positions[..last], size, d);
    }
  }

  function ShareCounts(ms: seq<MinerRecord>): (r: seq<nat>)
    ensures |r| == |ms| && forall i :: 0 <= i < |ms| ==> r[i] == ms[i].shareCount
  {
    seq(|ms|, i requires 0 <= i < |ms| => ms[i].shareCount)
  }

  function UncleCounts(ms: seq<MinerRecord>): (r: seq<nat>)
    ensures |r| == |ms| && forall i :: 0 <= i < |ms| ==> r[i] == ms[i].uncleCount
  {
    seq(|ms|, i requires 0 <= i < |ms| => ms[i].uncleCount)
  }

  lemma {:induction false} CountsAreSums(w: Walk, ms: seq<MinerRecord>, k: nat)
    requires k <= |ms|
    requires forall i :: 0 <= i < |ms| ==> ms[i].addr in AccountsOf(w) && ms[i] == AccountsOf(w)[ms[i].addr]
    ensures Cumulative(ShareCounts(ms), k) == SumOver(Addresses(ms)[..k], w.credits, InShares)
    ensures Cumulative(UncleCounts(ms), k) == SumOver(Addresses(ms)[..k], w.credits, InUncles)
  {
    hide AccountsOf, Of;
    if k > 0 {
      CountsAreSums(w, ms, k - 1);
      AccountOf(w, ms[k - 1].addr);
      assert Addresses(ms)[..k][..k - 1] == Addresses(ms)[..k - 1];
    }
  }

  /** Every window credits one main share per visit and one uncle per counted reference. */
  lemma WindowCounted(shares: map<Hash, Share>, tip: Share, mainchainDiff: Difficulty)
    ensures WellCounted(WindowOf(shares, tip, mainchainDiff))
  {
    hide WalkFrom;
    WalkCounted(Context(shares, tip, mainchainDiff.Mul64(2)), tip, EmptyWalk());
  }

  lemma TopOrderAccounts(ms: seq<MinerRecord>, accounts: Accounts)
    requires TopOrder(ms, accounts)
    ensures Enumerates(Addresses(ms), accounts)
    ensures forall i :: 0 <= i < |ms| ==> ms[i].addr in accounts && ms[i] == accounts[ms[i].addr]
  {
    assert forall i :: 0 <= i < |ms| ==> Addresses(ms)[i] in accounts;
  }

  /** The miners' counts sum to the shares visited and the uncles counted, in any order of the map. */
  lemma CountsConserved(shares: map<Hash, Share>, tip: Share, mainchainDiff: Difficulty, ms: seq<MinerRecord>)
    requires TopOrder(ms, AccountsOf(WindowOf(shares, tip, mainchainDiff)))
    ensures var w := WindowOf(shares, tip, mainchainDiff);
            && Cumulative(ShareCounts(ms), |ms|) == |w.visits|
            && Cumulative(UncleCounts(ms), |ms|) == UnclesOf(w.visits)
  {
    var w := WindowOf(shares, tip, mainchainDiff);
    hide WindowOf, AccountsOf, UnclesOf, Total, Cumulative, SumOver, TopOrder, Enumerates, ShareCounts, UncleCounts;
    WindowCounted(shares, tip, mainchainDiff);
    TopOrderAccounts(ms, AccountsOf(w));
    CountsAreSums(w, ms, |ms|);
    assert Addresses(ms)[..|ms|] == Addresses(ms);
    MeasureConserved(w, Addresses(ms), InShares);
    MeasureConserved(w, Addresses(ms), InUncles);
  }

  /**
   * Every recorded depth lies inside the window, so buckets are proportional without the clamp, and a
   * miner's buckets hold exactly its counts.
   */
  lemma BucketsConserved(shares: map<Hash, Share>, tip: Share, mainchainDiff: Difficulty, a: Address)
    requires a in AccountsOf(WindowOf(shares, tip, mainchainDiff))
    ensures var w := WindowOf(shares, tip, mainchainDiff);
            var r := AccountsOf(w)[a];
            && (forall d | d in r.sharePositions :: d < |w.visits|)
            && (forall d | d in r.unclePositions :: d < |w.visits|)
            && Sum(r.shareBuckets) == r.shareCount && Sum(r.uncleBuckets) == r.uncleCount
  {
    var w := WindowOf(shares, tip, mainchainDiff);
    WindowCounted(shares, tip, mainchainDiff);
    hide AccountsOf, WindowOf, Depths, Histogram, Sum;
    AccountOf(w, a);
    var r := AccountsOf(w)[a];
    DepthsAreCredits(w.credits, a, false, |w.visits|);
    DepthsAreCredits(w.credits, a, true, |w.visits|);
    HistogramConserves(r.sharePositions, |w.visits|);
    HistogramConserves(r.unclePositions, |w.visits|);
  }

  /** With more than one share, the tip's miner shows in the first bucket, the oldest's in the last. */
  lemma BucketEndsReached(shares: map<Hash, Share>, tip: Share, mainchainDiff: Difficulty)
    ensures var w := WindowOf(shares, tip, mainchainDiff);
            var n := |w.visits|;
            n > 1 ==>
              var (newest, oldest) := (w.visits[0].share.minerWallet, w.visits[n - 1].share.minerWallet);
              && newest in AccountsOf(w) && AccountsOf(w)[newest].shareBuckets[0] >= 1
              && oldest in AccountsOf(w) && AccountsOf(w)[oldest].shareBuckets[POSITION_BUCKETS - 1] >= 1
  {
    var w := WindowOf(shares, tip, mainchainDiff);
    hide WellCounted, WindowOf, AccountsOf;
    WindowCounted(shares, tip, mainchainDiff);
    if |w.visits| > 1 {
      EndReached(w, 0, 0);
      EndReached(w, |w.visits| - 1, POSITION_BUCKETS - 1);
    }
  }

  lemma EndReached(w: Walk, d: nat, b: nat)
    requires WellCounted(w) && d < |w.visits| && |w.visits| > 1
    requires (d == 0 && b == 0) || (d == |w.visits| - 1 && b == POSITION_BUCKETS - 1)
    ensures var a := w.visits[d].share.minerWallet;
            a in AccountsOf(w) && AccountsOf(w)[a].shareBuckets[b] >= 1
  {
    var a := w.visits[d].share.minerWallet;
    DepthOwner(w.credits, a, d);
    TallyAccounts(w.credits);
    hide Depths, Histogram, Bucket, TallyOf;
    AccountOf(w, a);
    BucketInside(d, |w.visits|);
    FoundInBucket(AccountsOf(w)[a].sharePositions, |w.visits|, d);
    HistogramCounts(AccountsOf(w)[a].sharePositions, |w.visits|, b);
  }

  lemma {:induction false} DepthOwner(credits: seq<Credit>, a: Address, d: nat)
    requires d in Depths(credits, a, false)
    ensures exists c | c in credits :: c.addr == a
  {
    var last := |credits| - 1;
    if credits[last].addr != a {
      DepthOwner(credits[..last], a, d);
      var c :| c in credits[..last] && c.addr == a;
      assert c in credits;
    } else {
      assert credits[last] in credits;
    }
  }
}
