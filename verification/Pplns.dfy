/** The PPLNS calculation as it runs: a result object whose miner accounts are updated in place. */
module Pplns {
  import opened GoInt
  import opened Wire
  import opened Difficulties
  import opened Shares
  import opened Window
  import opened Tally
  import opened Sorting
  import opened Split

  /** One miner's account in the result's map. */
  class MinerWeight {
    var addr: Address
    var weight: Difficulty
    var shareCount: nat
    var uncleCount: nat
    var shareBuckets: seq<nat>
    var uncleBuckets: seq<nat>
    var sharePositions: seq<nat>
    var unclePositions: seq<nat>

    constructor (addr: Address)
      ensures Record() == NewRecord(addr)
    {
      this.addr := addr;
      weight, shareCount, uncleCount := Difficulty(0, 0), 0, 0;
      shareBuckets, uncleBuckets := NoBuckets(), NoBuckets();
      sharePositions, unclePositions := [], [];
    }

    /** The copy `*mw`. */
    function Record(): MinerRecord
      reads this
    {
      MinerRecord(addr, weight, shareCount, uncleCount, shareBuckets, uncleBuckets, sharePositions, unclePositions)
    }

    method Add(weight: Difficulty, isUncle: bool, depth: nat)
      modifies this`weight, this`shareCount, this`uncleCount, this`sharePositions, this`unclePositions
      ensures Record() == Credit1(old(Record()), Credit(old(addr), weight, isUncle, depth))
    {
      this.weight := this.weight.Add(weight);
      if isUncle {
        uncleCount := uncleCount + 1;
        unclePositions := unclePositions + [depth];
      } else {
        shareCount := shareCount + 1;
        sharePositions := sharePositions + [depth];
      }
    }

    /** Counts the recorded depths into buckets, for a window of `size` shares. */
    method FillBuckets(size: nat)
      requires |shareBuckets| == |uncleBuckets| == POSITION_BUCKETS
      modifies this`shareBuckets, this`uncleBuckets
      ensures Record() == Bucketed(old(Record()), size)
      ensures |shareBuckets| == |uncleBuckets| == POSITION_BUCKETS
    {
      hide Histogram;
      shareBuckets := CountPositions(shareBuckets, sharePositions, size);
      uncleBuckets := CountPositions(uncleBuckets, unclePositions, size);
    }
  }

  /** Clears the counters, then counts every position into its bucket. */
  method CountPositions(counters: seq<nat>, positions: seq<nat>, size: nat) returns (buckets: seq<nat>)
    requires |counters| == POSITION_BUCKETS
    ensures buckets == Histogram(positions, size)
  {
    buckets := counters;
    for i := 0 to |buckets|
      invariant |buckets| == POSITION_BUCKETS
      invariant forall k :: 0 <= k < i ==> buckets[k] == 0
    {
      buckets := buckets[i := 0];
    }
    assert buckets == NoBuckets();
    for i := 0 to |positions|
      invariant buckets == Histogram(positions[..i], size)
    {
      assert positions[..i + 1][..i] == positions[..i];
      var bucket := 0;
      if size > 1 {
        bucket := positions[i] * (POSITION_BUCKETS - 1) / (size - 1);
      }
      if bucket >= POSITION_BUCKETS {
        bucket := POSITION_BUCKETS - 1;
      }
      assert bucket == Bucket(positions[i], size);
      buckets := buckets[bucket := buckets[bucket] + 1];
    }
    assert positions[..|positions|] == positions;
  }

  function Addresses(ms: seq<MinerRecord>): (r: seq<Address>)
    ensures |r| == |ms| && forall i :: 0 <= i < |ms| ==> r[i] == ms[i].addr
  {
    seq(|ms|, i requires 0 <= i < |ms| => ms[i].addr)
  }

  function Weights(ms: seq<MinerRecord>): (r: seq<Difficulty>)
    ensures |r| == |ms| && forall i :: 0 <= i < |ms| ==> r[i] == ms[i].weight
  {
    seq(|ms|, i requires 0 <= i < |ms| => ms[i].weight)
  }

  function Heavier(x: MinerRecord, y: MinerRecord): bool {
    x.weight.Cmp(y.weight) > 0
  }

  function WeightOf(x: MinerRecord): int {
    x.weight.Value()
  }

  /** All accounts, each once, by descending weight; ties stand in any order. */
  ghost predicate TopOrder(ms: seq<MinerRecord>, accounts: Accounts) {
    && Enumerates(Addresses(ms), accounts)
    && (forall i :: 0 <= i < |ms| ==> ms[i] == accounts[ms[i].addr])
    && Sorting.Descending(ms, WeightOf)
  }

  lemma AddressesPermute(s: seq<MinerRecord>, t: seq<MinerRecord>)
    requires multiset(s) == multiset(t)
    ensures multiset(Addresses(s)) == multiset(Addresses(t))
  {
    var f := (m: MinerRecord) => m.addr;
    MapPermutes(f, s, t);
    assert Addresses(s) == Map(f, s) && Addresses(t) == Map(f, t);
  }

  lemma {:induction false} PermutationNoRepeats<T>(s: seq<T>, t: seq<T>)
    requires multiset(s) == multiset(t) && NoRepeats(s)
    ensures NoRepeats(t)
    decreases |s|
  {
    SamePermutationLength(s, t);
    if s != [] {
      var j := MatchHead(s, t);
      PermutationNoRepeats(s[1..], Without(t, j));
      forall p, q | 0 <= p < q < |t|
        ensures t[p] != t[q]
      {
        HeadOnlyOnce(s, t, j);
        if p != j && q != j {
          var w := Without(t, j);
          assert w[if p < j then p else p - 1] == t[p] && w[if q < j then q else q - 1] == t[q];
        }
      }
    }
  }

  lemma HeadOnlyOnce<T>(s: seq<T>, t: seq<T>, j: nat)
    requires s != [] && NoRepeats(s) && j < |t| && t[j] == s[0] && multiset(s[1..]) == multiset(Without(t, j))
    ensures forall k :: 0 <= k < |t| && k != j ==> t[k] != t[j]
  {
    forall k | 0 <= k < |t| && k != j
      ensures t[k] != t[j]
    {
      assert Without(t, j)[if k < j then k else k - 1] == t[k];
      assert t[k] in multiset(Without(t, j));
      assert t[k] in s[1..];
    }
  }

  /** Every account sits under its own address, so no two keys share an object. */
  ghost predicate Owned(m: map<Address, MinerWeight>)
    reads m.Values
  {
    forall a | a in m ::
      m[a].addr == a && |m[a].shareBuckets| == |m[a].uncleBuckets| == POSITION_BUCKETS
  }

  ghost function View(m: map<Address, MinerWeight>): Accounts
    reads m.Values
  {
    map a | a in m :: m[a].Record()
  }

  class PPLNSResult {
    var shares: map<Address, MinerWeight>
    var totalWeight: Difficulty
    var blocksIncluded: nat
    var unclesIncluded: nat
    var tipHeight: uint64
    var bottomHeight: uint64
    var windowDuration: int

    constructor (tipHeight: uint64)
      ensures shares == map[] && this.tipHeight == tipHeight
      ensures blocksIncluded == unclesIncluded == 0
    {
      shares, this.tipHeight := map[], tipHeight;
      totalWeight, blocksIncluded, unclesIncluded := Difficulty(0, 0), 0, 0;
      bottomHeight, windowDuration := 0, 0;
    }

    method AddWeight(addr: Address, weight: Difficulty, isUncle: bool, depth: nat)
      requires Owned(shares)
      modifies this`shares, shares.Values
      ensures Owned(shares) && fresh(shares.Values - old(shares.Values))
      ensures View(shares) == AddCredit(old(View(shares)), Credit(addr, weight, isUncle, depth))
    {
      hide Credit1;
      if addr !in shares {
        var mw := new MinerWeight(addr);
        shares := shares[addr := mw];
      }
      var mw := shares[addr];
      mw.Add(weight, isUncle, depth);
    }

    /** Buckets every account, iterating over the map in any order. */
    method FinalizeBuckets(actualWindowSize: nat)
      requires Owned(shares)
      modifies shares.Values`shareBuckets, shares.Values`uncleBuckets
      ensures Owned(shares)
      ensures View(shares) == Finalized(old(View(shares)), if actualWindowSize == 0 then 1 else actualWindowSize)
    {
      hide Bucketed;
      var size := if actualWindowSize <= 0 then 1 else actualWindowSize;
      var rest := shares.Keys;
      while rest != {}
        invariant rest <= shares.Keys && Owned(shares)
        invariant forall a | a in shares ::
          shares[a].Record() == if a in rest then old(shares[a].Record()) else Bucketed(old(shares[a].Record()), size)
      {
        var a :| a in rest;
        shares[a].FillBuckets(size);
        rest := rest - {a};
      }
    }

    /** Copies all accounts, in whatever order the runtime yields them. */
    method Collect() returns (collected: seq<MinerRecord>)
      requires Owned(shares)
      ensures Collects(collected, shares, {}) && |collected| == |shares|
    {
      hide Collects;
      var rest := shares.Keys;
      collected := [];
      NothingCollected(shares);
      while rest != {}
        invariant rest <= shares.Keys && |rest| + |collected| == |shares|
        invariant Collects(collected, shares, rest)
      {
        var a :| a in rest;
        CollectStep(collected, shares, rest, a);
        collected := collected + [shares[a].Record()];
        rest := rest - {a};
      }
    }

    /** The `n` heaviest miners; slicing up to a negative `n` panics. */
    method TopMiners(n: int) returns (top: Outcome<seq<MinerRecord>>)
      requires Owned(shares)
      ensures n < 0 <==> top.Panicked?
      ensures n >= 0 <==> top.Ok?
      ensures n >= |shares| ==> TopOrder(top.value, View(shares))
      ensures n >= 0 ==>
        exists all :: TopOrder(all, View(shares)) && top.value == all[..if n < |all| then n else |all|]
    {
      hide Collects, TopOrder, Owned, View;
      var collected := Collect();
      var miners := new MinerRecord[|collected|](i requires 0 <= i < |collected| => collected[i]);
      assert miners[..] == collected;
      HeavierIsGreater();
      ExchangeSort(miners, Heavier, WeightOf);
      SortedIsTopOrder(collected, miners[..], shares);
      var m := if n > miners.Length then miners.Length else n;
      if m < 0 {
        return Panicked;
      }
      top := Ok(miners[..m]);
      assert top.value == miners[..][..m];
      if m == miners.Length {
        assert top.value == miners[..];
      }
    }

    method GetOrderedMiners() returns (addresses: seq<Address>, ghost ms: seq<MinerRecord>)
      requires Owned(shares)
      ensures TopOrder(ms, View(shares)) && addresses == Addresses(ms)
    {
      var top := TopMiners(|shares|);
      var miners := top.value;
      ms := miners;
      addresses := [];
      for i := 0 to |miners|
        invariant addresses == Addresses(miners)[..i]
      {
        addresses := addresses + [miners[i].addr];
      }
    }

    /** What each miner gets of a block reward; nothing at all while the window has no weight. */
    method EstimatedPayout(blockReward: uint64) returns (payouts: map<Address, uint64>, ghost ms: seq<MinerRecord>)
      requires Owned(shares)
      ensures TopOrder(ms, View(shares))
      ensures totalWeight.Value() == 0 ==> payouts == map[]
      ensures totalWeight.Value() != 0 ==> Pays(payouts, ms, RegisterAmounts(Weights(ms), totalWeight, blockReward))
    {
      hide TopOrder, Pays, RegisterAmounts, Owned, View;
      var top := TopMiners(|shares|);
      var miners := top.value;
      ms := miners;
      payouts := map[];
      ZeroIsZero(totalWeight);
      if totalWeight.IsZero() {
        return;
      }
      var amounts := SplitReward(Weights(miners), totalWeight, blockReward);
      NoRepeatedMiners(ms, View(shares));
      payouts := AssignAmounts(miners, amounts);
    }

    /** The same amounts as a list in coinbase order. */
    method EstimatedPayoutOrdered(blockReward: uint64)
      returns (result: seq<(Address, uint64)>, ghost ms: seq<MinerRecord>)
      requires Owned(shares)
      ensures TopOrder(ms, View(shares))
      ensures totalWeight.Value() == 0 ==> result == []
      ensures totalWeight.Value() != 0 ==>
        && |result| == |ms|
        && forall i :: 0 <= i < |ms| ==>
             result[i] == (ms[i].addr, RegisterAmounts(Weights(ms), totalWeight, blockReward)[i])
    {
      hide TopOrder, RegisterAmounts, Owned, View;
      var top := TopMiners(|shares|);
      var miners := top.value;
      ms := miners;
      result := [];
      ZeroIsZero(totalWeight);
      if totalWeight.IsZero() {
        return;
      }
      var amounts := SplitReward(Weights(miners), totalWeight, blockReward);
      for i := 0 to |miners|
        invariant |result| == i
        invariant forall k :: 0 <= k < i ==> result[k] == (miners[k].addr, amounts[k])
      {
        result := result + [(miners[i].addr, amounts[i])];
      }
    }
  }

  lemma ZeroIsZero(d: Difficulty)
    ensures d.IsZero() <==> d.Value() == 0
  {
  }

  lemma NoRepeatedMiners(ms: seq<MinerRecord>, accounts: Accounts)
    requires TopOrder(ms, accounts)
    ensures NoRepeats(Addresses(ms))
  {
  }

  /** Every miner in the list is paid the amount at its position, and nobody else is paid. */
  ghost predicate Pays(payouts: map<Address, uint64>, ms: seq<MinerRecord>, amounts: seq<uint64>)
    requires |amounts| == |ms|
  {
    && (forall a :: a in payouts <==> a in Addresses(ms))
    && forall i :: 0 <= i < |ms| ==> ms[i].addr in payouts && payouts[ms[i].addr] == amounts[i]
  }

  method AssignAmounts(miners: seq<MinerRecord>, amounts: seq<uint64>) returns (payouts: map<Address, uint64>)
    requires |amounts| == |miners| && NoRepeats(Addresses(miners))
    ensures Pays(payouts, miners, amounts)
  {
    payouts := map[];
    for i := 0 to |miners|
      invariant forall a :: a in payouts <==> a in Addresses(miners)[..i]
      invariant forall k :: 0 <= k < i ==>
        Addresses(miners)[k] in payouts && payouts[Addresses(miners)[k]] == amounts[k]
    {
      assert Addresses(miners)[..i + 1] == Addresses(miners)[..i] + [miners[i].addr];
      payouts := payouts[miners[i].addr := amounts[i]];
    }
    assert Addresses(miners)[..|miners|] == Addresses(miners);
  }

  /** The loop of both payout functions: cumulative weight, floor of its proportion, difference. */
  method SplitReward(weights: seq<Difficulty>, totalWeight: Difficulty, blockReward: uint64)
    returns (amounts: seq<uint64>)
    requires totalWeight.Value() > 0
    ensures amounts == RegisterAmounts(weights, totalWeight, blockReward)
  {
    hide Difficulty.Value, Difficulty.Add, Difficulty.Mul64, RegisterPayout, CumulativeWeight, NextValue;
    amounts := [];
    var wCumulative, rewardGiven: uint64 := Difficulty(0, 0), 0;
    PayoutStart(weights, totalWeight, blockReward);
    for i := 0 to |weights|
      invariant |amounts| == i
      invariant wCumulative == CumulativeWeight(weights, i)
      invariant rewardGiven == NextValue(weights, totalWeight, blockReward, i)
      invariant forall k :: 0 <= k < i ==> amounts[k] == RegisterPayout(weights, totalWeight, blockReward, k)
    {
      wCumulative := wCumulative.Add(weights[i]);
      var nextValue := Div(wCumulative.Mul64(blockReward), totalWeight);
      LowWord(nextValue);
      PayoutStep(weights, totalWeight, blockReward, i);
      amounts := amounts + [Wrap(nextValue.Lo - rewardGiven)];
      rewardGiven := nextValue.Lo;
    }
  }

  lemma LowWord(d: Difficulty)
    ensures d.Lo == Wrap(d.Value())
  {
    QuotientUnique(d.Value(), TWO64, d.Hi, d.Lo);
  }

  lemma PayoutStart(ws: seq<Difficulty>, total: Difficulty, reward: uint64)
    requires total.Value() > 0
    ensures CumulativeWeight(ws, 0) == Difficulty(0, 0) && NextValue(ws, total, reward, 0) == 0
  {
  }

  lemma PayoutStep(ws: seq<Difficulty>, total: Difficulty, reward: uint64, i: nat)
    requires i < |ws| && total.Value() > 0
    ensures CumulativeWeight(ws, i + 1) == CumulativeWeight(ws, i).Add(ws[i])
    ensures NextValue(ws, total, reward, i + 1)
         == Wrap(CumulativeWeight(ws, i + 1).Mul64(reward).Value() / total.Value())
    ensures RegisterPayout(ws, total, reward, i)
         == Wrap(NextValue(ws, total, reward, i + 1) - NextValue(ws, total, reward, i))
  {
  }

  /** The copies gathered so far: one for every address outside `rest`. */
  ghost predicate Collects(collected: seq<MinerRecord>, shares: map<Address, MinerWeight>, rest: set<Address>)
    reads shares.Values
  {
    && NoRepeats(Addresses(collected))
    && (forall a :: a in Addresses(collected) <==> a in shares && a !in rest)
    && forall i :: 0 <= i < |collected| ==>
         collected[i].addr in shares && collected[i] == shares[collected[i].addr].Record()
  }

  lemma HeavierIsGreater()
    ensures forall x, y :: Heavier(x, y) <==> WeightOf(x) > WeightOf(y)
  {
  }

  lemma NothingCollected(shares: map<Address, MinerWeight>)
    ensures Collects([], shares, shares.Keys)
  {
  }

  lemma CollectStep(collected: seq<MinerRecord>, shares: map<Address, MinerWeight>, rest: set<Address>, a: Address)
    requires Owned(shares) && Collects(collected, shares, rest) && a in rest && a in shares
    ensures Collects(collected + [shares[a].Record()], shares, rest - {a})
  {
    var more := collected + [shares[a].Record()];
    assert Addresses(more) == Addresses(collected) + [a];
    assert a !in Addresses(collected);
  }

  lemma SortedIsTopOrder(collected: seq<MinerRecord>, sorted: seq<MinerRecord>, shares: map<Address, MinerWeight>)
    requires Owned(shares) && Collects(collected, shares, {})
    requires multiset(sorted) == multiset(collected) && Sorting.Descending(sorted, WeightOf)
    ensures TopOrder(sorted, View(shares)) && |sorted| == |collected|
  {
    SamePermutationLength(sorted, collected);
    AddressesPermute(collected, sorted);
    PermutationNoRepeats(Addresses(collected), Addresses(sorted));
    forall a
      ensures a in Addresses(sorted) <==> a in shares
    {
      assert a in Addresses(sorted) <==> a in multiset(Addresses(sorted));
      assert a in Addresses(collected) <==> a in multiset(Addresses(collected));
    }
    forall i | 0 <= i < |sorted|
      ensures sorted[i].addr in shares && sorted[i] == shares[sorted[i].addr].Record()
    {
      assert sorted[i] in multiset(collected);
      assert sorted[i] in collected;
    }
  }

  /** Everything a finished walk determines of the result. */
  ghost predicate ReportsWindow(r: PPLNSResult, tip: Share, w: Walk)
    requires w.visits != []
    reads r, r.shares.Values
  {
    var last := w.visits[|w.visits| - 1].share;
    && Owned(r.shares)
    && View(r.shares) == Finalized(TallyOf(w.credits), |w.visits|)
    && r.totalWeight == w.weight
    && r.blocksIncluded == |w.visits|
    && r.unclesIncluded == UnclesOf(w.visits)
    && r.tipHeight == tip.sidechainHeight
    && r.bottomHeight == last.sidechainHeight
    && r.windowDuration == ToInt(tip.timestamp - last.timestamp)
  }

  /** The result's accounts are those of the scan, and its running weights too. */
  ghost predicate Scanned(result: PPLNSResult, s: Scan, curWeight: Difficulty, weight: Difficulty)
    reads result, result.shares.Values
  {
    Owned(result.shares) && View(result.shares) == TallyOf(s.credits) && curWeight == s.curWeight && weight == s.weight
  }

  /** One uncle: skipped, or its weight credited to its miner and its penalty to the including share. */
  method ProcessUncle(ctx: Context, uncleId: Hash, blockDepth: nat, result: PPLNSResult,
                      cur: Difficulty, weight: Difficulty, ghost s: Scan)
    returns (curWeight: Difficulty, newWeight: Difficulty)
    requires Scanned(result, s, cur, weight)
    modifies result`shares, result`unclesIncluded, result.shares.Values
    ensures Scanned(result, ScanUncle(ctx, s, uncleId, blockDepth), curWeight, newWeight)
    ensures fresh(result.shares.Values - old(result.shares.Values))
    ensures result.unclesIncluded - old(result.unclesIncluded)
         == |ScanUncle(ctx, s, uncleId, blockDepth).counted| - |s.counted|
  {
    hide AddCredit, TallyOf, Difficulty.Add, Difficulty.Sub, Difficulty.Mul64, Difficulty.Div64, Difficulty.Cmp,
         Difficulty.Value;
    curWeight, newWeight := cur, weight;
    if uncleId !in ctx.shares {
      return;
    }
    var uncle := ctx.shares[uncleId];
    if Wrap(ctx.tip.sidechainHeight - uncle.sidechainHeight) >= PPLNS_WINDOW {
      return;
    }
    var unclePenalty := uncle.difficulty.Mul64(UNCLE_PENALTY).Div64(100);
    var uncleWeight := uncle.difficulty.Sub(unclePenalty);
    var newPplnsWeight := weight.Add(uncleWeight);
    if newPplnsWeight.Cmp(ctx.maxWeight) > 0 {
      return;
    }
    curWeight := curWeight.Add(unclePenalty);
    TallyAppend(s.credits, Credit(uncle.minerWallet, uncleWeight, true, blockDepth));
    result.AddWeight(uncle.minerWallet, uncleWeight, true, blockDepth);
    newWeight := newPplnsWeight;
    result.unclesIncluded := result.unclesIncluded + 1;
  }

  /** The loop over the uncles of one share, then the share itself, which may cross the cap. */
  method ProcessShare(ctx: Context, cur: Share, ghost w: Walk, result: PPLNSResult, pplnsWeight: Difficulty,
                      blockDepth: nat)
    returns (newWeight: Difficulty)
    requires Owned(result.shares) && View(result.shares) == TallyOf(w.credits)
    requires pplnsWeight == w.weight && blockDepth == |w.visits|
    modifies result`shares, result`unclesIncluded, result.shares.Values
    ensures Owned(result.shares) && fresh(result.shares.Values - old(result.shares.Values))
    ensures View(result.shares) == TallyOf(VisitShare(ctx, cur, w).credits)
    ensures newWeight == VisitShare(ctx, cur, w).weight
    ensures result.unclesIncluded
         == old(result.unclesIncluded) + |ScanUncles(ctx, cur, w, |cur.uncles|).counted|
  {
    hide AddCredit, TallyOf, ScanUncle, Difficulty.Add, Difficulty.Value;
    var curWeight, weight := cur.difficulty, pplnsWeight;
    for i := 0 to |cur.uncles|
      invariant fresh(result.shares.Values - old(result.shares.Values))
      invariant Scanned(result, ScanUncles(ctx, cur, w, i), curWeight, weight)
      invariant result.unclesIncluded == old(result.unclesIncluded) + |ScanUncles(ctx, cur, w, i).counted|
    {
      curWeight, weight := ProcessUncle(ctx, cur.uncles[i], blockDepth, result, curWeight, weight,
                                        ScanUncles(ctx, cur, w, i));
    }
    TallyAppend(ScanUncles(ctx, cur, w, |cur.uncles|).credits, Credit(cur.minerWallet, curWeight, false, blockDepth));
    result.AddWeight(cur.minerWallet, curWeight, false, blockDepth);
    newWeight := weight.Add(curWeight);
  }

  lemma TallyAppend(credits: seq<Credit>, c: Credit)
    ensures TallyOf(credits + [c]) == AddCredit(TallyOf(credits), c)
  {
    assert (credits + [c])[..|credits|] == credits;
  }

  /** The result reflects the walk so far, buckets aside. */
  ghost predicate Tracks(r: PPLNSResult, tip: Share, w: Walk)
    reads r, r.shares.Values
  {
    && Owned(r.shares)
    && View(r.shares) == TallyOf(w.credits)
    && r.blocksIncluded == |w.visits|
    && r.unclesIncluded == UnclesOf(w.visits)
    && r.tipHeight == tip.sidechainHeight
  }

  method IncludeShare(ctx: Context, cur: Share, ghost w: Walk, result: PPLNSResult, pplnsWeight: Difficulty,
                      blockDepth: nat)
    returns (newWeight: Difficulty)
    requires Tracks(result, ctx.tip, w) && pplnsWeight == w.weight && blockDepth == |w.visits|
    modifies result, result.shares.Values
    ensures fresh(result.shares.Values - old(result.shares.Values))
    ensures Tracks(result, ctx.tip, VisitShare(ctx, cur, w))
    ensures newWeight == VisitShare(ctx, cur, w).weight && result.bottomHeight == cur.sidechainHeight
  {
    hide VisitShare, TallyOf, UnclesOf, ScanUncles;
    VisitShape(ctx, cur, w);
    newWeight := ProcessShare(ctx, cur, w, result, pplnsWeight, blockDepth);
    hide AddCredit, ScanUncle, Counts, Difficulty.Add, Difficulty.Value, Difficulty.Cmp;
    ghost var tallied := View(result.shares);
    result.blocksIncluded := result.blocksIncluded + 1;
    result.bottomHeight := cur.sidechainHeight;
    assert Owned(result.shares) && View(result.shares) == tallied;
  }

  method Finish(result: PPLNSResult, tip: Share, ghost w: Walk, totalWeight: Difficulty, bottomTimestamp: uint64)
    requires w.visits != [] && Tracks(result, tip, w) && totalWeight == w.weight
    requires var last := w.visits[|w.visits| - 1].share;
             result.bottomHeight == last.sidechainHeight && bottomTimestamp == last.timestamp
    modifies result, result.shares.Values
    ensures ReportsWindow(result, tip, w) && result.shares == old(result.shares)
  {
    hide TallyOf, UnclesOf, Finalized;
    result.totalWeight := totalWeight;
    result.windowDuration := ToInt(tip.timestamp - bottomTimestamp);
    result.FinalizeBuckets(result.blocksIncluded);
  }

  /** Walks the parent chain from the tip and reports the finished window. */
  method CalculatePPLNS(shares: map<Hash, Share>, tip: Share, mainchainDiff: Difficulty)
    returns (result: PPLNSResult)
    ensures fresh(result) && fresh(result.shares.Values)
    ensures WindowOf(shares, tip, mainchainDiff).visits != []
    ensures ReportsWindow(result, tip, WindowOf(shares, tip, mainchainDiff))
    ensures SpansWindow(result, tip, WindowOf(shares, tip, mainchainDiff).visits)
  {
    hide VisitShare, Tracks, ReportsWindow, SpansWindow, Difficulty.Cmp, Difficulty.Mul64, Difficulty.Value;
    result := new PPLNSResult(tip.sidechainHeight);
    var maxWeight := mainchainDiff.Mul64(2);
    var ctx := Context(shares, tip, maxWeight);
    var pplnsWeight := Difficulty(0, 0);
    var blockDepth := 0;
    var cur := tip;
    var bottomTimestamp := 0;
    ghost var w := EmptyWalk();
    NothingYet(result, tip);
    while true
      invariant fresh(result) && fresh(result.shares.Values)
      invariant Tracks(result, tip, w)
      invariant pplnsWeight == w.weight && blockDepth == |w.visits| < PPLNS_WINDOW
      invariant WalkFrom(ctx, cur, w) == WindowOf(shares, tip, mainchainDiff)
      decreases PPLNS_WINDOW - |w.visits|
    {
      bottomTimestamp := cur.timestamp;
      pplnsWeight := IncludeShare(ctx, cur, w, result, pplnsWeight, blockDepth);
      VisitShape(ctx, cur, w);
      w := VisitShare(ctx, cur, w);
      if pplnsWeight.Cmp(maxWeight) > 0 {
        break;
      }
      blockDepth := blockDepth + 1;
      if blockDepth >= PPLNS_WINDOW {
        break;
      }
      if cur.sidechainHeight == 0 {
        break;
      }
      if cur.parent !in shares {
        break;
      }
      cur := shares[cur.parent];
    }
    Finish(result, tip, w, pplnsWeight, bottomTimestamp);
    Spanned(result, tip, w);
  }

  /** From the tip to the last visit, in heights, shares and seconds; these as a signed 64-bit number. */
  ghost predicate SpansWindow(r: PPLNSResult, tip: Share, visits: seq<Visit>)
    requires visits != []
    reads r
  {
    var bottom := visits[|visits| - 1].share;
    && r.tipHeight == tip.sidechainHeight && r.bottomHeight == bottom.sidechainHeight
    && r.blocksIncluded == |visits|
    && 0 <= r.windowDuration + TWO63 < TWO64
    && (r.windowDuration - (tip.timestamp - bottom.timestamp)) % TWO64 == 0
  }

  lemma Spanned(r: PPLNSResult, tip: Share, w: Walk)
    requires w.visits != [] && ReportsWindow(r, tip, w)
    ensures SpansWindow(r, tip, w.visits)
  {
    hide Owned, View, Finalized, TallyOf, UnclesOf;
    ToIntCongruent(tip.timestamp - w.visits[|w.visits| - 1].share.timestamp);
  }

  lemma NothingYet(r: PPLNSResult, tip: Share)
    requires r.shares == map[] && r.blocksIncluded == r.unclesIncluded == 0 && r.tipHeight == tip.sidechainHeight
    ensures Tracks(r, tip, EmptyWalk())
  {
  }

  lemma VisitShape(ctx: Context, cur: Share, w: Walk)
    ensures var w' := VisitShare(ctx, cur, w);
            && |w'.visits| == |w.visits| + 1 && w'.visits[|w.visits|].share == cur
            && UnclesOf(w'.visits) == UnclesOf(w.visits) + |ScanUncles(ctx, cur, w, |cur.uncles|).counted|
  {
    hide ScanUncles;
    UnclesAppend(w.visits, Visit(cur, ScanUncles(ctx, cur, w, |cur.uncles|).counted));
  }
}
