/** The results that span the window, the split, the addresses and the ledger. */
module EndToEnd {
  import opened GoInt
  import opened Options
  import opened Wire
  import opened Difficulties
  import opened Shares
  import opened Base58
  import opened Window
  import opened Tally
  import opened Sorting
  import opened Split
  import opened Pplns
  import opened Accounting
  import opened Earnings
  import opened PayoutLedger
  import opened Runs
  import opened Records
  import opened Daemons

  // ---------------------------------------------------------------------------------------------
  // Estimated payouts of the current window
  // ---------------------------------------------------------------------------------------------

  /** The payouts of the listed addresses. */
  function PaidTo(payouts: map<Address, uint64>, order: seq<Address>): (r: seq<int>)
    requires forall a | a in order :: a in payouts
    ensures |r| == |order| && forall i :: 0 <= i < |order| ==> r[i] == payouts[order[i]]
  {
    seq(|order|, i requires 0 <= i < |order| => payouts[order[i]])
  }

  /** Whoever adds up the map, in whatever order, gets the sum of the amounts. */
  lemma MapSumsToAmounts(payouts: map<Address, uint64>, ms: seq<MinerRecord>, amounts: seq<uint64>,
                         order: seq<Address>)
    requires |amounts| == |ms| && Pays(payouts, ms, amounts) && NoRepeats(Addresses(ms))
    requires NoRepeats(order) && forall a :: a in order <==> a in payouts
    ensures Sum(PaidTo(payouts, order)) == Sum(amounts)
  {
    SameElementsPermute(order, Addresses(ms));
    var pay := (a: Address) => if a in payouts then payouts[a] as int else 0;
    MapPermutes(pay, order, Addresses(ms));
    assert Sorting.Map(pay, order) == PaidTo(payouts, order);
    assert Sorting.Map(pay, Addresses(ms)) == amounts;
    SumPermutes(PaidTo(payouts, order), amounts);
  }

  /** In every order of the accounts, each miner's weight is what its shares and uncles earned. */
  lemma WeightsEarned(shares: map<Hash, Share>, tip: Share, mainchainDiff: Difficulty, ms: seq<MinerRecord>)
    requires Raw(WindowOf(shares, tip, mainchainDiff).visits) < TWO128
    requires TopOrder(ms, AccountsOf(WindowOf(shares, tip, mainchainDiff)))
    ensures var visits := WindowOf(shares, tip, mainchainDiff).visits;
            && (forall k :: 0 <= k < |ms| ==> Values(Weights(ms))[k] == Earned(visits, ms[k].addr))
            && (forall a :: a in Addresses(ms) <==> Appears(visits, a))
  {
    var w := WindowOf(shares, tip, mainchainDiff);
    hide WindowOf, AccountsOf, Raw, Earned, Appears, Difficulty.Value, MainDepths, UncleDepths, InBucket;
    TopOrderAccounts(ms, AccountsOf(w));
    forall a
      ensures a in Addresses(ms) <==> Appears(w.visits, a)
    {
      AccountsEarned(shares, tip, mainchainDiff, a);
    }
    forall k | 0 <= k < |ms|
      ensures Values(Weights(ms))[k] == Earned(w.visits, ms[k].addr)
    {
      AccountsEarned(shares, tip, mainchainDiff, ms[k].addr);
    }
  }

  /** `x` is the miner's part, by earnings, of the reward: rounded down or up, and exact where it is whole. */
  predicate IsPart(visits: seq<Visit>, a: Address, reward: nat, x: int) {
    Raw(visits) > 0 && CreditNear(Earned(visits, a) * reward, Raw(visits), x)
  }

  /** Each of the amounts is its miner's part, by earnings, of the reward. */
  lemma AmountsEarned(shares: map<Hash, Share>, tip: Share, mainchainDiff: Difficulty, reward: uint64,
                      ms: seq<MinerRecord>, amounts: seq<int>)
    requires Raw(WindowOf(shares, tip, mainchainDiff).visits) < TWO128
    requires WindowOf(shares, tip, mainchainDiff).weight.Value() > 0
    requires TopOrder(ms, AccountsOf(WindowOf(shares, tip, mainchainDiff)))
    requires FairCredits(Values(Weights(ms)), WindowOf(shares, tip, mainchainDiff).weight.Value(), reward, amounts)
    ensures var visits := WindowOf(shares, tip, mainchainDiff).visits;
            |amounts| == |ms| && forall k :: 0 <= k < |ms| ==> IsPart(visits, ms[k].addr, reward, amounts[k])
  {
    hide WindowOf, AccountsOf, Raw, Earned, Difficulty.Value, CreditNear, TopOrder, Cumulative;
    WeightsEarned(shares, tip, mainchainDiff, ms);
    MinersSumToTotal(shares, tip, mainchainDiff, ms);
  }

  /**
   * From a share map to atomic units: the estimated payouts of a window are exactly the block reward. They go to
   * whose shares are visited or counted, each getting its part by earnings, rounded down or up.
   */
  method PayWindow(shares: map<Hash, Share>, tip: Share, mainchainDiff: Difficulty, blockReward: uint64)
    returns (payouts: map<Address, uint64>)
    requires Fits(WindowOf(shares, tip, mainchainDiff), blockReward)
    ensures WindowOf(shares, tip, mainchainDiff).weight.Value() == 0 ==> payouts == map[]
    ensures WindowOf(shares, tip, mainchainDiff).weight.Value() > 0 ==>
      forall order :: NoRepeats(order) && (forall a :: a in order <==> a in payouts) ==>
        Sum(PaidTo(payouts, order)) == blockReward
    ensures WindowOf(shares, tip, mainchainDiff).weight.Value() > 0 ==>
      var visits := WindowOf(shares, tip, mainchainDiff).visits;
      && (forall a :: a in payouts <==> Appears(visits, a))
      && (forall a :: a in payouts ==> IsPart(visits, a, blockReward, payouts[a]))
  {
    hide Fits, WindowOf, TallyOf, Finalized, Difficulty.Value, TopOrder, RegisterAmounts, ExactSplit, Pays,
         PaidTo, Sum, Owned, View, UnclesOf, IsPart, Appears, Raw;
    var result := CalculatePPLNS(shares, tip, mainchainDiff);
    ghost var ms;
    payouts, ms := result.EstimatedPayout(blockReward);
    if result.totalWeight.Value() > 0 {
      PayoutConserves(shares, tip, mainchainDiff, blockReward, ms);
      ghost var amounts := RegisterAmounts(Weights(ms), result.totalWeight, blockReward);
      ExactSum(Values(Weights(ms)), result.totalWeight.Value(), blockReward, amounts);
      NoRepeatedMiners(ms, View(result.shares));
      forall order | NoRepeats(order) && (forall a :: a in order <==> a in payouts)
        ensures Sum(PaidTo(payouts, order)) == blockReward
      {
        MapSumsToAmounts(payouts, ms, amounts, order);
      }
      PaidAsEarned(shares, tip, mainchainDiff, blockReward, ms, payouts);
    }
  }

  lemma PaidAsEarned(shares: map<Hash, Share>, tip: Share, mainchainDiff: Difficulty, reward: uint64,
                     ms: seq<MinerRecord>, payouts: map<Address, uint64>)
    requires Fits(WindowOf(shares, tip, mainchainDiff), reward)
    requires WindowOf(shares, tip, mainchainDiff).weight.Value() > 0
    requires TopOrder(ms, AccountsOf(WindowOf(shares, tip, mainchainDiff)))
    requires Pays(payouts, ms, RegisterAmounts(Weights(ms), WindowOf(shares, tip, mainchainDiff).weight, reward))
    ensures var visits := WindowOf(shares, tip, mainchainDiff).visits;
            && (forall a :: a in payouts <==> Appears(visits, a))
            && (forall a :: a in payouts ==> IsPart(visits, a, reward, payouts[a]))
  {
    var w := WindowOf(shares, tip, mainchainDiff);
    var amounts := RegisterAmounts(Weights(ms), w.weight, reward);
    hide WindowOf, AccountsOf, Difficulty.Value, TopOrder, RegisterAmounts, IsPart, Appears, Raw, FairCredits;
    PayoutConserves(shares, tip, mainchainDiff, reward, ms);
    WeightsEarned(shares, tip, mainchainDiff, ms);
    AmountsEarned(shares, tip, mainchainDiff, reward, ms, amounts);
    forall a | a in payouts
      ensures IsPart(w.visits, a, reward, payouts[a])
    {
      assert a in Addresses(ms);
      var i :| 0 <= i < |ms| && Addresses(ms)[i] == a;
      assert ms[i].addr == a;
    }
  }

  lemma ExactSum(ws: seq<nat>, total: nat, reward: nat, amounts: seq<int>)
    requires total > 0 && ExactSplit(ws, total, reward, amounts)
    ensures Sum(amounts) == reward
  {
  }

  // ---------------------------------------------------------------------------------------------
  // Credited payouts of a found block
  // ---------------------------------------------------------------------------------------------

  /**
   * A height was first sighted while the window of `tip` was current, so its snapshot is one order of that
   * window's miners; the first usable answer holds the amounts of the same window's split, in any order.
   */
  ghost predicate PaidByWindow(es: seq<Event>, h: uint64, i: nat, k: nat, j: nat, l: nat, shares: map<Hash, Share>,
                               tip: Share, mainchainDiff: Difficulty, reward: uint64, keccak: Checksum,
                               snapshot: seq<MinerRecord>, coinbase: seq<MinerRecord>)
  {
    var w := WindowOf(shares, tip, mainchainDiff);
    && Fits(w, reward) && w.weight.Value() > 0
    && TopOrder(snapshot, AccountsOf(w)) && TopOrder(coinbase, AccountsOf(w))
    && FirstSightedAt(es, i, k, h) && FirstAnsweredAt(es, j, l, h)
    && es[i].miners == Strings(snapshot, keccak)
    && multiset(es[j].answers[l].value) == multiset(RegisterAmounts(Weights(coinbase), w.weight, reward))
  }

  /** The amount of the first record of the height in the list of an address. */
  function AmountAt(s: Store, a: string, h: uint64): int {
    var records := AtHeight(Listed(s, a), h);
    if records == [] then 0 else records[0].amount
  }

  function AmountsAt(s: Store, names: seq<string>, h: uint64): (r: seq<int>)
    ensures |r| == |names| && forall p :: 0 <= p < |names| ==> r[p] == AmountAt(s, names[p], h)
  {
    seq(|names|, p requires 0 <= p < |names| => AmountAt(s, names[p], h))
  }

  /**
   * After any run of cycles, failed fetches and restarts the store lists, for every miner of that window, exactly
   * one record of the height, with the hash and time of the found block and an amount that is the miner's part, by
   * earnings, of the reward, rounded down or up and exact where it is whole. The miners are those whose shares are
   * visited or counted; nobody else has a record, and the amounts sum to the reward.
   */
  lemma CreditedFairly(es: seq<Event>, h: uint64, i: nat, k: nat, j: nat, l: nat, shares: map<Hash, Share>, tip: Share,
                       mainchainDiff: Difficulty, reward: uint64, keccak: Checksum, snapshot: seq<MinerRecord>,
                       coinbase: seq<MinerRecord>)
    requires ValidEvents(es) && InSync(Start())
    requires PaidByWindow(es, h, i, k, j, l, shares, tip, mainchainDiff, reward, keccak, snapshot, coinbase)
    ensures var (visits, store) := (WindowOf(shares, tip, mainchainDiff).visits, Run(Start(), es).store);
            var (names, fb) := (Strings(snapshot, keccak), es[j].found[l]);
            && (forall p :: 0 <= p < |snapshot| ==>
                  var amount := AmountAt(store, names[p], h);
                  && OnlyRecord(AtHeight(Listed(store, names[p]), h), h, fb.hash, amount, fb.timestamp)
                  && IsPart(visits, snapshot[p].addr, reward, amount))
            && Sum(AmountsAt(store, names, h)) == reward
            && (forall a :: a in Addresses(snapshot) <==> Appears(visits, a))
            && (forall a :: ':' !in a && a !in names ==> AtHeight(Listed(store, a), h) == [])
  {
    hide WindowOf, AccountsOf, Fits, TopOrder, RegisterAmounts, SortDescending, Listed, Difficulty.Value, ValidEvents,
         InSync, Run, AtHeight, ToBase58, Raw, IsPart, Sum, Appears;
    var outputs := es[j].answers[l].value;
    var credited, names, store := SortDescending(outputs), Strings(snapshot, keccak), Run(Start(), es).store;
    SnapshotCredits(shares, tip, mainchainDiff, reward, coinbase, snapshot, outputs);
    FitsRaw(WindowOf(shares, tip, mainchainDiff), reward);
    AmountsEarned(shares, tip, mainchainDiff, reward, snapshot, credited);
    WeightsEarned(shares, tip, mainchainDiff, snapshot);
    RecordsSpelledOut(es, h, i, k, j, l);
    assert names[..|names|] == names;
    forall p | 0 <= p < |names|
      ensures OnlyRecord(AtHeight(Listed(store, names[p]), h), h, es[j].found[l].hash, credited[p],
                         es[j].found[l].timestamp)
    {
    }
    assert AmountsAt(store, names, h) == credited;
  }

  lemma FitsRaw(w: Walk, reward: uint64)
    requires Fits(w, reward)
    ensures Raw(w.visits) < TWO128
  {
  }

  /** The block is sighted, the fetch fails, the daemon restarts, and other miners lead when the fetch succeeds. */
  function LateRun(fb: FoundBlock, first: seq<string>, later: seq<string>, outputs: seq<uint64>): seq<Event> {
    [Sync([fb], first, [None]), Restart, Sync([fb], later, [Some(outputs)])]
  }

  lemma LatePlaces(fb: FoundBlock, first: seq<string>, later: seq<string>, outputs: seq<uint64>)
    requires outputs != []
    ensures var es := LateRun(fb, first, later, outputs);
            FirstSightedAt(es, 0, 0, fb.height) && FirstAnsweredAt(es, 2, 0, fb.height)
  {
    var es := LateRun(fb, first, later, outputs);
    forall j: nat, l: nat
      ensures !Earlier(j, l, 0, 0) && (AnsweredAt(es, j, l, fb.height) ==> !Earlier(j, l, 2, 0))
    {
    }
  }

  /**
   * Every window without overflow can be paid, and late: across a failed fetch, a restart and any later
   * miner order, the records still follow the window of the first sighting.
   */
  lemma PaidLate(shares: map<Hash, Share>, tip: Share, mainchainDiff: Difficulty, reward: uint64, keccak: Checksum,
                 ms: seq<MinerRecord>, fb: FoundBlock, later: seq<string>)
    requires Fits(WindowOf(shares, tip, mainchainDiff), reward)
    requires WindowOf(shares, tip, mainchainDiff).weight.Value() > 0
    requires TopOrder(ms, AccountsOf(WindowOf(shares, tip, mainchainDiff)))
    requires NoRepeats(later) && forall a | a in later :: ':' !in a
    ensures var outputs := RegisterAmounts(Weights(ms), WindowOf(shares, tip, mainchainDiff).weight, reward);
            var es := LateRun(fb, Strings(ms, keccak), later, outputs);
            && ValidEvents(es)
            && PaidByWindow(es, fb.height, 0, 0, 2, 0, shares, tip, mainchainDiff, reward, keccak, ms, ms)
  {
    hide WindowOf, AccountsOf, TopOrder, RegisterAmounts, FirstSightedAt, FirstAnsweredAt, ToBase58, Difficulty.Value;
    var w := WindowOf(shares, tip, mainchainDiff);
    var outputs := RegisterAmounts(Weights(ms), w.weight, reward);
    StringsValid(ms, AccountsOf(w), keccak);
    MinersSumToTotal(shares, tip, mainchainDiff, ms);
    LatePlaces(fb, Strings(ms, keccak), later, outputs);
  }
}
