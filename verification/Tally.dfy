/** Per-miner accounts of the window: weights, counts, positions and their buckets. */
module Tally {
  import opened GoInt
  import opened Difficulties
  import opened Shares
  import opened Window
  import opened Sorting

  const POSITION_BUCKETS: nat := 30

  /** A copy of one miner's account. Go's fixed-size arrays are values, so buckets are sequences. */
  datatype MinerRecord = MinerRecord(
    addr: Address,
    weight: Difficulty,
    shareCount: nat,
    uncleCount: nat,
    shareBuckets: seq<nat>,
    uncleBuckets: seq<nat>,
    sharePositions: seq<nat>,
    unclePositions: seq<nat>)

  type Accounts = map<Address, MinerRecord>

  function NoBuckets(): (b: seq<nat>)
    ensures |b| == POSITION_BUCKETS && forall i :: 0 <= i < |b| ==> b[i] == 0
  {
    seq(POSITION_BUCKETS, _ => 0)
  }

  function NewRecord(addr: Address): MinerRecord {
    MinerRecord(addr, Difficulty(0, 0), 0, 0, NoBuckets(), NoBuckets(), [], [])
  }

  function Credit1(r: MinerRecord, c: Credit): MinerRecord {
    var r := r.(weight := r.weight.Add(c.weight));
    if c.isUncle then r.(uncleCount := r.uncleCount + 1, unclePositions := r.unclePositions + [c.depth])
    else r.(shareCount := r.shareCount + 1, sharePositions := r.sharePositions + [c.depth])
  }

  function AddCredit(m: Accounts, c: Credit): Accounts {
    m[c.addr := Credit1(if c.addr in m then m[c.addr] else NewRecord(c.addr), c)]
  }

  function TallyOf(credits: seq<Credit>): Accounts {
    if credits == [] then map[]
    else AddCredit(TallyOf(credits[..|credits| - 1]), credits[|credits| - 1])
  }

  // ---------------------------------------------------------------------------------------------
  // What an account holds, in terms of the credits
  // ---------------------------------------------------------------------------------------------

  /** The quantities that are summed per miner and over all miners. */
  datatype Measure = InWeight | InShares | InUncles

  function Amount(c: Credit, k: Measure): nat {
    match k
    case InWeight => c.weight.Value()
    case InShares => if c.isUncle then 0 else 1
    case InUncles => if c.isUncle then 1 else 0
  }

  function Total(credits: seq<Credit>, k: Measure): nat {
    if credits == [] then 0 else Total(credits[..|credits| - 1], k) + Amount(credits[|credits| - 1], k)
  }

  function Of(credits: seq<Credit>, a: Address, k: Measure): nat {
    if credits == [] then 0
    else
      var c := credits[|credits| - 1];
      Of(credits[..|credits| - 1], a, k) + (if c.addr == a then Amount(c, k) else 0)
  }

  function Depths(credits: seq<Credit>, a: Address, uncles: bool): seq<nat> {
    if credits == [] then []
    else
      var c := credits[|credits| - 1];
      Depths(credits[..|credits| - 1], a, uncles) + (if c.addr == a && c.isUncle == uncles then [c.depth] else [])
  }

  /** An account is the sum of its own credits. */
  predicate Accounted(r: MinerRecord, credits: seq<Credit>, a: Address) {
    && r.addr == a
    && r.weight.Value() == Of(credits, a, InWeight) % TWO128
    && r.shareCount == Of(credits, a, InShares) == |r.sharePositions|
    && r.uncleCount == Of(credits, a, InUncles) == |r.unclePositions|
    && r.sharePositions == Depths(credits, a, false)
    && r.unclePositions == Depths(credits, a, true)
    && r.shareBuckets == NoBuckets() && r.uncleBuckets == NoBuckets()
  }

  lemma Credit1Accounts(r: MinerRecord, credits: seq<Credit>, c: Credit)
    requires Accounted(r, credits, c.addr)
    ensures Accounted(Credit1(r, c), credits + [c], c.addr)
  {
    hide Difficulty.Value, Difficulty.Add;
    assert (credits + [c])[..|credits|] == credits;
    ModOfSum(Of(credits, c.addr, InWeight), c.weight.Value());
  }

  lemma OtherAccounts(r: MinerRecord, credits: seq<Credit>, c: Credit, a: Address)
    requires Accounted(r, credits, a) && c.addr != a
    ensures Accounted(r, credits + [c], a)
  {
    assert (credits + [c])[..|credits|] == credits;
  }

  lemma {:induction false} AbsentAccount(credits: seq<Credit>, a: Address)
    requires a !in TallyOf(credits)
    ensures Accounted(NewRecord(a), credits, a)
  {
    if credits != [] {
      var init, c := credits[..|credits| - 1], credits[|credits| - 1];
      AbsentAccount(init, a);
      OtherAccounts(NewRecord(a), init, c, a);
      assert init + [c] == credits;
    }
  }

  /** Every account is the sum of its credits, and every credited address has one. */
  lemma {:induction false} TallyAccounts(credits: seq<Credit>)
    ensures forall a | a in TallyOf(credits) :: Accounted(TallyOf(credits)[a], credits, a)
    ensures forall c | c in credits :: c.addr in TallyOf(credits)
  {
    if credits != [] {
      var init, c := credits[..|credits| - 1], credits[|credits| - 1];
      var m := TallyOf(init);
      TallyAccounts(init);
      assert init + [c] == credits;
      hide Accounted, Credit1, NewRecord;
      if c.addr !in m {
        AbsentAccount(init, c.addr);
      }
      Credit1Accounts(if c.addr in m then m[c.addr] else NewRecord(c.addr), init, c);
      forall a | a in TallyOf(credits) && a != c.addr
        ensures Accounted(TallyOf(credits)[a], credits, a)
      {
        OtherAccounts(m[a], init, c, a);
      }
    }
  }

  // ---------------------------------------------------------------------------------------------
  // Sums over all miners, in any order
  // ---------------------------------------------------------------------------------------------

  /** The addresses in some order, each exactly once. */
  ghost predicate Enumerates(order: seq<Address>, m: Accounts) {
    NoRepeats(order) && forall a :: a in order <==> a in m
  }

  function SumOver(order: seq<Address>, credits: seq<Credit>, k: Measure): nat {
    if order == [] then 0
    else SumOver(order[..|order| - 1], credits, k) + Of(credits, order[|order| - 1], k)
  }

  lemma {:induction false} SumOverStep(order: seq<Address>, credits: seq<Credit>, c: Credit, k: Measure)
    requires NoRepeats(order)
    ensures SumOver(order, credits + [c], k)
         == SumOver(order, credits, k) + (if c.addr in order then Amount(c, k) else 0)
  {
    assert (credits + [c])[..|credits|] == credits;
    if order != [] {
      SumOverStep(order[..|order| - 1], credits, c, k);
    }
  }

  lemma {:induction false} SumOverNothing(order: seq<Address>, k: Measure)
    ensures SumOver(order, [], k) == 0
  {
    if order != [] {
      SumOverNothing(order[..|order| - 1], k);
    }
  }

  /** Summing per miner, in whatever order the map is iterated, is summing the credits. */
  lemma {:induction false} SumOverAll(order: seq<Address>, credits: seq<Credit>, k: Measure)
    requires NoRepeats(order) && forall c | c in credits :: c.addr in order
    ensures SumOver(order, credits, k) == Total(credits, k)
    decreases |credits|
  {
    if credits == [] {
      SumOverNothing(order, k);
    } else {
      var init, c := credits[..|credits| - 1], credits[|credits| - 1];
      assert init + [c] == credits;
      SumOverAll(order, init, k);
      SumOverStep(order, init, c, k);
    }
  }

  lemma {:induction false} TotalIsCredited(credits: seq<Credit>)
    ensures Total(credits, InWeight) == Credited(credits)
  {
    if credits != [] {
      TotalIsCredited(credits[..|credits| - 1]);
    }
  }

  // ---------------------------------------------------------------------------------------------
  // Buckets
  // ---------------------------------------------------------------------------------------------

  /** The bucket of a depth, clamp included, for a window of `size` shares. */
  function Bucket(depth: nat, size: nat): (b: nat)
    ensures b < POSITION_BUCKETS
  {
    var bucket := if size > 1 then depth * (POSITION_BUCKETS - 1) / (size - 1) else 0;
    if bucket >= POSITION_BUCKETS then POSITION_BUCKETS - 1 else bucket
  }

  function Histogram(positions: seq<nat>, size: nat): (h: seq<nat>)
    ensures |h| == POSITION_BUCKETS
  {
    if positions == [] then NoBuckets()
    else
      var h := Histogram(positions[..|positions| - 1], size);
      var b := Bucket(positions[|positions| - 1], size);
      h[b := h[b] + 1]
  }

  function Bucketed(r: MinerRecord, size: nat): MinerRecord {
    r.(shareBuckets := Histogram(r.sharePositions, size), uncleBuckets := Histogram(r.unclePositions, size))
  }

  function Finalized(m: Accounts, size: nat): Accounts {
    map a | a in m :: Bucketed(m[a], size)
  }

  /** Inside the window the clamp is idle, buckets follow depth, and the two ends are reached. */
  lemma BucketInside(depth: nat, size: nat)
    requires depth < size
    ensures size > 1 ==> Bucket(depth, size) == depth * (POSITION_BUCKETS - 1) / (size - 1)
    ensures size == 1 ==> Bucket(depth, size) == 0
    ensures depth == 0 ==> Bucket(depth, size) == 0
    ensures size > 1 && depth == size - 1 ==> Bucket(depth, size) == POSITION_BUCKETS - 1
  {
    if size > 1 {
      MulMono(depth, size - 1, POSITION_BUCKETS - 1);
      QuotientFacts(depth * (POSITION_BUCKETS - 1), size - 1);
      var q := depth * (POSITION_BUCKETS - 1) / (size - 1);
      if q >= POSITION_BUCKETS {
        MulMono(POSITION_BUCKETS, q, size - 1);
      }
      if depth == 0 {
        QuotientUnique(0, size - 1, 0, 0);
      } else if depth == size - 1 {
        QuotientUnique(depth * (POSITION_BUCKETS - 1), size - 1, POSITION_BUCKETS - 1, 0);
      }
    }
  }

  lemma BucketMonotone(d: nat, e: nat, size: nat)
    requires d <= e < size
    ensures Bucket(d, size) <= Bucket(e, size)
  {
    if size > 1 {
      BucketInside(d, size);
      BucketInside(e, size);
      var n := size - 1;
      QuotientFacts(d * (POSITION_BUCKETS - 1), n);
      QuotientFacts(e * (POSITION_BUCKETS - 1), n);
      if Bucket(e, size) + 1 <= Bucket(d, size) {
        MulMono(Bucket(e, size) + 1, Bucket(d, size), n);
      }
    }
  }

  lemma {:induction false} SumIncrement(s: seq<nat>, i: nat)
    requires i < |s|
    ensures Sum(s[i := s[i] + 1]) == Sum(s) + 1
  {
    var last := |s| - 1;
    if i == last {
      assert s[i := s[i] + 1][..last] == s[..last];
    } else {
      SumIncrement(s[..last], i);
      assert s[i := s[i] + 1][..last] == s[..last][i := s[..last][i] + 1];
    }
  }

  lemma {:induction false} SumZero(s: seq<nat>)
    requires forall i :: 0 <= i < |s| ==> s[i] == 0
    ensures Sum(s) == 0
  {
    if s != [] {
      SumZero(s[..|s| - 1]);
    }
  }

  /** Bucketing loses and duplicates nothing. */
  lemma {:induction false} HistogramConserves(positions: seq<nat>, size: nat)
    ensures Sum(Histogram(positions, size)) == |positions|
  {
    if positions == [] {
      SumZero(NoBuckets());
    } else {
      var init := positions[..|positions| - 1];
      HistogramConserves(init, size);
      SumIncrement(Histogram(init, size), Bucket(positions[|positions| - 1], size));
    }
  }

  function CountIn(positions: seq<nat>, size: nat, b: nat): nat {
    if positions == [] then 0
    else
      CountIn(positions[..|positions| - 1], size, b)
      + (if Bucket(positions[|positions| - 1], size) == b then 1 else 0)
  }

  /** Each bucket holds the number of positions that fall into it. */
  lemma {:induction false} HistogramCounts(positions: seq<nat>, size: nat, b: nat)
    requires b < POSITION_BUCKETS
    ensures Histogram(positions, size)[b] == CountIn(positions, size, b)
  {
    if positions != [] {
      HistogramCounts(positions[..|positions| - 1], size, b);
    }
  }
}
