/** The PPLNS window: which shares and uncles are credited, to whom, and with what weight. */
module Window {
  import opened GoInt
  import opened Wire
  import opened Difficulties
  import opened Shares

  const PPLNS_WINDOW: nat := 2160
  const UNCLE_PENALTY: uint64 := 20

  /** One call of `addWeight`. */
  datatype Credit = Credit(addr: Address, weight: Difficulty, isUncle: bool, depth: nat)

  /** A main share on the walk with the uncles that were counted for it. */
  datatype Visit = Visit(share: Share, counted: seq<Share>)

  datatype Walk = Walk(visits: seq<Visit>, credits: seq<Credit>, weight: Difficulty)

  datatype Context = Context(shares: map<Hash, Share>, tip: Share, maxWeight: Difficulty)

  function UnclePenalty(uncle: Share): Difficulty {
    uncle.difficulty.Mul64(UNCLE_PENALTY).Div64(100)
  }

  function UncleWeight(uncle: Share): Difficulty {
    uncle.difficulty.Sub(UnclePenalty(uncle))
  }

  /** State of the loop over the uncles of one share. */
  datatype Scan = Scan(counted: seq<Share>, credits: seq<Credit>, curWeight: Difficulty, weight: Difficulty)

  /** The uncle is in the map, within the window below the tip, and fits under the cap. */
  predicate Counts(ctx: Context, weight: Difficulty, id: Hash) {
    && id in ctx.shares
    && Wrap(ctx.tip.sidechainHeight - ctx.shares[id].sidechainHeight) < PPLNS_WINDOW
    && weight.Add(UncleWeight(ctx.shares[id])).Cmp(ctx.maxWeight) <= 0
  }

  function ScanUncle(ctx: Context, s: Scan, id: Hash, depth: nat): Scan {
    if !Counts(ctx, s.weight, id) then s
    else
      var uncle := ctx.shares[id];
      Scan(s.counted + [uncle],
           s.credits + [Credit(uncle.minerWallet, UncleWeight(uncle), true, depth)],
           s.curWeight.Add(UnclePenalty(uncle)),
           s.weight.Add(UncleWeight(uncle)))
  }

  /** The loop over the first `k` uncles of `cur`. */
  function ScanUncles(ctx: Context, cur: Share, w: Walk, k: nat): Scan
    requires k <= |cur.uncles|
  {
    if k == 0 then Scan([], w.credits, cur.difficulty, w.weight)
    else ScanUncle(ctx, ScanUncles(ctx, cur, w, k - 1), cur.uncles[k - 1], |w.visits|)
  }

  /** The main share is credited after its uncles, whether or not it crosses the cap. */
  function AddMain(cur: Share, w: Walk, s: Scan): Walk {
    Walk(w.visits + [Visit(cur, s.counted)],
         s.credits + [Credit(cur.minerWallet, s.curWeight, false, |w.visits|)],
         s.weight.Add(s.curWeight))
  }

  function VisitShare(ctx: Context, cur: Share, w: Walk): Walk {
    AddMain(cur, w, ScanUncles(ctx, cur, w, |cur.uncles|))
  }

  predicate Stops(ctx: Context, cur: Share, w: Walk) {
    || w.weight.Cmp(ctx.maxWeight) > 0
    || |w.visits| >= PPLNS_WINDOW
    || cur.sidechainHeight == 0
    || cur.parent !in ctx.shares
  }

  /** The walk from `cur` on, continuing `w`. */
  function WalkFrom(ctx: Context, cur: Share, w: Walk): Walk
    requires |w.visits| < PPLNS_WINDOW
    decreases PPLNS_WINDOW - |w.visits|
  {
    var w' := VisitShare(ctx, cur, w);
    if Stops(ctx, cur, w') then w' else WalkFrom(ctx, ctx.shares[cur.parent], w')
  }

  function EmptyWalk(): Walk {
    Walk([], [], Difficulty(0, 0))
  }

  /** The whole walk: from the tip, capped at twice the mainchain difficulty. */
  function WindowOf(shares: map<Hash, Share>, tip: Share, mainchainDiff: Difficulty): Walk {
    WalkFrom(Context(shares, tip, mainchainDiff.Mul64(2)), tip, EmptyWalk())
  }

  // ---------------------------------------------------------------------------------------------
  // Conservation of weight
  // ---------------------------------------------------------------------------------------------

  function Credited(credits: seq<Credit>): nat {
    if credits == [] then 0
    else Credited(credits[..|credits| - 1]) + credits[|credits| - 1].weight.Value()
  }

  function DifficultySum(shares: seq<Share>): nat {
    if shares == [] then 0
    else DifficultySum(shares[..|shares| - 1]) + shares[|shares| - 1].difficulty.Value()
  }

  /** Difficulty of all visited shares and, with multiplicity, of all counted uncles. */
  function Raw(visits: seq<Visit>): nat {
    if visits == [] then 0
    else
      var last := visits[|visits| - 1];
      Raw(visits[..|visits| - 1]) + last.share.difficulty.Value() + DifficultySum(last.counted)
  }

  lemma CreditedAppend(credits: seq<Credit>, c: Credit)
    ensures Credited(credits + [c]) == Credited(credits) + c.weight.Value()
  {
    assert (credits + [c])[..|credits|] == credits;
  }

  /** The penalty is at most the difficulty on every input, even where 20 times it wraps. */
  lemma PenaltyAtMostDifficulty(uncle: Share)
    ensures UnclePenalty(uncle).Value() <= uncle.difficulty.Value()
    ensures UnclePenalty(uncle).Value() + UncleWeight(uncle).Value() == uncle.difficulty.Value()
  {
    var d := uncle.difficulty.Value();
    var m := (d * 20) % TWO128;
    QuotientFacts(d * 20, TWO128);
    QuotientFacts(m, 100);
    assert m <= d * 20;
    OrderAgrees(uncle.difficulty, UnclePenalty(uncle));
  }

  /** The penalty is a fifth of the difficulty, rounded down, exactly where 20 times it fits 128 bits. */
  lemma PenaltyIsFifth(uncle: Share)
    ensures UnclePenalty(uncle).Value() == uncle.difficulty.Value() / 5 <==> 20 * uncle.difficulty.Value() < TWO128
  {
    hide Difficulty.Value;
    FifthExactly(uncle.difficulty.Value());
  }

  lemma FifthExactly(d: nat)
    ensures d * 20 % TWO128 / 100 == d / 5 <==> 20 * d < TWO128
  {
    QuotientFacts(d, 5);
    if 20 * d < TWO128 {
      InRange(d * 20, TWO128);
      QuotientUnique(d * 20, 100, d / 5, 20 * (d % 5));
    } else {
      QuotientFacts(d * 20, TWO128);
      QuotientFacts(d * 20 % TWO128, 100);
    }
  }

  /** An uncle of difficulty 2^124 pays a hundredth of 2^126, which is less than a fifth of its difficulty. */
  lemma PenaltyNeedNotBeFifth(uncle: Share)
    requires uncle.difficulty == Difficulty(0, 0x1000_0000_0000_0000)
    ensures uncle.difficulty.Value() == TWO128 / 16
    ensures UnclePenalty(uncle).Value() == TWO128 / 4 / 100 < uncle.difficulty.Value() / 5
  {
    assert uncle.difficulty.Value() == TWO128 / 16;
    hide Difficulty.Value;
    QuotientUnique(uncle.difficulty.Value() * 20, TWO128, 1, TWO128 / 4);
  }

  /** `total` is `part` plus a number of whole wraps of 128 bits. */
  predicate UpToWraps(part: nat, total: nat) {
    part <= total && (total - part) % TWO128 == 0
  }

  lemma WrapOnce(part: nat, total: nat, x: nat, y: nat)
    requires UpToWraps(part + x + y, total) && x < TWO128 && y < TWO128
    ensures UpToWraps(part + (x + y) % TWO128, total)
  {
    ModNear(x + y, TWO128);
    var gap := total - (part + x + y);
    if x + y >= TWO128 {
      QuotientFacts(gap, TWO128);
      QuotientUnique(gap + TWO128, TWO128, gap / TWO128 + 1, 0);
    }
  }

  /** While scanning: the weight is the credits' sum, and credits plus collected weight are the raw sum. */
  predicate ScanConserves(cur: Share, w: Walk, s: Scan) {
    && s.weight.Value() == Credited(s.credits) % TWO128
    && UpToWraps(Credited(s.credits) + s.curWeight.Value(),
                 Raw(w.visits) + cur.difficulty.Value() + DifficultySum(s.counted))
  }

  predicate WalkConserves(w: Walk) {
    && w.weight.Value() == Credited(w.credits) % TWO128
    && UpToWraps(Credited(w.credits), Raw(w.visits))
  }

  lemma AddsCredit(weight: Difficulty, credits: seq<Credit>, c: Credit)
    requires weight.Value() == Credited(credits) % TWO128
    ensures weight.Add(c.weight).Value() == Credited(credits + [c]) % TWO128
  {
    CreditedAppend(credits, c);
    ModOfSum(Credited(credits), c.weight.Value());
  }

  lemma CountedUncleConserves(cur: Share, w: Walk, s: Scan, uncle: Share, c: Credit)
    requires ScanConserves(cur, w, s) && c.weight == UncleWeight(uncle)
    ensures ScanConserves(cur, w, Scan(s.counted + [uncle], s.credits + [c], s.curWeight.Add(UnclePenalty(uncle)),
                                       s.weight.Add(UncleWeight(uncle))))
  {
    hide UncleWeight, UnclePenalty, Credited, DifficultySum, Raw, UpToWraps, Difficulty.Value, Difficulty.Add;
    PenaltyAtMostDifficulty(uncle);
    AddsCredit(s.weight, s.credits, c);
    CreditedAppend(s.credits, c);
    DifficultySumAppend(s.counted, uncle);
    CollectPenalty(Credited(s.credits), Raw(w.visits) + cur.difficulty.Value() + DifficultySum(s.counted),
                   s.curWeight.Value(), UnclePenalty(uncle).Value(), UncleWeight(uncle).Value());
  }

  lemma CollectPenalty(part: nat, total: nat, cur: nat, penalty: nat, weight: nat)
    requires UpToWraps(part + cur, total) && cur < TWO128 && penalty < TWO128
    ensures UpToWraps(part + weight + (cur + penalty) % TWO128, total + weight + penalty)
  {
    WrapOnce(part + weight, total + weight + penalty, cur, penalty);
  }

  lemma DifficultySumAppend(shares: seq<Share>, share: Share)
    ensures DifficultySum(shares + [share]) == DifficultySum(shares) + share.difficulty.Value()
  {
    assert (shares + [share])[..|shares|] == shares;
  }

  lemma ScanUncleConserves(ctx: Context, cur: Share, w: Walk, s: Scan, id: Hash)
    requires ScanConserves(cur, w, s)
    ensures ScanConserves(cur, w, ScanUncle(ctx, s, id, |w.visits|))
  {
    hide ScanConserves, UncleWeight, UnclePenalty;
    if Counts(ctx, s.weight, id) {
      var uncle := ctx.shares[id];
      CountedUncleConserves(cur, w, s, uncle, Credit(uncle.minerWallet, UncleWeight(uncle), true, |w.visits|));
    }
  }

  lemma {:induction false} ScanUnclesConserves(ctx: Context, cur: Share, w: Walk, k: nat)
    requires WalkConserves(w) && k <= |cur.uncles|
    ensures ScanConserves(cur, w, ScanUncles(ctx, cur, w, k))
  {
    hide ScanUncle;
    if k > 0 {
      ScanUnclesConserves(ctx, cur, w, k - 1);
      ScanUncleConserves(ctx, cur, w, ScanUncles(ctx, cur, w, k - 1), cur.uncles[k - 1]);
    }
  }

  lemma VisitConserves(ctx: Context, cur: Share, w: Walk)
    requires WalkConserves(w)
    ensures WalkConserves(VisitShare(ctx, cur, w))
  {
    hide ScanUncles, Credited, Raw, DifficultySum, UpToWraps, Difficulty.Value, Difficulty.Add;
    var s := ScanUncles(ctx, cur, w, |cur.uncles|);
    ScanUnclesConserves(ctx, cur, w, |cur.uncles|);
    var c := Credit(cur.minerWallet, s.curWeight, false, |w.visits|);
    AddsCredit(s.weight, s.credits, c);
    CreditedAppend(s.credits, c);
    RawAppend(w.visits, Visit(cur, s.counted));
  }

  lemma RawAppend(visits: seq<Visit>, v: Visit)
    ensures Raw(visits + [v]) == Raw(visits) + v.share.difficulty.Value() + DifficultySum(v.counted)
  {
    assert (visits + [v])[..|visits|] == visits;
  }

  lemma {:induction false} WalkFromConserves(ctx: Context, cur: Share, w: Walk)
    requires |w.visits| < PPLNS_WINDOW && WalkConserves(w)
    ensures WalkConserves(WalkFrom(ctx, cur, w))
    decreases PPLNS_WINDOW - |w.visits|
  {
    var w' := VisitShare(ctx, cur, w);
    VisitConserves(ctx, cur, w);
    if !Stops(ctx, cur, w') {
      WalkFromConserves(ctx, ctx.shares[cur.parent], w');
    }
  }

  /**
   * On every share map, cyclic or not: the total weight is the raw difficulty modulo 2^128, and the
   * credits sum to it up to whole wraps; nothing is lost to the penalty's rounding.
   */
  lemma WeightConserved(shares: map<Hash, Share>, tip: Share, mainchainDiff: Difficulty)
    ensures var w := WindowOf(shares, tip, mainchainDiff);
            && w.weight.Value() == Raw(w.visits) % TWO128
            && UpToWraps(Credited(w.credits), Raw(w.visits))
            && (Raw(w.visits) < TWO128 ==> w.weight.Value() == Credited(w.credits) == Raw(w.visits))
  {
    WalkFromConserves(Context(shares, tip, mainchainDiff.Mul64(2)), tip, EmptyWalk());
    hide WalkFrom, Credited, Raw, UpToWraps, Difficulty.Value, Difficulty.Mul64;
    var w := WindowOf(shares, tip, mainchainDiff);
    SameRemainder(Credited(w.credits), Raw(w.visits));
  }

  lemma SameRemainder(part: nat, total: nat)
    requires UpToWraps(part, total)
    ensures part % TWO128 == total % TWO128
    ensures total < TWO128 ==> part == total == part % TWO128
  {
    var gap := total - part;
    QuotientFacts(gap, TWO128);
    QuotientFacts(part, TWO128);
    QuotientUnique(total, TWO128, gap / TWO128 + part / TWO128, part % TWO128);
    if total < TWO128 {
      QuotientUnique(gap, TWO128, 0, gap);
      QuotientUnique(total, TWO128, 0, total);
    }
  }

  // ---------------------------------------------------------------------------------------------
  // The weight cap
  // ---------------------------------------------------------------------------------------------

  /** The running weight after the first `n` credits, as the 128-bit register holds it. */
  function Running(credits: seq<Credit>, n: nat): nat
    requires n <= |credits|
  {
    Credited(credits[..n]) % TWO128
  }

  /** Before a main share, and right after an uncle, the running weight is within the cap. */
  predicate CreditCapped(credits: seq<Credit>, i: nat, cap: nat)
    requires i < |credits|
  {
    if credits[i].isUncle then Running(credits, i + 1) <= cap else Running(credits, i) <= cap
  }

  predicate WithinCap(credits: seq<Credit>, cap: nat) {
    forall i :: 0 <= i < |credits| ==> CreditCapped(credits, i, cap)
  }

  lemma WithinCapAppend(credits: seq<Credit>, c: Credit, cap: nat)
    requires WithinCap(credits, cap)
    requires if c.isUncle then Credited(credits + [c]) % TWO128 <= cap else Credited(credits) % TWO128 <= cap
    ensures WithinCap(credits + [c], cap)
  {
    hide Running, Credited;
    var all, n := credits + [c], |credits|;
    forall i | 0 <= i < |all| ensures CreditCapped(all, i, cap) {
      if i < n {
        assert all[i] == credits[i] && CreditCapped(credits, i, cap);
        RunningAppend(credits, c, i);
        RunningAppend(credits, c, i + 1);
      } else {
        RunningAppend(credits, c, n);
      }
    }
  }

  lemma RunningAppend(credits: seq<Credit>, c: Credit, n: nat)
    requires n <= |credits|
    ensures Running(credits + [c], n) == Running(credits, n)
    ensures Running(credits, |credits|) == Credited(credits) % TWO128
    ensures Running(credits + [c], |credits| + 1) == Credited(credits + [c]) % TWO128
  {
    assert (credits + [c])[..n] == credits[..n];
    assert credits[..|credits|] == credits;
    assert (credits + [c])[..|credits| + 1] == credits + [c];
  }

  /** What each step of the uncle loop keeps for the cap. */
  predicate ScanCapped(ctx: Context, s: Scan) {
    && s.weight.Value() == Credited(s.credits) % TWO128 <= ctx.maxWeight.Value()
    && WithinCap(s.credits, ctx.maxWeight.Value())
  }

  lemma {:induction false} ScanUnclesCapped(ctx: Context, cur: Share, w: Walk, k: nat)
    requires k <= |cur.uncles|
    requires w.weight.Value() == Credited(w.credits) % TWO128 <= ctx.maxWeight.Value()
    requires WithinCap(w.credits, ctx.maxWeight.Value())
    ensures ScanCapped(ctx, ScanUncles(ctx, cur, w, k))
  {
    hide Credited, UncleWeight, UnclePenalty, Difficulty.Value, Difficulty.Add, Difficulty.Cmp, WithinCap;
    if k > 0 {
      ScanUnclesCapped(ctx, cur, w, k - 1);
      var s, id := ScanUncles(ctx, cur, w, k - 1), cur.uncles[k - 1];
      if Counts(ctx, s.weight, id) {
        var uncle := ctx.shares[id];
        var c := Credit(uncle.minerWallet, UncleWeight(uncle), true, |w.visits|);
        AddsCredit(s.weight, s.credits, c);
        WithinCapAppend(s.credits, c, ctx.maxWeight.Value());
      }
    }
  }

  /** What a walk that may go on has kept for the cap, and what a finished one may exceed it by. */
  predicate WalkCapped(ctx: Context, w: Walk) {
    && w.weight.Value() == Credited(w.credits) % TWO128
    && WithinCap(w.credits, ctx.maxWeight.Value())
    && (w.credits != [] ==> w.weight.Value() <= ctx.maxWeight.Value() + w.credits[|w.credits| - 1].weight.Value())
  }

  lemma VisitCapped(ctx: Context, cur: Share, w: Walk)
    requires WalkCapped(ctx, w) && w.weight.Value() <= ctx.maxWeight.Value()
    ensures WalkCapped(ctx, VisitShare(ctx, cur, w))
  {
    hide Credited, Difficulty.Value, Difficulty.Add, WithinCap;
    var s := ScanUncles(ctx, cur, w, |cur.uncles|);
    ScanUnclesCapped(ctx, cur, w, |cur.uncles|);
    var c := Credit(cur.minerWallet, s.curWeight, false, |w.visits|);
    AddsCredit(s.weight, s.credits, c);
    WithinCapAppend(s.credits, c, ctx.maxWeight.Value());
    QuotientFacts(s.weight.Value() + s.curWeight.Value(), TWO128);
  }

  lemma {:induction false} WalkFromCapped(ctx: Context, cur: Share, w: Walk)
    requires |w.visits| < PPLNS_WINDOW
    requires WalkCapped(ctx, w) && w.weight.Value() <= ctx.maxWeight.Value()
    ensures WalkCapped(ctx, WalkFrom(ctx, cur, w))
    decreases PPLNS_WINDOW - |w.visits|
  {
    hide WalkCapped, Difficulty.Value, Difficulty.Cmp;
    var w' := VisitShare(ctx, cur, w);
    VisitCapped(ctx, cur, w);
    if !Stops(ctx, cur, w') {
      WalkFromCapped(ctx, ctx.shares[cur.parent], w');
    }
  }

  /** The penalties that the counted uncles of a share hand to its miner. */
  function PenaltySum(uncles: seq<Share>): nat {
    if uncles == [] then 0
    else PenaltySum(uncles[..|uncles| - 1]) + UnclePenalty(uncles[|uncles| - 1]).Value()
  }

  /** What a visit is worth to the miner of its main share: its own difficulty and the penalties it collects. */
  function Collected(v: Visit): nat {
    v.share.difficulty.Value() + PenaltySum(v.counted)
  }

  lemma {:induction false} ScanCollects(ctx: Context, cur: Share, w: Walk, k: nat)
    requires k <= |cur.uncles|
    ensures var s := ScanUncles(ctx, cur, w, k);
            s.curWeight.Value() == (cur.difficulty.Value() + PenaltySum(s.counted)) % TWO128
  {
    hide UnclePenalty, UncleWeight, Difficulty.Value;
    if k == 0 {
      InRange(cur.difficulty.Value(), TWO128);
    } else {
      ScanCollects(ctx, cur, w, k - 1);
      var s, id := ScanUncles(ctx, cur, w, k - 1), cur.uncles[k - 1];
      if Counts(ctx, s.weight, id) {
        assert (s.counted + [ctx.shares[id]])[..|s.counted|] == s.counted;
        ModOfSum(cur.difficulty.Value() + PenaltySum(s.counted), UnclePenalty(ctx.shares[id]).Value());
      }
    }
  }

  lemma {:induction false} PenaltiesAtMostDifficulties(uncles: seq<Share>)
    ensures PenaltySum(uncles) <= DifficultySum(uncles)
  {
    hide UnclePenalty, Difficulty.Value;
    if uncles != [] {
      PenaltiesAtMostDifficulties(uncles[..|uncles| - 1]);
      PenaltyAtMostDifficulty(uncles[|uncles| - 1]);
    }
  }

  /** A walk ends with the credit of its last main share: the share's difficulty and its collected penalties. */
  predicate EndsWithMain(w: Walk) {
    && w.visits != [] && w.credits != []
    && !w.credits[|w.credits| - 1].isUncle
    && w.credits[|w.credits| - 1].weight.Value() == Collected(w.visits[|w.visits| - 1]) % TWO128
  }

  lemma {:induction false} WalkEndsWithMain(ctx: Context, cur: Share, w: Walk)
    requires |w.visits| < PPLNS_WINDOW
    ensures EndsWithMain(WalkFrom(ctx, cur, w))
    decreases PPLNS_WINDOW - |w.visits|
  {
    hide ScanUncles, Collected, Difficulty.Value, Difficulty.Add;
    var w' := VisitShare(ctx, cur, w);
    VisitEndsWithMain(ctx, cur, w);
    if !Stops(ctx, cur, w') {
      WalkEndsWithMain(ctx, ctx.shares[cur.parent], w');
    }
  }

  lemma VisitEndsWithMain(ctx: Context, cur: Share, w: Walk)
    ensures EndsWithMain(VisitShare(ctx, cur, w))
  {
    hide ScanUncles, Difficulty.Value, Difficulty.Add;
    ScanCollects(ctx, cur, w, |cur.uncles|);
  }

  /** The last visit is part of the raw sum, so without a wrap of that sum its credit does not wrap either. */
  lemma LastCollected(w: Walk)
    requires EndsWithMain(w) && Raw(w.visits) < TWO128
    ensures w.credits[|w.credits| - 1].weight.Value() == Collected(w.visits[|w.visits| - 1])
  {
    hide Difficulty.Value;
    var last := w.visits[|w.visits| - 1];
    PenaltiesAtMostDifficulties(last.counted);
    InRange(Collected(last), TWO128);
  }

  /**
   * The cap over a whole run; it is twice the mainchain difficulty whenever that fits 128 bits. The total exceeds
   * it by at most the last visited share's own difficulty plus the penalties that share collects.
   */
  lemma CapRespected(shares: map<Hash, Share>, tip: Share, mainchainDiff: Difficulty)
    ensures var w, cap := WindowOf(shares, tip, mainchainDiff), mainchainDiff.Mul64(2).Value();
            && WithinCap(w.credits, cap) && EndsWithMain(w)
            && w.weight.Value() <= cap + w.credits[|w.credits| - 1].weight.Value()
            && (Raw(w.visits) < TWO128 ==> w.weight.Value() <= cap + Collected(w.visits[|w.visits| - 1]))
    ensures 2 * mainchainDiff.Value() < TWO128 ==> mainchainDiff.Mul64(2).Value() == 2 * mainchainDiff.Value()
  {
    hide WithinCap, Collected, Raw, WalkFrom, Difficulty.Value, Difficulty.Mul64, Difficulty.Cmp;
    var ctx := Context(shares, tip, mainchainDiff.Mul64(2));
    var w := WalkFrom(ctx, tip, EmptyWalk());
    StartsCapped(ctx);
    WalkFromCapped(ctx, tip, EmptyWalk());
    WalkEndsWithMain(ctx, tip, EmptyWalk());
    if Raw(w.visits) < TWO128 {
      LastCollected(w);
    }
    if 2 * mainchainDiff.Value() < TWO128 {
      InRange(2 * mainchainDiff.Value(), TWO128);
    }
  }

  lemma StartsCapped(ctx: Context)
    ensures WalkCapped(ctx, EmptyWalk()) && EmptyWalk().weight.Value() <= ctx.maxWeight.Value()
  {
  }

  // ---------------------------------------------------------------------------------------------
  // The chain of visited shares
  // ---------------------------------------------------------------------------------------------

  /** Parents from `share` on, at most `maxDepth` of them, ending at a zero or unknown parent. */
  function Chain(shares: map<Hash, Share>, share: Share, maxDepth: nat): seq<Share>
    decreases maxDepth
  {
    if maxDepth == 0 then []
    else if share.parent == ZeroHash() || share.parent !in shares then [share]
    else [share] + Chain(shares, shares[share.parent], maxDepth - 1)
  }

  function Visited(w: Walk): seq<Share> {
    seq(|w.visits|, i requires 0 <= i < |w.visits| => w.visits[i].share)
  }

  lemma VisitedAfter(ctx: Context, cur: Share, w: Walk)
    ensures Visited(VisitShare(ctx, cur, w)) == Visited(w) + [cur]
  {
    hide ScanUncles;
  }

  lemma {:induction false} WalkFollowsChain(ctx: Context, cur: Share, w: Walk)
    requires |w.visits| < PPLNS_WINDOW && ZeroHash() !in ctx.shares
    ensures Visited(w) + [cur] <= Visited(WalkFrom(ctx, cur, w))
    ensures Visited(WalkFrom(ctx, cur, w)) <= Visited(w) + Chain(ctx.shares, cur, PPLNS_WINDOW - |w.visits|)
    decreases PPLNS_WINDOW - |w.visits|
  {
    hide ScanUncles, Visited, VisitShare;
    var w' := VisitShare(ctx, cur, w);
    VisitedAfter(ctx, cur, w);
    VisitCount(ctx, cur, w);
    if !Stops(ctx, cur, w') {
      var parent := ctx.shares[cur.parent];
      WalkFollowsChain(ctx, parent, w');
      var rest := Chain(ctx.shares, parent, PPLNS_WINDOW - |w.visits| - 1);
      assert Visited(w) + [cur] + rest == Visited(w) + ([cur] + rest);
    }
  }

  lemma VisitCount(ctx: Context, cur: Share, w: Walk)
    ensures |VisitShare(ctx, cur, w).visits| == |w.visits| + 1
  {
    hide ScanUncles;
  }

  lemma {:induction false} WalkLength(ctx: Context, cur: Share, w: Walk)
    requires |w.visits| < PPLNS_WINDOW
    ensures |w.visits| < |WalkFrom(ctx, cur, w).visits| <= PPLNS_WINDOW
    decreases PPLNS_WINDOW - |w.visits|
  {
    hide VisitShare;
    var w' := VisitShare(ctx, cur, w);
    VisitCount(ctx, cur, w);
    if !Stops(ctx, cur, w') {
      WalkLength(ctx, ctx.shares[cur.parent], w');
    }
  }

  /** On every map, cyclic ones included, the walk ends after 1 to 2160 shares, along the parent chain. */
  lemma WalkBounded(shares: map<Hash, Share>, tip: Share, mainchainDiff: Difficulty)
    ensures var w := WindowOf(shares, tip, mainchainDiff);
            && 1 <= |w.visits| <= PPLNS_WINDOW && w.visits[0].share == tip
            && (ZeroHash() !in shares ==> Visited(w) <= Chain(shares, tip, PPLNS_WINDOW))
  {
    hide WalkFrom, Chain, Difficulty.Mul64, Difficulty.Value;
    var ctx := Context(shares, tip, mainchainDiff.Mul64(2));
    WalkLength(ctx, tip, EmptyWalk());
    StartsAt(ctx, tip, EmptyWalk());
    if ZeroHash() !in shares {
      WalkFollowsChain(ctx, tip, EmptyWalk());
      assert Visited(EmptyWalk()) == [];
    }
  }

  lemma {:induction false} StartsAt(ctx: Context, cur: Share, w: Walk)
    requires |w.visits| < PPLNS_WINDOW
    ensures |w.visits| < |WalkFrom(ctx, cur, w).visits|
    ensures WalkFrom(ctx, cur, w).visits[..|w.visits|] == w.visits
    ensures WalkFrom(ctx, cur, w).visits[|w.visits|].share == cur
    decreases PPLNS_WINDOW - |w.visits|
  {
    hide ScanUncles;
    var w' := VisitShare(ctx, cur, w);
    WalkLength(ctx, cur, w);
    if !Stops(ctx, cur, w') {
      StartsAt(ctx, ctx.shares[cur.parent], w');
      assert w'.visits[..|w.visits|] == w.visits;
    }
  }

  /** Every share is one above its parent. */
  predicate HeightConsistent(shares: map<Hash, Share>, share: Share) {
    share.parent in shares && share.sidechainHeight > 0 ==>
      shares[share.parent].sidechainHeight == share.sidechainHeight - 1
  }

  predicate AllHeightConsistent(shares: map<Hash, Share>, tip: Share) {
    && HeightConsistent(shares, tip)
    && forall h | h in shares :: HeightConsistent(shares, shares[h])
  }

  predicate HeightsDescend(w: Walk, tip: Share) {
    forall i :: 0 <= i < |w.visits| ==> w.visits[i].share.sidechainHeight == tip.sidechainHeight - i
  }

  lemma {:induction false} WalkDescends(ctx: Context, cur: Share, w: Walk)
    requires |w.visits| < PPLNS_WINDOW
    requires AllHeightConsistent(ctx.shares, ctx.tip) && HeightConsistent(ctx.shares, cur)
    requires HeightsDescend(w, ctx.tip) && cur.sidechainHeight == ctx.tip.sidechainHeight - |w.visits|
    ensures HeightsDescend(WalkFrom(ctx, cur, w), ctx.tip)
    decreases PPLNS_WINDOW - |w.visits|
  {
    hide ScanUncles;
    var w' := VisitShare(ctx, cur, w);
    if !Stops(ctx, cur, w') {
      WalkDescends(ctx, ctx.shares[cur.parent], w');
    }
  }

  /** With consistent heights no share is visited twice, and the heights determine the window's size. */
  lemma WalkDistinct(shares: map<Hash, Share>, tip: Share, mainchainDiff: Difficulty)
    requires AllHeightConsistent(shares, tip)
    ensures var w := WindowOf(shares, tip, mainchainDiff);
            && |w.visits| >= 1
            && (forall i, j :: 0 <= i < j < |w.visits| ==> w.visits[i].share != w.visits[j].share)
            && w.visits[|w.visits| - 1].share.sidechainHeight == tip.sidechainHeight - |w.visits| + 1
  {
    WalkLength(Context(shares, tip, mainchainDiff.Mul64(2)), tip, EmptyWalk());
    WalkDescends(Context(shares, tip, mainchainDiff.Mul64(2)), tip, EmptyWalk());
    hide WalkFrom;
  }

  // ---------------------------------------------------------------------------------------------
  // Counted uncles
  // ---------------------------------------------------------------------------------------------

  function UnclesOf(visits: seq<Visit>): nat {
    if visits == [] then 0 else UnclesOf(visits[..|visits| - 1]) + |visits[|visits| - 1].counted|
  }

  lemma UnclesAppend(visits: seq<Visit>, v: Visit)
    ensures UnclesOf(visits + [v]) == UnclesOf(visits) + |v.counted|
  {
    assert (visits + [v])[..|visits|] == visits;
  }
}
