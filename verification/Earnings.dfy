/** The window and what every miner earns in it, said of the visited shares alone and in natural numbers. */
module Earnings {
  import opened GoInt
  import opened Wire
  import opened Difficulties
  import opened Shares
  import opened Window
  import opened Tally
  import opened Accounting

  // ---------------------------------------------------------------------------------------------
  // Uncles
  // ---------------------------------------------------------------------------------------------

  /** What an uncle loses to the share that counts it: 20 hundredths, in a register of 128 bits. */
  function Penalty(uncle: Share): nat {
    QuotientFacts(uncle.difficulty.Value() * 20 % TWO128, 100);
    uncle.difficulty.Value() * 20 % TWO128 / 100
  }

  /** What is left of it for the uncle's own miner. */
  function Left(uncle: Share): (n: nat)
    ensures n + Penalty(uncle) == uncle.difficulty.Value()
  {
    PenaltyIs(uncle);
    PenaltyAtMostDifficulty(uncle);
    uncle.difficulty.Value() - Penalty(uncle)
  }

  lemma PenaltyIs(uncle: Share)
    ensures Penalty(uncle) == UnclePenalty(uncle).Value()
  {
  }

  lemma LeftIs(uncle: Share)
    ensures Left(uncle) == UncleWeight(uncle).Value()
  {
    PenaltyIs(uncle);
    PenaltyAtMostDifficulty(uncle);
  }

  function LeftSum(uncles: seq<Share>): nat {
    if uncles == [] then 0 else LeftSum(uncles[..|uncles| - 1]) + Left(uncles[|uncles| - 1])
  }

  function Penalties(uncles: seq<Share>): nat {
    if uncles == [] then 0 else Penalties(uncles[..|uncles| - 1]) + Penalty(uncles[|uncles| - 1])
  }

  /** Less than 2160 below the tip; an uncle above it is as far away as 64 bits reach. */
  predicate NearTip(tip: Share, uncle: Share) {
    if uncle.sidechainHeight <= tip.sidechainHeight then tip.sidechainHeight - uncle.sidechainHeight < 2160
    else tip.sidechainHeight - uncle.sidechainHeight + TWO64 < 2160
  }

  /**
   * Which of the listed uncles are counted, when the shares before them weigh `before`: those in the map, near
   * the tip, and at their turn not pushing the weight over the cap.
   */
  function CountedAmong(shares: map<Hash, Share>, tip: Share, cap: nat, before: nat, uncles: seq<Hash>): seq<Share> {
    if uncles == [] then []
    else
      var counted, id := CountedAmong(shares, tip, cap, before, uncles[..|uncles| - 1]), uncles[|uncles| - 1];
      if && id in shares && NearTip(tip, shares[id])
         && (before + LeftSum(counted) + Left(shares[id])) % TWO128 <= cap
      then counted + [shares[id]] else counted
  }

  // ---------------------------------------------------------------------------------------------
  // The walk
  // ---------------------------------------------------------------------------------------------

  /** Over the cap, 2160 shares long, at the genesis block, or without a known parent. */
  predicate MustStop(shares: map<Hash, Share>, cap: nat, visits: seq<Visit>)
    requires visits != []
  {
    var last := visits[|visits| - 1].share;
    Raw(visits) % TWO128 > cap || |visits| >= 2160 || last.sidechainHeight == 0 || last.parent !in shares
  }

  /** Visit `i` is the tip, or the parent of a visit at which the walk need not stop; its uncles are as above. */
  predicate Follows(shares: map<Hash, Share>, tip: Share, cap: nat, visits: seq<Visit>, i: nat)
    requires i < |visits|
  {
    && visits[i].counted == CountedAmong(shares, tip, cap, Raw(visits[..i]), visits[i].share.uncles)
    && if i == 0 then visits[i].share == tip
       else !MustStop(shares, cap, visits[..i]) && visits[i].share == shares[visits[i - 1].share.parent]
  }

  /** The visits of a whole window. */
  predicate IsWindow(shares: map<Hash, Share>, tip: Share, cap: nat, visits: seq<Visit>) {
    && visits != [] && MustStop(shares, cap, visits)
    && forall i :: 0 <= i < |visits| ==> Follows(shares, tip, cap, visits, i)
  }

  lemma CountsWrittenOut(ctx: Context, weight: Difficulty, id: Hash, before: nat)
    requires weight.Value() == before % TWO128
    ensures Counts(ctx, weight, id)
            <==> && id in ctx.shares && NearTip(ctx.tip, ctx.shares[id])
                 && (before + Left(ctx.shares[id])) % TWO128 <= ctx.maxWeight.Value()
  {
    if id in ctx.shares {
      var uncle := ctx.shares[id];
      LeftIs(uncle);
      ModOfSum(before, Left(uncle));
      ModNear(ctx.tip.sidechainHeight - uncle.sidechainHeight, TWO64);
      hide Difficulty.Value, UncleWeight, Left;
    }
  }

  /** The state of the uncle loop after the uncles `ids`, in natural numbers. */
  predicate Scanning(ctx: Context, before: nat, s: Scan, ids: seq<Hash>) {
    && s.counted == CountedAmong(ctx.shares, ctx.tip, ctx.maxWeight.Value(), before, ids)
    && s.weight.Value() == (before + LeftSum(s.counted)) % TWO128
  }

  lemma ScanOne(ctx: Context, before: nat, s: Scan, ids: seq<Hash>, id: Hash, depth: nat)
    requires Scanning(ctx, before, s, ids)
    ensures Scanning(ctx, before, ScanUncle(ctx, s, id, depth), ids + [id])
  {
    hide Counts, UncleWeight, UnclePenalty, Difficulty.Value, Difficulty.Add, Left, NearTip, LeftSum;
    assert (ids + [id])[..|ids|] == ids;
    CountsWrittenOut(ctx, s.weight, id, before + LeftSum(s.counted));
    if Counts(ctx, s.weight, id) {
      LeftAppend(s.counted, ctx.shares[id]);
      LeftIs(ctx.shares[id]);
      ModOfSum(before + LeftSum(s.counted), Left(ctx.shares[id]));
      AddedLeft(s.weight, ctx.shares[id]);
    }
  }

  lemma {:induction false} ScanCounts(ctx: Context, cur: Share, w: Walk, k: nat)
    requires k <= |cur.uncles| && w.weight.Value() == Raw(w.visits) % TWO128
    ensures Scanning(ctx, Raw(w.visits), ScanUncles(ctx, cur, w, k), cur.uncles[..k])
  {
    hide ScanUncle, Raw, Difficulty.Value;
    if k > 0 {
      ScanCounts(ctx, cur, w, k - 1);
      assert cur.uncles[..k] == cur.uncles[..k - 1] + [cur.uncles[k - 1]];
      ScanOne(ctx, Raw(w.visits), ScanUncles(ctx, cur, w, k - 1), cur.uncles[..k - 1], cur.uncles[k - 1], |w.visits|);
    }
  }

  lemma AddedLeft(weight: Difficulty, uncle: Share)
    ensures weight.Add(UncleWeight(uncle)).Value() == (weight.Value() + UncleWeight(uncle).Value()) % TWO128
  {
  }

  lemma LeftAppend(uncles: seq<Share>, uncle: Share)
    ensures LeftSum(uncles + [uncle]) == LeftSum(uncles) + Left(uncle)
    ensures Penalties(uncles + [uncle]) == Penalties(uncles) + Penalty(uncle)
  {
    assert (uncles + [uncle])[..|uncles|] == uncles;
  }

  /** What has been visited follows, and `cur` is what follows next. */
  predicate Underway(ctx: Context, cur: Share, w: Walk) {
    && WalkConserves(w)
    && (forall i :: 0 <= i < |w.visits| ==> Follows(ctx.shares, ctx.tip, ctx.maxWeight.Value(), w.visits, i))
    && if w.visits == [] then cur == ctx.tip
       else !MustStop(ctx.shares, ctx.maxWeight.Value(), w.visits)
            && cur == ctx.shares[w.visits[|w.visits| - 1].share.parent]
  }

  lemma FollowsAppend(shares: map<Hash, Share>, tip: Share, cap: nat, visits: seq<Visit>, v: Visit)
    requires forall i :: 0 <= i < |visits| ==> Follows(shares, tip, cap, visits, i)
    requires v.counted == CountedAmong(shares, tip, cap, Raw(visits), v.share.uncles)
    requires if visits == [] then v.share == tip
             else !MustStop(shares, cap, visits) && v.share == shares[visits[|visits| - 1].share.parent]
    ensures forall i :: 0 <= i < |visits| + 1 ==> Follows(shares, tip, cap, visits + [v], i)
  {
    hide MustStop, CountedAmong, Raw;
    var all := visits + [v];
    forall i | 0 <= i < |all|
      ensures Follows(shares, tip, cap, all, i)
    {
      assert all[..i] == visits[..i];
      if i < |visits| {
        assert Follows(shares, tip, cap, visits, i);
      } else {
        assert visits[..i] == visits;
      }
    }
  }

  lemma VisitFollows(ctx: Context, cur: Share, w: Walk)
    requires Underway(ctx, cur, w)
    ensures var w' := VisitShare(ctx, cur, w);
            && WalkConserves(w')
            && w'.visits != [] && w'.visits[|w'.visits| - 1].share == cur
            && forall i :: 0 <= i < |w'.visits| ==> Follows(ctx.shares, ctx.tip, ctx.maxWeight.Value(), w'.visits, i)
  {
    hide Follows, ScanUncles, Raw, Credited, UpToWraps, Difficulty.Value, Difficulty.Add, MustStop, CountedAmong;
    VisitConserves(ctx, cur, w);
    WeightIsRaw(w);
    ScanCounts(ctx, cur, w, |cur.uncles|);
    assert cur.uncles[..|cur.uncles|] == cur.uncles;
    var s := ScanUncles(ctx, cur, w, |cur.uncles|);
    FollowsAppend(ctx.shares, ctx.tip, ctx.maxWeight.Value(), w.visits, Visit(cur, s.counted));
  }

  lemma WeightIsRaw(w: Walk)
    requires WalkConserves(w)
    ensures w.weight.Value() == Raw(w.visits) % TWO128
  {
    SameRemainder(Credited(w.credits), Raw(w.visits));
  }

  lemma StopsWrittenOut(ctx: Context, cur: Share, w: Walk)
    requires WalkConserves(w) && w.visits != [] && w.visits[|w.visits| - 1].share == cur
    ensures Stops(ctx, cur, w) <==> MustStop(ctx.shares, ctx.maxWeight.Value(), w.visits)
  {
    hide Difficulty.Value, Raw, WalkConserves;
    WeightIsRaw(w);
  }

  lemma {:induction false} WalkFollows(ctx: Context, cur: Share, w: Walk)
    requires |w.visits| < PPLNS_WINDOW && Underway(ctx, cur, w)
    ensures IsWindow(ctx.shares, ctx.tip, ctx.maxWeight.Value(), WalkFrom(ctx, cur, w).visits)
    decreases PPLNS_WINDOW - |w.visits|
  {
    hide Follows, VisitShare, Stops, MustStop, WalkConserves, Difficulty.Value;
    var w' := VisitShare(ctx, cur, w);
    VisitFollows(ctx, cur, w);
    VisitCount(ctx, cur, w);
    StopsWrittenOut(ctx, cur, w');
    if !Stops(ctx, cur, w') {
      GoesOn(ctx, cur, w');
      WalkFollows(ctx, ctx.shares[cur.parent], w');
    }
  }

  lemma GoesOn(ctx: Context, cur: Share, w: Walk)
    requires !Stops(ctx, cur, w)
    ensures |w.visits| < PPLNS_WINDOW && cur.parent in ctx.shares
  {
  }

  /**
   * For every share map, tip and difficulty: the visits start at the tip, go to the parent as long as the walk
   * need not stop, stop where it must, and count exactly the uncles that qualify. There is only one such list.
   */
  lemma WindowExactly(shares: map<Hash, Share>, tip: Share, mainchainDiff: Difficulty, visits: seq<Visit>)
    ensures IsWindow(shares, tip, 2 * mainchainDiff.Value() % TWO128, visits)
            <==> visits == WindowOf(shares, tip, mainchainDiff).visits
  {
    var ctx := Context(shares, tip, mainchainDiff.Mul64(2));
    assert ctx.maxWeight.Value() == 2 * mainchainDiff.Value() % TWO128;
    StartsEmpty(ctx);
    WalkFollows(ctx, tip, EmptyWalk());
    var cap, window := 2 * mainchainDiff.Value() % TWO128, WindowOf(shares, tip, mainchainDiff).visits;
    hide WalkFrom, IsWindow, Difficulty.Value, Difficulty.Mul64;
    if IsWindow(shares, tip, cap, visits) {
      OneWindow(shares, tip, cap, visits, window);
    }
  }

  lemma StartsEmpty(ctx: Context)
    ensures Underway(ctx, ctx.tip, EmptyWalk())
  {
  }

  lemma {:induction false} SamePrefix(shares: map<Hash, Share>, tip: Share, cap: nat, a: seq<Visit>, b: seq<Visit>,
                                      k: nat)
    requires k <= |a| && k <= |b|
    requires IsWindow(shares, tip, cap, a) && IsWindow(shares, tip, cap, b)
    ensures a[..k] == b[..k]
  {
    hide MustStop, CountedAmong, Raw;
    if k > 0 {
      SamePrefix(shares, tip, cap, a, b, k - 1);
      assert Follows(shares, tip, cap, a, k - 1) && Follows(shares, tip, cap, b, k - 1);
      assert k > 1 ==> a[k - 2] == a[..k - 1][k - 2] == b[..k - 1][k - 2] == b[k - 2];
      assert a[..k] == a[..k - 1] + [a[k - 1]] && b[..k] == b[..k - 1] + [b[k - 1]];
    }
  }

  /** Inside a window the walk need not have stopped. */
  lemma NoStopInside(shares: map<Hash, Share>, tip: Share, cap: nat, visits: seq<Visit>, k: nat)
    requires IsWindow(shares, tip, cap, visits) && 0 < k < |visits|
    ensures !MustStop(shares, cap, visits[..k])
  {
    hide MustStop, CountedAmong, Raw;
    assert Follows(shares, tip, cap, visits, k);
  }

  lemma OneWindow(shares: map<Hash, Share>, tip: Share, cap: nat, a: seq<Visit>, b: seq<Visit>)
    requires IsWindow(shares, tip, cap, a) && IsWindow(shares, tip, cap, b)
    ensures a == b
  {
    hide MustStop, Follows;
    var k := if |a| < |b| then |a| else |b|;
    SamePrefix(shares, tip, cap, a, b, k);
    assert a[..|a|] == a && b[..|b|] == b;
    if k < |b| {
      NoStopInside(shares, tip, cap, b, k);
    } else if k < |a| {
      NoStopInside(shares, tip, cap, a, k);
    }
  }

  // ---------------------------------------------------------------------------------------------
  // Who earns what
  // ---------------------------------------------------------------------------------------------

  /** What `a` keeps of its own uncles among the counted ones. */
  function LeftOf(uncles: seq<Share>, a: Address): nat {
    if uncles == [] then 0
    else
      var last := |uncles| - 1;
      LeftOf(uncles[..last], a) + (if uncles[last].minerWallet == a then Left(uncles[last]) else 0)
  }

  /** Of one visit: its difficulty and the penalties for its miner, the rest of each uncle for the uncle's. */
  function EarnedIn(v: Visit, a: Address): nat {
    LeftOf(v.counted, a) + (if v.share.minerWallet == a then v.share.difficulty.Value() + Penalties(v.counted) else 0)
  }

  function Earned(visits: seq<Visit>, a: Address): nat {
    if visits == [] then 0 else Earned(visits[..|visits| - 1], a) + EarnedIn(visits[|visits| - 1], a)
  }

  /** The depths at which `a` has a main share. */
  function MainDepths(visits: seq<Visit>, a: Address): seq<nat> {
    if visits == [] then []
    else
      var last := |visits| - 1;
      MainDepths(visits[..last], a) + (if visits[last].share.minerWallet == a then [last] else [])
  }

  /** The depth `d` once for every uncle of `a`. */
  function DepthsIn(uncles: seq<Share>, a: Address, d: nat): seq<nat> {
    if uncles == [] then []
    else
      var last := |uncles| - 1;
      DepthsIn(uncles[..last], a, d) + (if uncles[last].minerWallet == a then [d] else [])
  }

  /** The depths at which `a` has a counted uncle, with multiplicity. */
  function UncleDepths(visits: seq<Visit>, a: Address): seq<nat> {
    if visits == [] then []
    else
      var last := |visits| - 1;
      UncleDepths(visits[..last], a) + DepthsIn(visits[last].counted, a, last)
  }

  /** Every miner's part of the credits is what its visits and uncles come to. */
  ghost predicate CreditsEarned(w: Walk, a: Address) {
    && UpToWraps(Of(w.credits, a, InWeight), Earned(w.visits, a))
    && Depths(w.credits, a, false) == MainDepths(w.visits, a)
    && Depths(w.credits, a, true) == UncleDepths(w.visits, a)
  }

  predicate ScanEarned(w: Walk, s: Scan, a: Address) {
    && UpToWraps(Of(s.credits, a, InWeight), Earned(w.visits, a) + LeftOf(s.counted, a))
    && Depths(s.credits, a, false) == MainDepths(w.visits, a)
    && Depths(s.credits, a, true) == UncleDepths(w.visits, a) + DepthsIn(s.counted, a, |w.visits|)
  }

  lemma OfAppend(credits: seq<Credit>, c: Credit, a: Address)
    ensures Of(credits + [c], a, InWeight) == Of(credits, a, InWeight) + (if c.addr == a then c.weight.Value() else 0)
    ensures Depths(credits + [c], a, true)
         == Depths(credits, a, true) + (if c.addr == a && c.isUncle then [c.depth] else [])
    ensures Depths(credits + [c], a, false)
         == Depths(credits, a, false) + (if c.addr == a && !c.isUncle then [c.depth] else [])
  {
    assert (credits + [c])[..|credits|] == credits;
  }

  lemma UncleAppend(uncles: seq<Share>, uncle: Share, a: Address, d: nat)
    ensures LeftOf(uncles + [uncle], a) == LeftOf(uncles, a) + (if uncle.minerWallet == a then Left(uncle) else 0)
    ensures DepthsIn(uncles + [uncle], a, d) == DepthsIn(uncles, a, d) + (if uncle.minerWallet == a then [d] else [])
  {
    assert (uncles + [uncle])[..|uncles|] == uncles;
  }

  lemma VisitAppend(visits: seq<Visit>, v: Visit, a: Address)
    ensures Earned(visits + [v], a) == Earned(visits, a) + EarnedIn(v, a)
    ensures MainDepths(visits + [v], a)
         == MainDepths(visits, a) + (if v.share.minerWallet == a then [|visits|] else [])
    ensures UncleDepths(visits + [v], a) == UncleDepths(visits, a) + DepthsIn(v.counted, a, |visits|)
  {
    assert (visits + [v])[..|visits|] == visits;
  }

  lemma SameWraps(part: nat, total: nat, x: nat)
    requires UpToWraps(part, total)
    ensures UpToWraps(part + x, total + x)
  {
  }

  lemma ReduceWraps(part: nat, total: nat, x: nat)
    requires UpToWraps(part, total)
    ensures UpToWraps(part + x % TWO128, total + x)
  {
    QuotientFacts(x, TWO128);
    QuotientFacts(total - part, TWO128);
    var gap := total + x - (part + x % TWO128);
    QuotientUnique(gap, TWO128, (total - part) / TWO128 + x / TWO128, 0);
  }

  lemma ScanOneEarned(ctx: Context, w: Walk, s: Scan, id: Hash, a: Address)
    requires ScanEarned(w, s, a)
    ensures ScanEarned(w, ScanUncle(ctx, s, id, |w.visits|), a)
  {
    hide UncleWeight, UnclePenalty, Difficulty.Value, Difficulty.Add, Difficulty.Cmp, Left, Of, Depths, LeftOf,
         DepthsIn, Earned, MainDepths, UncleDepths, UpToWraps;
    if Counts(ctx, s.weight, id) {
      var uncle := ctx.shares[id];
      OfAppend(s.credits, Credit(uncle.minerWallet, UncleWeight(uncle), true, |w.visits|), a);
      UncleAppend(s.counted, uncle, a, |w.visits|);
      LeftIs(uncle);
      SameWraps(Of(s.credits, a, InWeight), Earned(w.visits, a) + LeftOf(s.counted, a), Left(uncle));
    }
  }

  lemma {:induction false} ScanUnclesEarned(ctx: Context, cur: Share, w: Walk, k: nat, a: Address)
    requires CreditsEarned(w, a) && k <= |cur.uncles|
    ensures ScanEarned(w, ScanUncles(ctx, cur, w, k), a)
  {
    hide ScanUncle, Of, Depths, Earned, UpToWraps, MainDepths, UncleDepths;
    if k > 0 {
      ScanUnclesEarned(ctx, cur, w, k - 1, a);
      ScanOneEarned(ctx, w, ScanUncles(ctx, cur, w, k - 1), cur.uncles[k - 1], a);
    }
  }

  lemma {:induction false} PenaltiesAre(uncles: seq<Share>)
    ensures Penalties(uncles) == PenaltySum(uncles)
  {
    hide Penalty, UnclePenalty, Difficulty.Value;
    if uncles != [] {
      PenaltiesAre(uncles[..|uncles| - 1]);
      PenaltyIs(uncles[|uncles| - 1]);
    }
  }

  lemma MainEarned(w: Walk, s: Scan, cur: Share, a: Address)
    requires ScanEarned(w, s, a)
    requires s.curWeight.Value() == (cur.difficulty.Value() + Penalties(s.counted)) % TWO128
    ensures CreditsEarned(AddMain(cur, w, s), a)
  {
    hide Difficulty.Value, Difficulty.Add, Of, Depths, LeftOf, DepthsIn, Earned, MainDepths, UncleDepths, UpToWraps,
         Penalties;
    OfAppend(s.credits, Credit(cur.minerWallet, s.curWeight, false, |w.visits|), a);
    VisitAppend(w.visits, Visit(cur, s.counted), a);
    ReduceWraps(Of(s.credits, a, InWeight), Earned(w.visits, a) + LeftOf(s.counted, a),
                cur.difficulty.Value() + Penalties(s.counted));
  }

  lemma VisitEarned(ctx: Context, cur: Share, w: Walk, a: Address)
    requires CreditsEarned(w, a)
    ensures CreditsEarned(VisitShare(ctx, cur, w), a)
  {
    hide ScanUncles, CreditsEarned, ScanEarned, Difficulty.Value, AddMain;
    var s := ScanUncles(ctx, cur, w, |cur.uncles|);
    ScanUnclesEarned(ctx, cur, w, |cur.uncles|, a);
    ScanCollects(ctx, cur, w, |cur.uncles|);
    PenaltiesAre(s.counted);
    MainEarned(w, s, cur, a);
  }

  lemma {:induction false} WalkEarned(ctx: Context, cur: Share, w: Walk, a: Address)
    requires |w.visits| < PPLNS_WINDOW && CreditsEarned(w, a)
    ensures CreditsEarned(WalkFrom(ctx, cur, w), a)
    decreases PPLNS_WINDOW - |w.visits|
  {
    hide CreditsEarned, VisitShare;
    var w' := VisitShare(ctx, cur, w);
    VisitEarned(ctx, cur, w, a);
    VisitCount(ctx, cur, w);
    if !Stops(ctx, cur, w') {
      WalkEarned(ctx, ctx.shares[cur.parent], w', a);
    }
  }

  /** All that is earned is the raw difficulty or a part of it. */
  lemma {:induction false} EarnedAtMostRaw(visits: seq<Visit>, a: Address)
    ensures Earned(visits, a) <= Raw(visits)
  {
    hide Difficulty.Value;
    if visits != [] {
      EarnedAtMostRaw(visits[..|visits| - 1], a);
      LeftAndPenalties(visits[|visits| - 1].counted, a);
    }
  }

  lemma {:induction false} LeftAndPenalties(uncles: seq<Share>, a: Address)
    ensures LeftOf(uncles, a) + Penalties(uncles) <= DifficultySum(uncles)
  {
    hide Difficulty.Value, Penalty, Left;
    if uncles != [] {
      LeftAndPenalties(uncles[..|uncles| - 1], a);
      var u := uncles[|uncles| - 1];
      assert Left(u) + Penalty(u) == u.difficulty.Value();
    }
  }

  lemma UpToNoWraps(part: nat, total: nat)
    requires UpToWraps(part, total)
    ensures part % TWO128 == total % TWO128
    ensures total < TWO128 ==> part % TWO128 == total
  {
    SameRemainder(part, total);
  }

  /** Whose share is visited, or whose uncle counted. */
  predicate Appears(visits: seq<Visit>, a: Address) {
    MainDepths(visits, a) != [] || UncleDepths(visits, a) != []
  }

  /** How many of the depths fall into bucket `b`, of 30 over a window of `size` shares. */
  function InBucket(depths: seq<nat>, size: nat, b: nat): nat {
    if depths == [] then 0
    else
      var d := depths[|depths| - 1];
      InBucket(depths[..|depths| - 1], size, b)
      + (if (if size > 1 then d * 29 / (size - 1) else 0) == b then 1 else 0)
  }

  /**
   * The account of every miner: it exists if a share of the miner is visited or counted, and holds what these
   * earned, where they were, and how they spread over the buckets.
   */
  lemma AccountsEarned(shares: map<Hash, Share>, tip: Share, mainchainDiff: Difficulty, a: Address)
    ensures var w := WindowOf(shares, tip, mainchainDiff);
            && (a in AccountsOf(w) <==> Appears(w.visits, a))
            && (a in AccountsOf(w) ==>
                  var r := AccountsOf(w)[a];
                  && r.addr == a && r.weight.Value() == Earned(w.visits, a) % TWO128
                  && (Raw(w.visits) < TWO128 ==> r.weight.Value() == Earned(w.visits, a))
                  && r.sharePositions == MainDepths(w.visits, a) && r.shareCount == |MainDepths(w.visits, a)|
                  && r.unclePositions == UncleDepths(w.visits, a) && r.uncleCount == |UncleDepths(w.visits, a)|
                  && |r.shareBuckets| == |r.uncleBuckets| == 30
                  && forall b :: 0 <= b < 30 ==>
                       && r.shareBuckets[b] == InBucket(MainDepths(w.visits, a), |w.visits|, b)
                       && r.uncleBuckets[b] == InBucket(UncleDepths(w.visits, a), |w.visits|, b))
  {
    var ctx := Context(shares, tip, mainchainDiff.Mul64(2));
    NothingEarned(a);
    WalkEarned(ctx, tip, EmptyWalk(), a);
    var w := WindowOf(shares, tip, mainchainDiff);
    hide WalkFrom, AccountsOf, Of, Earned, Raw, UpToWraps, Difficulty.Value, Difficulty.Mul64, MainDepths, UncleDepths,
         WellCounted;
    assert CreditsEarned(w, a);
    AccountAppears(w, a);
    EarnedAtMostRaw(w.visits, a);
    UpToNoWraps(Of(w.credits, a, InWeight), Earned(w.visits, a));
    WindowCounted(shares, tip, mainchainDiff);
    if a in AccountsOf(w) {
      AccountOf(w, a);
      BucketsEarned(w, a);
    }
  }

  lemma NothingEarned(a: Address)
    ensures CreditsEarned(EmptyWalk(), a)
  {
  }

  lemma {:induction false} CreditedAppears(credits: seq<Credit>, a: Address)
    ensures a in TallyOf(credits) <==> Depths(credits, a, false) != [] || Depths(credits, a, true) != []
  {
    hide Credit1;
    if credits != [] {
      CreditedAppears(credits[..|credits| - 1], a);
    }
  }

  lemma AccountAppears(w: Walk, a: Address)
    requires CreditsEarned(w, a)
    ensures a in AccountsOf(w) <==> Appears(w.visits, a)
  {
    hide TallyOf, Depths;
    CreditedAppears(w.credits, a);
  }

  lemma {:induction false} CountInBucket(depths: seq<nat>, size: nat, b: nat)
    requires forall i :: 0 <= i < |depths| ==> depths[i] < size
    ensures CountIn(depths, size, b) == InBucket(depths, size, b)
  {
    hide Bucket;
    if depths != [] {
      var d := depths[|depths| - 1];
      CountInBucket(depths[..|depths| - 1], size, b);
      BucketInside(d, size);
    }
  }

  lemma HistogramInBucket(depths: seq<nat>, size: nat, b: nat)
    requires b < 30 && forall i :: 0 <= i < |depths| ==> depths[i] < size
    ensures Histogram(depths, size)[b] == InBucket(depths, size, b)
  {
    hide Histogram, CountIn, InBucket;
    HistogramCounts(depths, size, b);
    CountInBucket(depths, size, b);
  }

  lemma BucketsEarned(w: Walk, a: Address)
    requires CreditsEarned(w, a) && WellCounted(w) && a in AccountsOf(w)
    ensures var r := AccountsOf(w)[a];
            && |r.shareBuckets| == |r.uncleBuckets| == 30
            && forall b :: 0 <= b < 30 ==>
                 && r.shareBuckets[b] == InBucket(MainDepths(w.visits, a), |w.visits|, b)
                 && r.uncleBuckets[b] == InBucket(UncleDepths(w.visits, a), |w.visits|, b)
  {
    AccountOf(w, a);
    DepthsAreCredits(w.credits, a, false, |w.visits|);
    DepthsAreCredits(w.credits, a, true, |w.visits|);
    hide AccountsOf, Of, Histogram, InBucket, Depths, MainDepths, UncleDepths, Earned, UpToWraps;
    var (mains, uncles) := (MainDepths(w.visits, a), UncleDepths(w.visits, a));
    assert forall i :: 0 <= i < |mains| ==> mains[i] in mains;
    assert forall i :: 0 <= i < |uncles| ==> uncles[i] in uncles;
    forall b | 0 <= b < 30
      ensures Histogram(MainDepths(w.visits, a), |w.visits|)[b] == InBucket(MainDepths(w.visits, a), |w.visits|, b)
      ensures Histogram(UncleDepths(w.visits, a), |w.visits|)[b] == InBucket(UncleDepths(w.visits, a), |w.visits|, b)
    {
      HistogramInBucket(mains, |w.visits|, b);
      HistogramInBucket(uncles, |w.visits|, b);
    }
  }
}
