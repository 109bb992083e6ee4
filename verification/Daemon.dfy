/** The daemon's payout methods: memory fields updated in place over a persisted store. */
module Daemons {
  import opened GoInt
  import opened Options
  import opened Wire
  import opened Difficulties
  import opened Shares
  import opened Base58
  import opened Window
  import opened Tally
  import opened Sorting
  import opened Pplns
  import opened Accounting
  import opened PayoutLedger

  /** The store behind the daemon; it outlives every daemon that uses it. */
  class Redis {
    var processed: Option<set<uint64>>
    var payouts: map<string, seq<Payout>>
    var snapshots: Option<Snapshots>
    var found: Option<seq<FoundBlock>>

    constructor ()
      ensures Contents() == NoStore()
    {
      processed, payouts, snapshots, found := None, map[], None, None;
    }

    function Contents(): Store
      reads this
    {
      Store(processed, payouts, snapshots, found)
    }
  }

  /** The miner order as the address strings of a sorted account list. */
  function Strings(ms: seq<MinerRecord>, keccak: Checksum): (r: seq<string>)
    ensures |r| == |ms| && forall i :: 0 <= i < |ms| ==> r[i] == ToBase58(ms[i].addr, keccak)
  {
    seq(|ms|, i requires 0 <= i < |ms| => ToBase58(ms[i].addr, keccak))
  }

  /** Distinct miners have distinct, colon-free strings: a miner order is what a cycle expects. */
  lemma StringsValid(ms: seq<MinerRecord>, accounts: Accounts, keccak: Checksum)
    requires TopOrder(ms, accounts)
    ensures NoRepeats(Strings(ms, keccak))
    ensures forall a | a in Strings(ms, keccak) :: ':' !in a
  {
    hide ToBase58;
    var s := Strings(ms, keccak);
    forall i, j | 0 <= i < j < |s|
      ensures s[i] != s[j]
    {
      assert Addresses(ms)[i] != Addresses(ms)[j];
      if s[i] == s[j] {
        ToBase58Injective(ms[i].addr, ms[j].addr, keccak);
      }
    }
  }

  /** The loader's byte loop over a key. */
  method ReadAddress(key: string) returns (addr: Option<string>)
    ensures addr == AddressIn(key)
  {
    var parts: seq<string> := [];
    for i := 0 to |key|
      invariant parts == Parts(key[..i])
    {
      assert key[..i + 1][..i] == key[..i];
      if key[i] == ':' {
        parts := parts + [""];
      } else if |parts| > 0 {
        parts := parts[|parts| - 1 := parts[|parts| - 1] + [key[i]]];
      }
    }
    assert key[..|key|] == key;
    return if |parts| < 2 then None else Some(parts[0]);
  }

  /** The copy of the outputs, sorted in place by the exchange loop. */
  method SortOutputs(outputs: seq<uint64>) returns (sorted: seq<int>)
    ensures sorted == SortDescending(outputs)
  {
    var a := new int[|outputs|](i requires 0 <= i < |outputs| => outputs[i]);
    assert a[..] == outputs;
    ExchangeSort(a, (x: int, y: int) => x > y, (x: int) => x);
    forall i, j | 0 <= i < j < a.Length
      ensures a[..][i] >= a[..][j]
    {
    }
    SortedIsUnique(outputs, a[..]);
    return a[..];
  }

  method SumOutputs(outputs: seq<uint64>) returns (total: uint64)
    ensures total == TotalReward(outputs)
  {
    total := 0;
    for i := 0 to |outputs|
      invariant total == TotalReward(outputs[..i])
    {
      assert outputs[..i + 1][..i] == outputs[..i];
      total := Wrap(total + outputs[i] as int);
    }
    assert outputs[..|outputs|] == outputs;
  }

  class Daemon {
    const redis: Redis
    const keccak: Checksum
    var foundBlocks: seq<FoundBlock>
    var processedPayouts: set<uint64>
    var minerPayouts: Payouts
    var pplnsSnapshots: Snapshots

    /** Starting, and so also restarting: empty maps over whatever the store holds. */
    constructor (redis: Redis, keccak: Checksum)
      ensures this.redis == redis && this.keccak == keccak
      ensures State() == RestartLedger(State()) && State().store == redis.Contents()
      ensures foundBlocks == []
    {
      this.redis, this.keccak := redis, keccak;
      foundBlocks, processedPayouts, minerPayouts, pplnsSnapshots := [], {}, map[], map[];
    }

    function Held(): Memory
      reads this
    {
      Memory(processedPayouts, minerPayouts, pplnsSnapshots)
    }

    function State(): Ledger
      reads this, redis
    {
      Ledger(Held(), redis.Contents())
    }

    method LoadProcessedPayouts()
      modifies this`processedPayouts
      ensures processedPayouts
           == old(processedPayouts) + (if redis.processed.Some? then redis.processed.value else {})
    {
      if redis.processed.None? {
        return;
      }
      processedPayouts := processedPayouts + redis.processed.value;
    }

    method LoadPPLNSSnapshots()
      modifies this`pplnsSnapshots
      ensures pplnsSnapshots
           == old(pplnsSnapshots) + (if redis.snapshots.Some? then redis.snapshots.value else map[])
    {
      if redis.snapshots.None? {
        return;
      }
      pplnsSnapshots := pplnsSnapshots + redis.snapshots.value;
    }

    /** Reads every payout key, in any order, and files its list under the address in the key. */
    method LoadMinerPayouts()
      requires WellKeyed(redis.payouts)
      modifies this`minerPayouts
      ensures minerPayouts == old(minerPayouts) + LoadedPayouts(redis.payouts)
    {
      hide AddressIn, KeyOf, LoadedPayouts, GoodKey;
      var keys := redis.payouts.Keys;
      NothingLoaded(redis.payouts);
      while keys != {}
        invariant keys <= redis.payouts.Keys
        invariant minerPayouts == old(minerPayouts) + LoadedPayouts(redis.payouts - keys)
      {
        var key :| key in keys;
        var addr := ReadAddress(key);
        LoadOneMore(redis.payouts, keys, key, old(minerPayouts));
        minerPayouts := minerPayouts[addr.value := redis.payouts[key]];
        keys := keys - {key};
      }
      assert redis.payouts - {} == redis.payouts;
    }

    /** At the start of a cycle, whatever part of the memory is empty is loaded. */
    method LoadEmpty()
      requires WellKeyed(redis.payouts)
      modifies this`processedPayouts, this`minerPayouts, this`pplnsSnapshots
      ensures Held() == Loaded(old(Held()), redis.Contents())
    {
      hide LoadedPayouts, WellKeyed;
      ghost var m, s := Held(), redis.Contents();
      if processedPayouts == {} {
        LoadProcessedPayouts();
      }
      assert processedPayouts == Loaded(m, s).processed;
      if minerPayouts == map[] {
        LoadMinerPayouts();
      }
      assert minerPayouts == Loaded(m, s).payouts;
      if pplnsSnapshots == map[] {
        LoadPPLNSSnapshots();
      }
      assert pplnsSnapshots == Loaded(m, s).snapshots;
    }

    /** Credits the sorted outputs by position to the snapshotted addresses. */
    method CreditOutputs(fb: FoundBlock, minerAddrs: seq<string>, outputs: seq<uint64>)
      modifies this`minerPayouts
      ensures minerPayouts == CreditAll(old(minerPayouts), minerAddrs, outputs, fb)
    {
      hide SortDescending;
      var sortedOutputs := SortOutputs(outputs);
      var matchCount := |sortedOutputs|;
      if matchCount > |minerAddrs| {
        matchCount := |minerAddrs|;
      }
      for i := 0 to matchCount
        invariant minerPayouts == CreditFirst(old(minerPayouts), minerAddrs, sortedOutputs, fb, i)
      {
        var amount, addrStr := sortedOutputs[i], minerAddrs[i];
        var payout := Payout(fb.height, fb.hash, amount, fb.timestamp);
        var sofar := if addrStr in minerPayouts then minerPayouts[addrStr] else [];
        minerPayouts := minerPayouts[addrStr := sofar + [payout]];
      }
    }

    /** One found block of the cycle. The flags say what it gives the cycle to write. */
    method ProcessBlock(i: nat, currentMiners: seq<string>, answer: Answer)
      returns (newPayout: bool, newSnapshot: bool, rewardUpdated: bool)
      requires i < |foundBlocks|
      modifies this`foundBlocks, this`processedPayouts, this`minerPayouts, this`pplnsSnapshots
      ensures Held() == BlockStep(old(Held()), old(foundBlocks[i]), currentMiners, answer)
      ensures foundBlocks == old(foundBlocks)[i := WithReward(old(foundBlocks[i]), answer)]
      ensures (newPayout || newSnapshot) == Changes(old(Held()), old(foundBlocks[i]), answer)
      ensures rewardUpdated == Rewards(old(Held()), old(foundBlocks[i]), answer)
    {
      hide CreditAll, TotalReward;
      newPayout, newSnapshot, rewardUpdated := false, false, false;
      var fb := foundBlocks[i];
      if fb.height in processedPayouts {
        if fb.reward == 0 && answer.Some? && |answer.value| > 0 {
          var total := SumOutputs(answer.value);
          foundBlocks := foundBlocks[i := fb.(reward := total)];
          rewardUpdated := true;
        }
        return;
      }
      var minerAddrs := currentMiners;
      if fb.height in pplnsSnapshots {
        minerAddrs := pplnsSnapshots[fb.height];
      } else {
        pplnsSnapshots := pplnsSnapshots[fb.height := currentMiners];
        newSnapshot := true;
      }
      if answer.None? {
        return;
      }
      if |answer.value| == 0 {
        return;
      }
      var totalReward := SumOutputs(answer.value);
      if fb.reward == 0 && totalReward > 0 {
        foundBlocks := foundBlocks[i := fb.(reward := totalReward)];
        rewardUpdated := true;
      }
      CreditOutputs(fb, minerAddrs, answer.value);
      processedPayouts := processedPayouts + {fb.height};
      newPayout := true;
    }

    /** Writes the payout lists key by key, then the processed heights and the snapshots. */
    method PersistPayouts()
      modifies redis`payouts, redis`processed, redis`snapshots
      ensures redis.Contents() == Persist(old(redis.Contents()), Held())
    {
      WritePayoutKeys();
      redis.processed := Some(processedPayouts);
      redis.snapshots := Some(pplnsSnapshots);
    }

    method WritePayoutKeys()
      modifies redis`payouts
      ensures redis.payouts == old(redis.payouts) + Keyed(minerPayouts)
    {
      hide KeyOf, Keyed;
      var rest := minerPayouts.Keys;
      NothingKeyed(minerPayouts);
      while rest != {}
        invariant rest <= minerPayouts.Keys
        invariant redis.payouts == old(redis.payouts) + Keyed(minerPayouts - rest)
      {
        var addr :| addr in rest;
        KeyOneMore(minerPayouts, rest, addr, old(redis.payouts));
        redis.payouts := redis.payouts[KeyOf(addr) := minerPayouts[addr]];
        rest := rest - {addr};
      }
      assert minerPayouts - {} == minerPayouts;
    }

    /** The loop over all found blocks of a cycle. */
    method ProcessBlocks(currentMiners: seq<string>, answers: seq<Answer>)
      returns (dirty: bool, rewardsUpdated: bool)
      requires |answers| == |foundBlocks|
      modifies this`foundBlocks, this`processedPayouts, this`minerPayouts, this`pplnsSnapshots
      ensures Held() == Blocks(old(Held()), old(foundBlocks), currentMiners, answers, |answers|)
      ensures foundBlocks == FoundAfter(old(foundBlocks), answers)
      ensures dirty == Dirty(old(Held()), old(foundBlocks), currentMiners, answers, |answers|)
      ensures rewardsUpdated == Rewarded(old(Held()), old(foundBlocks), currentMiners, answers, |answers|)
    {
      hide BlockStep, WithReward, Changes, Rewards;
      dirty, rewardsUpdated := false, false;
      for i := 0 to |answers|
        invariant |foundBlocks| == |old(foundBlocks)|
        invariant forall k :: 0 <= k < i ==> foundBlocks[k] == WithReward(old(foundBlocks)[k], answers[k])
        invariant forall k :: i <= k < |foundBlocks| ==> foundBlocks[k] == old(foundBlocks)[k]
        invariant Held() == Blocks(old(Held()), old(foundBlocks), currentMiners, answers, i)
        invariant dirty == Dirty(old(Held()), old(foundBlocks), currentMiners, answers, i)
        invariant rewardsUpdated == Rewarded(old(Held()), old(foundBlocks), currentMiners, answers, i)
      {
        var newPayout, newSnapshot, rewardUpdated := ProcessBlock(i, currentMiners, answers[i]);
        dirty := dirty || newPayout || newSnapshot;
        rewardsUpdated := rewardsUpdated || rewardUpdated;
      }
    }

    /** One payout cycle over the current window and one answer per found block. */
    method CalculatePayouts(pplns: PPLNSResult?, answers: seq<Answer>) returns (ghost ms: seq<MinerRecord>)
      requires pplns != null ==> Owned(pplns.shares)
      requires |answers| == |foundBlocks| && WellKeyed(redis.payouts)
      modifies this`foundBlocks, this`processedPayouts, this`minerPayouts, this`pplnsSnapshots, redis
      ensures pplns == null || old(foundBlocks) == [] ==> State() == old(State()) && foundBlocks == old(foundBlocks)
      ensures pplns != null && old(foundBlocks) != [] ==>
        && TopOrder(ms, old(View(pplns.shares)))
        && State() == Cycle(old(State()), old(foundBlocks), Strings(ms, keccak), answers)
        && foundBlocks == FoundAfter(old(foundBlocks), answers)
    {
      hide TopOrder, Blocks, Dirty, Rewarded, Persist, Loaded, WellKeyed, WithReward, Owned, View;
      ms := [];
      if |foundBlocks| == 0 || pplns == null {
        return;
      }
      LoadEmpty();
      var top := pplns.TopMiners(|pplns.shares|);
      var currentMiners := top.value;
      ms := currentMiners;
      var dirty, rewardsUpdated := ProcessBlocks(Strings(currentMiners, keccak), answers);
      if dirty {
        PersistPayouts();
      }
      if rewardsUpdated {
        redis.found := Some(foundBlocks);
      }
    }

    /** One sync: the window of the current shares, the found blocks of the store, then the payout cycle. */
    method SyncCycle(shares: map<Hash, Share>, tip: Share, mainchainDiff: Difficulty,
                     found: seq<FoundBlock>, answers: seq<Answer>)
      returns (ghost ms: seq<MinerRecord>)
      requires |answers| == |found| && WellKeyed(redis.payouts)
      modifies this`foundBlocks, this`processedPayouts, this`minerPayouts, this`pplnsSnapshots, redis
      ensures found == [] ==> State() == old(State())
      ensures found != [] ==>
        && TopOrder(ms, AccountsOf(WindowOf(shares, tip, mainchainDiff)))
        && State() == Cycle(old(State()), found, Strings(ms, keccak), answers)
    {
      hide TopOrder, Cycle, Owned, View, WindowOf, Finalized, TallyOf, UnclesOf, WellKeyed;
      var pplns := CalculatePPLNS(shares, tip, mainchainDiff);
      foundBlocks := found;
      ms := CalculatePayouts(pplns, answers);
    }

    /** Rebuilds all payouts against the current miner order; fails without a tip, before any change. */
    method RebuildAllPayouts(shares: map<Hash, Share>, tip: Option<Share>, mainchainDiff: Difficulty,
                             answers: seq<Answer>)
      returns (ok: bool, ghost ms: seq<MinerRecord>)
      requires |answers| == |foundBlocks|
      modifies this`processedPayouts, this`minerPayouts, redis`payouts, redis`processed
      ensures ok <==> tip.Some?
      ensures !ok ==> State() == old(State())
      ensures ok ==>
        && TopOrder(ms, AccountsOf(WindowOf(shares, tip.value, mainchainDiff)))
        && var r := Rebuild(foundBlocks, Strings(ms, keccak), answers, |foundBlocks|);
           && minerPayouts == r.payouts && processedPayouts == r.processed
           && redis.Contents() == Rebuilt(old(redis.Contents()), r)
    {
      hide TopOrder, Owned, View, WindowOf, Finalized, TallyOf, UnclesOf, CreditAll, Keyed;
      ms := [];
      if tip.None? {
        return false, ms;
      }
      var pplns := CalculatePPLNS(shares, tip.value, mainchainDiff);
      var top := pplns.TopMiners(|pplns.shares|);
      var miners := top.value;
      ms := miners;
      RebuildFrom(Strings(miners, keccak), answers);
      WritePayoutKeys();
      redis.processed := Some(processedPayouts);
      ok := true;
    }

    method RebuildFrom(miners: seq<string>, answers: seq<Answer>)
      requires |answers| == |foundBlocks|
      modifies this`processedPayouts, this`minerPayouts
      ensures var r := Rebuild(foundBlocks, miners, answers, |foundBlocks|);
              minerPayouts == r.payouts && processedPayouts == r.processed
    {
      hide CreditAll;
      minerPayouts, processedPayouts := map[], {};
      for i := 0 to |foundBlocks|
        invariant minerPayouts == Rebuild(foundBlocks, miners, answers, i).payouts
        invariant processedPayouts == Rebuild(foundBlocks, miners, answers, i).processed
      {
        var fb := foundBlocks[i];
        if answers[i].None? {
          continue;
        }
        if |answers[i].value| == 0 {
          continue;
        }
        CreditOutputs(fb, miners, answers[i].value);
        processedPayouts := processedPayouts + {fb.height};
      }
    }
  }

  lemma NothingLoaded(p: map<string, seq<Payout>>)
    requires WellKeyed(p)
    ensures WellKeyed(p - p.Keys) && LoadedPayouts(p - p.Keys) == map[]
  {
    assert p - p.Keys == map[];
  }

  lemma LoadedKeyOnce(p: map<string, seq<Payout>>, key: string)
    requires WellKeyed(p) && key in p
    ensures GoodKey(key) && AddressIn(key).Some?
    ensures LoadedPayouts(p) == LoadedPayouts(p - {key})[AddressIn(key).value := p[key]]
  {
    hide AddressIn, KeyOf;
    assert GoodKey(key);
    var a := AddressIn(key).value;
    var less := LoadedPayouts(p - {key});
    forall b | b in LoadedPayouts(p) && b != a
      ensures b in less && less[b] == LoadedPayouts(p)[b]
    {
      var k :| k in p && GoodKey(k) && AddressIn(k).value == b;
      assert k in p - {key};
    }
    assert LoadedPayouts(p) == less[a := p[key]];
  }

  lemma LoadOneMore(p: map<string, seq<Payout>>, keys: set<string>, key: string, before: Payouts)
    requires WellKeyed(p) && key in keys && keys <= p.Keys
    ensures AddressIn(key).Some?
    ensures before + LoadedPayouts(p - (keys - {key}))
         == (before + LoadedPayouts(p - keys))[AddressIn(key).value := p[key]]
  {
    hide AddressIn, KeyOf, GoodKey, LoadedPayouts;
    var more := p - (keys - {key});
    assert more - {key} == p - keys;
    LoadedKeyOnce(more, key);
    ApplyOne(before, LoadedPayouts(p - keys), AddressIn(key).value, p[key]);
  }

  lemma ApplyOne<K, V>(before: map<K, V>, m: map<K, V>, k: K, v: V)
    ensures before + m[k := v] == (before + m)[k := v]
  {
  }

  lemma NothingKeyed(p: Payouts)
    ensures Keyed(p - p.Keys) == map[]
  {
    assert p - p.Keys == map[];
  }

  lemma KeyOneMore(p: Payouts, rest: set<string>, addr: string, before: map<string, seq<Payout>>)
    requires addr in rest && rest <= p.Keys
    ensures before + Keyed(p - (rest - {addr})) == (before + Keyed(p - rest))[KeyOf(addr) := p[addr]]
  {
    hide KeyOf;
    KeysInjective();
    assert Keyed(p - (rest - {addr})) == Keyed(p - rest)[KeyOf(addr) := p[addr]];
    ApplyOne(before, Keyed(p - rest), KeyOf(addr), p[addr]);
  }
}
