/** The payout ledger as values: one block, one cycle, the store, loading after a restart. */
module PayoutLedger {
  import opened GoInt
  import opened Options
  import opened Sorting

  datatype FoundBlock = FoundBlock(timestamp: int, height: uint64, hash: string, reward: uint64)

  datatype Payout = Payout(blockHeight: uint64, blockHash: string, amount: int, timestamp: int)

  type Payouts = map<string, seq<Payout>>
  type Snapshots = map<uint64, seq<string>>

  /** One call for coinbase outputs: an error, or a list of amounts. */
  type Answer = Option<seq<uint64>>

  /** The daemon's memory. The processed map only ever holds true, so it is the set of its keys. */
  datatype Memory = Memory(processed: set<uint64>, payouts: Payouts, snapshots: Snapshots)

  /** The persisted keys; a key never written is absent. */
  datatype Store = Store(processed: Option<set<uint64>>, payouts: map<string, seq<Payout>>,
                         snapshots: Option<Snapshots>, found: Option<seq<FoundBlock>>)

  datatype Ledger = Ledger(mem: Memory, store: Store)

  function NoMemory(): Memory {
    Memory({}, map[], map[])
  }

  function NoStore(): Store {
    Store(None, map[], None, None)
  }

  // ---------------------------------------------------------------------------------------------
  // One block
  // ---------------------------------------------------------------------------------------------

  predicate Usable(answer: Answer) {
    answer.Some? && |answer.value| > 0
  }

  function Append(p: Payouts, addr: string, x: Payout): Payouts {
    p[addr := (if addr in p then p[addr] else []) + [x]]
  }

  /** The record of an amount paid from a found block. */
  function PayoutFor(fb: FoundBlock, amount: int): (p: Payout)
    ensures p.amount == amount && p.blockHeight == fb.height
    ensures p.blockHash == fb.hash && p.timestamp == fb.timestamp
  {
    Payout(fb.height, fb.hash, amount, fb.timestamp)
  }

  /** The first `n` amounts, credited by position. */
  function CreditFirst(p: Payouts, addrs: seq<string>, amounts: seq<int>, fb: FoundBlock, n: nat): Payouts
    requires n <= |addrs| && n <= |amounts|
  {
    if n == 0 then p
    else Append(CreditFirst(p, addrs, amounts, fb, n - 1), addrs[n - 1], PayoutFor(fb, amounts[n - 1]))
  }

  function MatchCount(addrs: seq<string>, amounts: seq<int>): nat {
    if |amounts| > |addrs| then |addrs| else |amounts|
  }

  function CreditAll(p: Payouts, addrs: seq<string>, outputs: seq<uint64>, fb: FoundBlock): Payouts {
    var amounts := SortDescending(outputs);
    CreditFirst(p, addrs, amounts, fb, MatchCount(addrs, amounts))
  }

  /** A height is snapshotted when first seen unprocessed, and credited once its outputs can be fetched. */
  function BlockStep(m: Memory, fb: FoundBlock, miners: seq<string>, answer: Answer): Memory {
    if fb.height in m.processed then m
    else
      var m := if fb.height in m.snapshots then m else m.(snapshots := m.snapshots[fb.height := miners]);
      if !Usable(answer) then m
      else m.(payouts := CreditAll(m.payouts, m.snapshots[fb.height], answer.value, fb),
              processed := m.processed + {fb.height})
  }

  /** Whether the block makes the cycle write the payout keys. */
  predicate Changes(m: Memory, fb: FoundBlock, answer: Answer) {
    fb.height !in m.processed && (fb.height !in m.snapshots || Usable(answer))
  }

  /** The total of the outputs in a 64-bit register. */
  function TotalReward(outputs: seq<uint64>): uint64 {
    if outputs == [] then 0 else Wrap(TotalReward(outputs[..|outputs| - 1]) + outputs[|outputs| - 1] as int)
  }

  /** A missing reward is filled in from any usable answer. */
  function WithReward(fb: FoundBlock, answer: Answer): FoundBlock {
    if Usable(answer) && fb.reward == 0 then fb.(reward := TotalReward(answer.value)) else fb
  }

  /** Whether the block makes the cycle write the found-blocks key. */
  predicate Rewards(m: Memory, fb: FoundBlock, answer: Answer) {
    Usable(answer) && fb.reward == 0 && (fb.height in m.processed || TotalReward(answer.value) > 0)
  }

  // ---------------------------------------------------------------------------------------------
  // One cycle
  // ---------------------------------------------------------------------------------------------

  /** Memory after the first `k` found blocks. */
  function Blocks(m: Memory, found: seq<FoundBlock>, miners: seq<string>, answers: seq<Answer>, k: nat): Memory
    requires k <= |found| == |answers|
  {
    if k == 0 then m
    else BlockStep(Blocks(m, found, miners, answers, k - 1), found[k - 1], miners, answers[k - 1])
  }

  predicate Dirty(m: Memory, found: seq<FoundBlock>, miners: seq<string>, answers: seq<Answer>, k: nat)
    requires k <= |found| == |answers|
  {
    k > 0 && (|| Dirty(m, found, miners, answers, k - 1)
              || Changes(Blocks(m, found, miners, answers, k - 1), found[k - 1], answers[k - 1]))
  }

  predicate Rewarded(m: Memory, found: seq<FoundBlock>, miners: seq<string>, answers: seq<Answer>, k: nat)
    requires k <= |found| == |answers|
  {
    k > 0 && (|| Rewarded(m, found, miners, answers, k - 1)
              || Rewards(Blocks(m, found, miners, answers, k - 1), found[k - 1], answers[k - 1]))
  }

  function FoundAfter(found: seq<FoundBlock>, answers: seq<Answer>): seq<FoundBlock>
    requires |found| == |answers|
  {
    seq(|found|, i requires 0 <= i < |found| => WithReward(found[i], answers[i]))
  }

  /** The store key of an address. */
  function KeyOf(addr: string): string {
    "miner:" + addr + ":payouts"
  }

  lemma KeyOfInjective(a: string, b: string)
    requires KeyOf(a) == KeyOf(b)
    ensures a == b
  {
    assert |a| == |b|;
    assert KeyOf(a)[6..6 + |a|] == a && KeyOf(b)[6..6 + |b|] == b;
  }

  function Keyed(p: Payouts): map<string, seq<Payout>> {
    KeysInjective();
    map a | a in p :: KeyOf(a) := p[a]
  }

  lemma KeysInjective()
    ensures forall a, b :: KeyOf(a) == KeyOf(b) ==> a == b
  {
    forall a, b | KeyOf(a) == KeyOf(b)
      ensures a == b
    {
      KeyOfInjective(a, b);
    }
  }

  function Persist(s: Store, m: Memory): Store {
    s.(processed := Some(m.processed), payouts := s.payouts + Keyed(m.payouts), snapshots := Some(m.snapshots))
  }

  // ---------------------------------------------------------------------------------------------
  // Loading
  // ---------------------------------------------------------------------------------------------

  /** The pieces of a key after its first colon, as the loader's byte loop collects them. */
  function Parts(key: string): seq<string> {
    if key == "" then []
    else
      var c, parts := key[|key| - 1], Parts(key[..|key| - 1]);
      if c == ':' then parts + [""]
      else if parts == [] then []
      else parts[|parts| - 1 := parts[|parts| - 1] + [c]]
  }

  /** The address in a key: the piece between the first two colons. */
  function AddressIn(key: string): Option<string> {
    var parts := Parts(key);
    if |parts| < 2 then None else Some(parts[0])
  }

  lemma {:induction false} PartsOfPlain(key: string, more: string)
    requires ':' !in more
    ensures Parts(key) == [] ==> Parts(key + more) == []
    ensures Parts(key) != [] ==>
      var last := |Parts(key)| - 1;
      Parts(key + more) == Parts(key)[last := Parts(key)[last] + more]
    decreases |more|
  {
    if more == "" {
      assert key + more == key;
      var p := Parts(key);
      if p != [] {
        assert p[|p| - 1] + more == p[|p| - 1];
      }
    } else {
      var init, c := more[..|more| - 1], more[|more| - 1];
      assert (key + more)[..|key + more| - 1] == key + init;
      assert more == init + [c] && c in more;
      PartsOfPlain(key, init);
      var p := Parts(key);
      if p != [] {
        assert (p[|p| - 1] + init) + [c] == p[|p| - 1] + more;
      }
    }
  }

  lemma PartsOfColon(key: string)
    ensures Parts(key + ":") == Parts(key) + [""]
  {
    assert (key + ":")[..|key|] == key;
  }

  /** Reading the address back out of its key, for every address without a colon. */
  lemma KeyReadsBack(addr: string)
    requires ':' !in addr
    ensures AddressIn(KeyOf(addr)) == Some(addr)
  {
    PartsOfPlain("", "miner");
    assert "" + "miner" == "miner";
    PartsOfColon("miner");
    assert "miner" + ":" == "miner:";
    PartsOfPlain("miner:", addr);
    PartsOfColon("miner:" + addr);
    PartsOfPlain("miner:" + addr + ":", "payouts");
    assert "miner:" + addr + ":" + "payouts" == KeyOf(addr);
    assert Parts("miner:") == [""];
    assert "" + addr == addr;
  }

  /** The key of a colon-free address, which reading it back recovers. */
  predicate GoodKey(key: string) {
    var a := AddressIn(key);
    a.Some? && ':' !in a.value && key == KeyOf(a.value)
  }

  /** All persisted payout keys are keys of colon-free addresses. */
  predicate WellKeyed(payouts: map<string, seq<Payout>>) {
    forall key | key in payouts :: GoodKey(key)
  }

  /** The payouts a load finds: every key under the address that is read out of it. */
  function LoadedPayouts(payouts: map<string, seq<Payout>>): Payouts
    requires WellKeyed(payouts)
  {
    map key | key in payouts && GoodKey(key) :: AddressIn(key).value := payouts[key]
  }

  /** What the memory holds after the loads at the start of a cycle; only empty parts are loaded. */
  function Loaded(m: Memory, s: Store): Memory
    requires WellKeyed(s.payouts)
  {
    Memory(if m.processed == {} && s.processed.Some? then s.processed.value else m.processed,
           if m.payouts == map[] then LoadedPayouts(s.payouts) else m.payouts,
           if m.snapshots == map[] && s.snapshots.Some? then s.snapshots.value else m.snapshots)
  }

  /** A cycle without found blocks does nothing, not even load. */
  function Cycle(l: Ledger, found: seq<FoundBlock>, miners: seq<string>, answers: seq<Answer>): Ledger
    requires WellKeyed(l.store.payouts) && |answers| == |found|
  {
    if found == [] then l
    else
      var m := Loaded(l.mem, l.store);
      var after := Blocks(m, found, miners, answers, |found|);
      var s := if Dirty(m, found, miners, answers, |found|) then Persist(l.store, after) else l.store;
      Ledger(after,
             if Rewarded(m, found, miners, answers, |found|)
             then s.(found := Some(FoundAfter(found, answers))) else s)
  }

  function RestartLedger(l: Ledger): Ledger {
    l.(mem := NoMemory())
  }

  // ---------------------------------------------------------------------------------------------
  // Rebuilding
  // ---------------------------------------------------------------------------------------------

  /** The store a rebuild leaves: its own keys are overwritten, keys of other addresses and snapshots stay. */
  function Rebuilt(s: Store, r: Memory): Store {
    s.(processed := Some(r.processed), payouts := s.payouts + Keyed(r.payouts))
  }

  /** The rebuild after the first `k` found blocks: cleared maps, current miners for every block. */
  function Rebuild(found: seq<FoundBlock>, miners: seq<string>, answers: seq<Answer>, k: nat): Memory
    requires k <= |found| == |answers|
  {
    if k == 0 then NoMemory()
    else
      var m := Rebuild(found, miners, answers, k - 1);
      if !Usable(answers[k - 1]) then m
      else m.(payouts := CreditAll(m.payouts, miners, answers[k - 1].value, found[k - 1]),
              processed := m.processed + {found[k - 1].height})
  }
}
