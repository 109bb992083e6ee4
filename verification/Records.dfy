/** What the payout keys hold after a run, said of the events alone and field by field. */
module Records {
  import opened GoInt
  import opened Options
  import opened Sorting
  import opened PayoutLedger
  import opened Runs
  import opened RebuiltRuns

  // ---------------------------------------------------------------------------------------------
  // First sightings and first answers, by cycle and place in the cycle
  // ---------------------------------------------------------------------------------------------

  /** Found block `k` of cycle `i` is at height `h`. */
  predicate SightedAt(es: seq<Event>, i: nat, k: nat, h: uint64) {
    i < |es| && es[i].Sync? && k < |es[i].found| && es[i].found[k].height == h
  }

  /** Moreover its outputs could be fetched, and there were some. */
  predicate AnsweredAt(es: seq<Event>, i: nat, k: nat, h: uint64) {
    SightedAt(es, i, k, h) && k < |es[i].answers| && es[i].answers[k].Some? && es[i].answers[k].value != []
  }

  predicate Earlier(i: nat, k: nat, j: nat, l: nat) {
    i < j || (i == j && k < l)
  }

  ghost predicate FirstSightedAt(es: seq<Event>, i: nat, k: nat, h: uint64) {
    SightedAt(es, i, k, h) && forall j: nat, l: nat :: SightedAt(es, j, l, h) ==> !Earlier(j, l, i, k)
  }

  ghost predicate FirstAnsweredAt(es: seq<Event>, i: nat, k: nat, h: uint64) {
    AnsweredAt(es, i, k, h) && forall j: nat, l: nat :: AnsweredAt(es, j, l, h) ==> !Earlier(j, l, i, k)
  }

  function SightingAt(e: Event, k: nat): Sighting
    requires e.Sync? && k < |e.found| && k < |e.answers|
  {
    Sighting(e.found[k], e.miners, e.answers[k])
  }

  lemma SightingsStep(ss: seq<Sighting>, e: Event, m: nat)
    requires e.Sync? && |e.answers| == |e.found| && 0 < m <= |e.found|
    ensures ss + SightingsIn(e, m) == ss + SightingsIn(e, m - 1) + [SightingAt(e, m - 1)]
  {
  }

  lemma FirstsAppend(ss: seq<Sighting>, s: Sighting, h: uint64)
    ensures FirstSeen(ss + [s], h)
         == if FirstSeen(ss, h).Some? then FirstSeen(ss, h) else if s.fb.height == h then Some(s) else None
    ensures FirstUsable(ss + [s], h)
         == if FirstUsable(ss, h).Some? then FirstUsable(ss, h)
            else if s.fb.height == h && s.answer.Some? && s.answer.value != [] then Some(s) else None
  {
    assert (ss + [s])[..|ss|] == ss;
  }

  /** Within one cycle, after the first `m` of its found blocks. */
  lemma {:induction false} FirstInCycle(ss: seq<Sighting>, e: Event, m: nat, k: nat, h: uint64)
    requires e.Sync? && |e.answers| == |e.found| && m <= |e.found| && k < |e.found|
    requires FirstSeen(ss, h).None? && e.found[k].height == h
    requires forall l :: 0 <= l < k ==> e.found[l].height != h
    ensures FirstSeen(ss + SightingsIn(e, m), h) == if k < m then Some(SightingAt(e, k)) else None
  {
    hide FirstSeen, FirstUsable;
    if m == 0 {
      assert ss + SightingsIn(e, m) == ss;
    } else {
      FirstInCycle(ss, e, m - 1, k, h);
      SightingsStep(ss, e, m);
      FirstsAppend(ss + SightingsIn(e, m - 1), SightingAt(e, m - 1), h);
    }
  }

  lemma {:induction false} AnswerInCycle(ss: seq<Sighting>, e: Event, m: nat, k: nat, h: uint64)
    requires e.Sync? && |e.answers| == |e.found| && m <= |e.found| && k < |e.found|
    requires FirstUsable(ss, h).None? && e.found[k].height == h && e.answers[k].Some? && e.answers[k].value != []
    requires forall l :: 0 <= l < k ==> e.found[l].height == h ==> e.answers[l].None? || e.answers[l].value == []
    ensures FirstUsable(ss + SightingsIn(e, m), h) == if k < m then Some(SightingAt(e, k)) else None
  {
    hide FirstSeen, FirstUsable;
    if m == 0 {
      assert ss + SightingsIn(e, m) == ss;
    } else {
      AnswerInCycle(ss, e, m - 1, k, h);
      SightingsStep(ss, e, m);
      FirstsAppend(ss + SightingsIn(e, m - 1), SightingAt(e, m - 1), h);
    }
  }

  lemma {:induction false} NothingInCycle(ss: seq<Sighting>, e: Event, m: nat, h: uint64)
    requires e.Sync? && |e.answers| == |e.found| && m <= |e.found|
    ensures FirstSeen(ss, h).None? && (forall l :: 0 <= l < m ==> e.found[l].height != h) ==>
      FirstSeen(ss + SightingsIn(e, m), h).None?
    ensures FirstUsable(ss, h).None?
            && (forall l :: 0 <= l < m && e.found[l].height == h ==> e.answers[l].None? || e.answers[l].value == []) ==>
      FirstUsable(ss + SightingsIn(e, m), h).None?
  {
    hide FirstSeen, FirstUsable;
    if m == 0 {
      assert ss + SightingsIn(e, m) == ss;
    } else {
      NothingInCycle(ss, e, m - 1, h);
      SightingsStep(ss, e, m);
      FirstsAppend(ss + SightingsIn(e, m - 1), SightingAt(e, m - 1), h);
    }
  }

  lemma SightedInPrefix(es: seq<Event>, n: nat, i: nat, k: nat, h: uint64)
    requires n <= |es| && i < n
    ensures SightedAt(es[..n], i, k, h) == SightedAt(es, i, k, h)
    ensures AnsweredAt(es[..n], i, k, h) == AnsweredAt(es, i, k, h)
  {
  }

  lemma SightingsLast(es: seq<Event>)
    requires ValidEvents(es) && es != []
    ensures var (init, e) := (es[..|es| - 1], es[|es| - 1]);
            && ValidEvents(init) && ValidEvent(e)
            && Sightings(es) == Sightings(init) + (if e.Sync? then SightingsIn(e, |e.found|) else [])
  {
    assert es[|es| - 1] in es;
  }

  /** A height that is at no place of the run has no first sighting; likewise for answers. */
  lemma {:induction false} NothingFirst(es: seq<Event>, h: uint64)
    requires ValidEvents(es)
    ensures (forall i: nat, k: nat :: !SightedAt(es, i, k, h)) ==> FirstSeen(Sightings(es), h).None?
    ensures (forall i: nat, k: nat :: !AnsweredAt(es, i, k, h)) ==> FirstUsable(Sightings(es), h).None?
  {
    if es != [] {
      var last, init, e := |es| - 1, es[..|es| - 1], es[|es| - 1];
      SightingsLast(es);
      hide FirstSeen, FirstUsable, Sightings, ValidEvents;
      NothingFirst(init, h);
      forall i: nat, k: nat
        ensures SightedAt(init, i, k, h) ==> SightedAt(es, i, k, h)
        ensures AnsweredAt(init, i, k, h) ==> AnsweredAt(es, i, k, h)
      {
        if i < last {
          SightedInPrefix(es, last, i, k, h);
        }
      }
      if e.Sync? {
        NothingInCycle(Sightings(init), e, |e.found|, h);
        assert forall k: nat :: k < |e.found| && e.found[k].height == h ==> SightedAt(es, last, k, h);
        forall k: nat | k < |e.found| && e.found[k].height == h
          ensures e.answers[k].Some? && e.answers[k].value != [] ==> AnsweredAt(es, last, k, h)
        {
        }
      } else {
        assert Sightings(init) + [] == Sightings(init);
      }
    }
  }

  lemma {:induction false} FirstSighting(es: seq<Event>, i: nat, k: nat, h: uint64)
    requires ValidEvents(es) && FirstSightedAt(es, i, k, h)
    ensures k < |es[i].answers| && FirstSeen(Sightings(es), h) == Some(SightingAt(es[i], k))
    decreases |es|
  {
    var last, init, e := |es| - 1, es[..|es| - 1], es[|es| - 1];
    SightingsLast(es);
    hide FirstSeen, FirstUsable, Sightings, ValidEvents;
    forall j: nat, l: nat
      ensures SightedAt(init, j, l, h) ==> SightedAt(es, j, l, h)
    {
      if j < last {
        SightedInPrefix(es, last, j, l, h);
      }
    }
    if i < last {
      SightedInPrefix(es, last, i, k, h);
      FirstSighting(init, i, k, h);
      FirstsPersist(Sightings(init), if e.Sync? then SightingsIn(e, |e.found|) else [], h);
    } else {
      NothingFirst(init, h);
      assert forall l: nat :: l < k && e.found[l].height == h ==> SightedAt(es, last, l, h);
      FirstInCycle(Sightings(init), e, |e.found|, k, h);
    }
  }

  lemma {:induction false} FirstAnswer(es: seq<Event>, i: nat, k: nat, h: uint64)
    requires ValidEvents(es) && FirstAnsweredAt(es, i, k, h)
    ensures FirstUsable(Sightings(es), h) == Some(SightingAt(es[i], k))
    decreases |es|
  {
    var last, init, e := |es| - 1, es[..|es| - 1], es[|es| - 1];
    SightingsLast(es);
    hide FirstSeen, FirstUsable, Sightings, ValidEvents;
    forall j: nat, l: nat
      ensures AnsweredAt(init, j, l, h) ==> AnsweredAt(es, j, l, h)
    {
      if j < last {
        SightedInPrefix(es, last, j, l, h);
      }
    }
    if i < last {
      SightedInPrefix(es, last, i, k, h);
      FirstAnswer(init, i, k, h);
      FirstsPersist(Sightings(init), if e.Sync? then SightingsIn(e, |e.found|) else [], h);
    } else {
      NothingFirst(init, h);
      forall l: nat | l < k && e.found[l].height == h
        ensures e.answers[l].Some? && e.answers[l].value != [] ==> AnsweredAt(es, last, l, h)
      {
      }
      AnswerInCycle(Sightings(init), e, |e.found|, k, h);
    }
  }

  // ---------------------------------------------------------------------------------------------
  // What the store lists
  // ---------------------------------------------------------------------------------------------

  /** The payout list of an address, as anyone reads it from the store. */
  function Listed(s: Store, a: string): seq<Payout> {
    var key := "miner:" + a + ":payouts";
    if key in s.payouts then s.payouts[key] else []
  }

  lemma StoredListed(s: Store, a: string, h: uint64)
    requires WellKeyed(s.payouts) && ':' !in a
    ensures RecordsAt(Stored(s).payouts, a, h) == AtHeight(Listed(s, a), h)
  {
    hide LoadedPayouts, WellKeyed;
    LoadedAt(s.payouts, a);
    assert KeyOf(a) == "miner:" + a + ":payouts";
  }

  lemma RecordedListed(es: seq<Event>, a: string, h: uint64)
    requires ValidEvents(es) && InSync(Start()) && ':' !in a
    ensures Recorded(es, a, h) == AtHeight(Listed(Run(Start(), es).store, a), h)
  {
    hide Run, WellKeyed, Listed, AtHeight, Stored;
    StoredListed(Run(Start(), es).store, a, h);
  }

  /** One record, and what stands in each of its fields. */
  predicate OnlyRecord(records: seq<Payout>, h: uint64, hash: string, amount: int, timestamp: int) {
    && |records| == 1
    && records[0].blockHeight == h && records[0].blockHash == hash
    && records[0].amount == amount && records[0].timestamp == timestamp
  }

  /** What a run has persisted of a height, whose first sighting and first answer are at the given places. */
  lemma RecordsSpelledOut(es: seq<Event>, h: uint64, i: nat, k: nat, j: nat, l: nat)
    requires ValidEvents(es) && InSync(Start()) && FirstSightedAt(es, i, k, h) && FirstAnsweredAt(es, j, l, h)
    ensures var store := Run(Start(), es).store;
            var (miners, fb, outputs) := (es[i].miners, es[j].found[l], SortDescending(es[j].answers[l].value));
            var n := if |outputs| > |miners| then |miners| else |outputs|;
            && (forall p :: 0 <= p < n ==>
                  OnlyRecord(AtHeight(Listed(store, miners[p]), h), h, fb.hash, outputs[p], fb.timestamp))
            && (forall a :: ':' !in a && a !in miners[..n] ==> AtHeight(Listed(store, a), h) == [])
            && store.processed.Some? && h in store.processed.value
            && store.snapshots.Some? && h in store.snapshots.value && store.snapshots.value[h] == miners
  {
    FirstSighting(es, i, k, h);
    FirstAnswer(es, j, l, h);
    FirstSightAttribution(es, h);
    var (miners, s, store) := (es[i].miners, SightingAt(es[j], l), Run(Start(), es).store);
    assert forall a | a in miners :: ':' !in a by {
      assert ValidEvent(es[i]);
    }
    RunRemembers(es);
    LedgerExplained(Sightings(es), h);
    HeldIsStored(store, h);
    hide Run, FirstSeen, FirstUsable, Sightings, SortDescending, Recorded, Listed, AtHeight, FirstSightedAt,
         FirstAnsweredAt, ValidEvents, ValidEvent, Stored, MemoryOf, InSync;
    var outputs, n := SortDescending(s.answer.value), Reached(miners, s);
    forall p | 0 <= p < n
      ensures OnlyRecord(AtHeight(Listed(store, miners[p]), h), h, s.fb.hash, outputs[p], s.fb.timestamp)
    {
      assert miners[p] in miners;
      RecordedListed(es, miners[p], h);
    }
    forall a | ':' !in a && a !in miners[..n]
      ensures AtHeight(Listed(store, a), h) == []
    {
      RecordedListed(es, a, h);
    }
  }

  lemma HeldIsStored(s: Store, h: uint64)
    requires WellKeyed(s.payouts)
    ensures h in Stored(s).processed <==> s.processed.Some? && h in s.processed.value
    ensures h in Stored(s).snapshots <==> s.snapshots.Some? && h in s.snapshots.value
    ensures h in Stored(s).snapshots ==> Stored(s).snapshots[h] == s.snapshots.value[h]
  {
    hide LoadedPayouts, WellKeyed;
  }

  /** A height without an answer has no records and is not marked processed; without a sighting, no snapshot. */
  lemma NoRecordsYet(es: seq<Event>, h: uint64)
    requires ValidEvents(es) && InSync(Start())
    ensures var store := Run(Start(), es).store;
            && ((forall i: nat, k: nat :: !AnsweredAt(es, i, k, h)) ==>
                  && !(store.processed.Some? && h in store.processed.value)
                  && forall a :: ':' !in a ==> AtHeight(Listed(store, a), h) == [])
            && ((forall i: nat, k: nat :: !SightedAt(es, i, k, h)) ==>
                  !(store.snapshots.Some? && h in store.snapshots.value))
  {
    NothingFirst(es, h);
    RunRemembers(es);
    LedgerExplained(Sightings(es), h);
    var store := Run(Start(), es).store;
    HeldIsStored(store, h);
    hide Run, FirstSeen, FirstUsable, Sightings, Listed, AtHeight, ValidEvents, Stored, MemoryOf, InSync, SightedAt,
         AnsweredAt;
    if forall i: nat, k: nat :: !AnsweredAt(es, i, k, h) {
      forall a | ':' !in a
        ensures AtHeight(Listed(store, a), h) == []
      {
        RecordedListed(es, a, h);
      }
    }
  }

  // ---------------------------------------------------------------------------------------------
  // What a rebuild lists
  // ---------------------------------------------------------------------------------------------

  /** The records of the miner at place `p`: one for each of the first `k` answers with that many outputs. */
  function RebuiltList(found: seq<FoundBlock>, answers: seq<Answer>, k: nat, p: nat): seq<Payout>
    requires k <= |found| == |answers|
  {
    if k == 0 then []
    else
      RebuiltList(found, answers, k - 1, p) + RebuiltRecord(found[k - 1], answers[k - 1], p)
  }

  function RebuiltRecord(fb: FoundBlock, answer: Answer, p: nat): seq<Payout> {
    if answer.None? || p >= |answer.value| then []
    else
      SameLength(answer.value);
      [Payout(blockHeight := fb.height, blockHash := fb.hash, amount := SortDescending(answer.value)[p],
              timestamp := fb.timestamp)]
  }

  lemma SameLength(outputs: seq<uint64>)
    ensures |SortDescending(outputs)| == |outputs|
  {
    SortDescendingSorts(outputs);
    SamePermutationLength(SortDescending(outputs), outputs);
  }

  function ListOf(p: Payouts, a: string): seq<Payout> {
    if a in p then p[a] else []
  }

  lemma {:induction false} CreditFirstList(q: Payouts, addrs: seq<string>, amounts: seq<int>, fb: FoundBlock, n: nat,
                                           p: nat)
    requires n <= |addrs| && n <= |amounts| && NoRepeats(addrs) && p < |addrs|
    ensures var list := ListOf(CreditFirst(q, addrs, amounts, fb, n), addrs[p]);
            if p >= n then list == ListOf(q, addrs[p])
            else |list| == |ListOf(q, addrs[p])| + 1 && list[..|list| - 1] == ListOf(q, addrs[p])
                 && OnlyRecord(list[|list| - 1..], fb.height, fb.hash, amounts[p], fb.timestamp)
  {
    if n > 0 {
      CreditFirstList(q, addrs, amounts, fb, n - 1, p);
      assert p != n - 1 ==> addrs[p] != addrs[n - 1];
    }
  }

  lemma CreditAllList(q: Payouts, miners: seq<string>, answer: Answer, fb: FoundBlock, p: nat)
    requires NoRepeats(miners) && p < |miners| && Usable(answer)
    ensures ListOf(CreditAll(q, miners, answer.value, fb), miners[p])
         == ListOf(q, miners[p]) + RebuiltRecord(fb, answer, p)
  {
    SameLength(answer.value);
    hide SortDescending, CreditFirst, ListOf;
    var amounts := SortDescending(answer.value);
    CreditFirstList(q, miners, amounts, fb, MatchCount(miners, amounts), p);
    var before, list := ListOf(q, miners[p]), ListOf(CreditAll(q, miners, answer.value, fb), miners[p]);
    if p < |answer.value| {
      assert list == list[..|list| - 1] + list[|list| - 1..];
      assert list[|list| - 1..] == RebuiltRecord(fb, answer, p);
    } else {
      assert before + [] == before;
    }
  }

  /** Every list a rebuild leaves, record by record. */
  lemma {:induction false} RebuildSpelledOut(found: seq<FoundBlock>, miners: seq<string>, answers: seq<Answer>, k: nat,
                                             p: nat)
    requires k <= |found| == |answers| && NoRepeats(miners) && p < |miners|
    ensures ListOf(Rebuild(found, miners, answers, k).payouts, miners[p]) == RebuiltList(found, answers, k, p)
  {
    hide CreditAll, RebuiltRecord, ListOf;
    if k == 0 {
      EmptyList(miners[p]);
    } else {
      RebuildSpelledOut(found, miners, answers, k - 1, p);
      if Usable(answers[k - 1]) {
        CreditAllList(Rebuild(found, miners, answers, k - 1).payouts, miners, answers[k - 1], found[k - 1], p);
      } else {
        NoRecord(found[k - 1], answers[k - 1], p);
      }
    }
  }

  lemma NoRecord(fb: FoundBlock, answer: Answer, p: nat)
    requires !Usable(answer)
    ensures RebuiltRecord(fb, answer, p) == []
  {
  }

  lemma EmptyList(a: string)
    ensures ListOf(map[], a) == []
  {
  }

  /** A rebuild marks exactly the heights at which some answer has outputs. */
  lemma {:induction false} RebuildProcesses(found: seq<FoundBlock>, miners: seq<string>, answers: seq<Answer>, k: nat,
                                            h: uint64)
    requires k <= |found| == |answers|
    ensures h in Rebuild(found, miners, answers, k).processed
            <==> exists j :: 0 <= j < k && found[j].height == h && answers[j].Some? && answers[j].value != []
  {
    hide CreditAll;
    if k > 0 {
      RebuildProcesses(found, miners, answers, k - 1, h);
    }
  }

  // ---------------------------------------------------------------------------------------------
  // Rewards of found blocks
  // ---------------------------------------------------------------------------------------------

  lemma {:induction false} TotalIsSum(outputs: seq<uint64>)
    ensures TotalReward(outputs) == Sum(outputs) % TWO64
  {
    if outputs == [] {
      InRange(0, TWO64);
    } else {
      var init, last := outputs[..|outputs| - 1], outputs[|outputs| - 1];
      TotalIsSum(init);
      SumIsNat(init);
      QuotientFacts(Sum(init), TWO64);
      var m := Sum(init) % TWO64 + last;
      QuotientFacts(m, TWO64);
      QuotientUnique(Sum(outputs), TWO64, Sum(init) / TWO64 + m / TWO64, m % TWO64);
    }
  }

  lemma {:induction false} SumIsNat(outputs: seq<uint64>)
    ensures Sum(outputs) >= 0
  {
    if outputs != [] {
      SumIsNat(outputs[..|outputs| - 1]);
    }
  }

  /** The block has no reward yet, and the answer has outputs that sum to one. */
  predicate GetsReward(fb: FoundBlock, answer: Answer) {
    fb.reward == 0 && answer.Some? && Sum(answer.value) % TWO64 != 0
  }

  /** The found blocks once their missing rewards are filled in. */
  function Filled(found: seq<FoundBlock>, answers: seq<Answer>): seq<FoundBlock>
    requires |found| == |answers|
  {
    seq(|found|, k requires 0 <= k < |found| =>
      if GetsReward(found[k], answers[k])
      then FoundBlock(timestamp := found[k].timestamp, height := found[k].height, hash := found[k].hash,
                      reward := Sum(answers[k].value) % TWO64)
      else found[k])
  }

  lemma FilledIsAfter(found: seq<FoundBlock>, answers: seq<Answer>)
    requires |found| == |answers|
    ensures FoundAfter(found, answers) == Filled(found, answers)
  {
    forall k | 0 <= k < |found|
      ensures FoundAfter(found, answers)[k] == Filled(found, answers)[k]
    {
      FilledOne(found[k], answers[k]);
    }
  }

  lemma FilledOne(fb: FoundBlock, answer: Answer)
    ensures WithReward(fb, answer)
         == if GetsReward(fb, answer) then fb.(reward := Sum(answer.value) % TWO64) else fb
  {
    if answer.Some? {
      TotalIsSum(answer.value);
      assert answer.value == [] ==> Sum(answer.value) % TWO64 == 0;
    }
  }

  lemma {:induction false} RewardedExactly(m: Memory, found: seq<FoundBlock>, miners: seq<string>, answers: seq<Answer>,
                                           k: nat)
    requires k <= |found| == |answers|
    ensures (exists j :: 0 <= j < k && GetsReward(found[j], answers[j])) ==> Rewarded(m, found, miners, answers, k)
  {
    hide Blocks, GetsReward;
    if k > 0 {
      RewardedExactly(m, found, miners, answers, k - 1);
      if GetsReward(found[k - 1], answers[k - 1]) {
        RewardsBlock(Blocks(m, found, miners, answers, k - 1), found[k - 1], answers[k - 1]);
      }
    }
  }

  lemma RewardsBlock(m: Memory, fb: FoundBlock, answer: Answer)
    requires GetsReward(fb, answer)
    ensures Rewards(m, fb, answer)
  {
    TotalIsSum(answer.value);
  }

  /**
   * A cycle in which some block gets a reward stores the list of found blocks with all of them filled in. Any
   * other cycle leaves the stored list alone, or writes the list it was given.
   */
  lemma RewardsStored(l: Ledger, found: seq<FoundBlock>, miners: seq<string>, answers: seq<Answer>)
    requires WellKeyed(l.store.payouts) && |answers| == |found|
    ensures var stored := Cycle(l, found, miners, answers).store.found;
            if exists k :: 0 <= k < |found| && GetsReward(found[k], answers[k])
            then stored == Some(Filled(found, answers))
            else stored == l.store.found || stored == Some(found)
  {
    hide Blocks, Dirty, Rewarded, FoundAfter, Loaded, Keyed, GetsReward;
    FilledIsAfter(found, answers);
    RewardedExactly(Loaded(l.mem, l.store), found, miners, answers, |found|);
    if forall k :: 0 <= k < |found| ==> !GetsReward(found[k], answers[k]) {
      assert Filled(found, answers) == found;
    }
  }
}
