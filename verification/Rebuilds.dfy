/** When rebuilding from scratch gives what the cycle gives from an empty ledger. */
module Rebuilds {
  import opened GoInt
  import opened Options
  import opened Sorting
  import opened PayoutLedger
  import opened Runs

  /** How many of the first `k` found blocks are of height `h` and come with a usable answer. */
  function Fetches(found: seq<FoundBlock>, answers: seq<Answer>, k: nat, h: uint64): nat
    requires k <= |found| == |answers|
  {
    if k == 0 then 0
    else
      Fetches(found, answers, k - 1, h)
      + (if found[k - 1].height == h && Usable(answers[k - 1]) then 1 else 0)
  }

  /** Some height comes back with a second usable answer, and there is a miner to credit. */
  ghost predicate CreditsTwice(found: seq<FoundBlock>, miners: seq<string>, answers: seq<Answer>)
    requires |found| == |answers|
  {
    miners != [] && exists h :: Fetches(found, answers, |found|, h) >= 2
  }

  /** The cycle's memory started from nothing: every snapshot is the one miner order. */
  lemma {:induction false} OneOrder(found: seq<FoundBlock>, miners: seq<string>, answers: seq<Answer>, k: nat)
    requires k <= |found| == |answers|
    ensures forall h | h in Blocks(NoMemory(), found, miners, answers, k).snapshots ::
      Blocks(NoMemory(), found, miners, answers, k).snapshots[h] == miners
  {
    hide CreditAll;
    if k > 0 {
      OneOrder(found, miners, answers, k - 1);
    }
  }

  /** A height is processed once one of its blocks came with a usable answer. */
  lemma {:induction false} ProcessedIsFetched(found: seq<FoundBlock>, miners: seq<string>, answers: seq<Answer>,
                                              k: nat, h: uint64)
    requires k <= |found| == |answers|
    ensures h in Blocks(NoMemory(), found, miners, answers, k).processed <==> Fetches(found, answers, k, h) >= 1
  {
    hide CreditAll;
    if k > 0 {
      ProcessedIsFetched(found, miners, answers, k - 1, h);
    }
  }

  lemma CreditNobody(p: Payouts, outputs: seq<uint64>, fb: FoundBlock)
    ensures CreditAll(p, [], outputs, fb) == p
  {
  }

  lemma {:induction false} SameProcessed(found: seq<FoundBlock>, miners: seq<string>, answers: seq<Answer>, k: nat)
    requires k <= |found| == |answers|
    ensures Rebuild(found, miners, answers, k).processed == Blocks(NoMemory(), found, miners, answers, k).processed
  {
    hide CreditAll;
    if k > 0 {
      SameProcessed(found, miners, answers, k - 1);
    }
  }

  lemma {:induction false} FetchesGrow(found: seq<FoundBlock>, answers: seq<Answer>, j: nat, k: nat, h: uint64)
    requires j <= k <= |found| == |answers|
    ensures Fetches(found, answers, j, h) <= Fetches(found, answers, k, h)
  {
    if j < k {
      FetchesGrow(found, answers, j, k - 1, h);
    }
  }

  /** No second usable answer for a height: the same payouts, record by record. */
  lemma {:induction false} SamePayouts(found: seq<FoundBlock>, miners: seq<string>, answers: seq<Answer>, k: nat)
    requires k <= |found| == |answers| && !CreditsTwice(found, miners, answers)
    ensures Rebuild(found, miners, answers, k).payouts == Blocks(NoMemory(), found, miners, answers, k).payouts
  {
    hide CreditAll;
    if k > 0 {
      SamePayouts(found, miners, answers, k - 1);
      OneOrder(found, miners, answers, k - 1);
      var h := found[k - 1].height;
      ProcessedIsFetched(found, miners, answers, k - 1, h);
      FetchesGrow(found, answers, k, |found|, h);
      if miners == [] && Usable(answers[k - 1]) {
        CreditNobody(Rebuild(found, miners, answers, k - 1).payouts, answers[k - 1].value, found[k - 1]);
      }
    }
  }

  /** The rebuild records a payout to the first miner for every usable answer. */
  lemma {:induction false} RebuildRecords(found: seq<FoundBlock>, miners: seq<string>, answers: seq<Answer>, k: nat,
                                          h: uint64)
    requires k <= |found| == |answers| && miners != []
    ensures |RecordsAt(Rebuild(found, miners, answers, k).payouts, miners[0], h)| >= Fetches(found, answers, k, h)
  {
    hide CreditAll, RecordsAt;
    if k > 0 {
      RebuildRecords(found, miners, answers, k - 1, h);
      if Usable(answers[k - 1]) {
        var s := Sighting(found[k - 1], miners, answers[k - 1]);
        FirstMinerCredited(Rebuild(found, miners, answers, k - 1).payouts, s, h);
      }
    }
  }

  lemma FirstMinerCredited(p: Payouts, s: Sighting, h: uint64)
    requires Usable(s.answer) && s.miners != []
    ensures |RecordsAt(CreditAll(p, s.miners, s.answer.value, s.fb), s.miners[0], h)|
         >= |RecordsAt(p, s.miners[0], h)| + (if h == s.fb.height then 1 else 0)
  {
    CreditAllRecords(p, s.miners, s, s.miners[0], h);
    SortDescendingSorts(s.answer.value);
    SamePermutationLength(SortDescending(s.answer.value), s.answer.value);
    hide SortDescending;
    var amounts := SortDescending(s.answer.value);
    var n := MatchCount(s.miners, amounts);
    DueByPosition(s.miners, amounts, s.fb, s.miners[0], n);
    assert s.miners[..n][0] == s.miners[0];
  }

  lemma CycleRecordsOnce(found: seq<FoundBlock>, miners: seq<string>, answers: seq<Answer>, h: uint64)
    requires |found| == |answers| && NoRepeats(miners) && miners != []
    ensures |RecordsAt(Blocks(NoMemory(), found, miners, answers, |found|).payouts, miners[0], h)| <= 1
  {
    var e := Sync(found, miners, answers);
    var ss := SightingsIn(e, |found|);
    SightingsFrom(ss, e);
    LedgerExplained(ss, h);
    SightingsMiners(e, |found|);
    if FirstUsable(ss, h).Some? {
      FirstSeenIsSighting(ss, h);
      hide MemoryOf, DueFrom, RecordsAt;
      DuePrefix(FirstSeen(ss, h).value.miners, FirstUsable(ss, h).value, miners[0]);
    }
  }

  lemma {:induction false} SightingsMiners(e: Event, k: nat)
    requires e.Sync? && |e.answers| == |e.found| && k <= |e.found|
    ensures forall s | s in SightingsIn(e, k) :: s.miners == e.miners
  {
    if k > 0 {
      SightingsMiners(e, k - 1);
    }
  }

  lemma {:induction false} SightingsFromPrefix(e: Event, k: nat)
    requires e.Sync? && |e.answers| == |e.found| && k <= |e.found|
    ensures MemoryOf(SightingsIn(e, k)) == Blocks(NoMemory(), e.found, e.miners, e.answers, k)
  {
    hide BlockStep;
    if k > 0 {
      SightingsFromPrefix(e, k - 1);
      var all := SightingsIn(e, k);
      assert all[..|all| - 1] == SightingsIn(e, k - 1);
    }
  }

  lemma SightingsFrom(ss: seq<Sighting>, e: Event)
    requires e.Sync? && |e.answers| == |e.found| && ss == SightingsIn(e, |e.found|)
    ensures MemoryOf(ss) == Blocks(NoMemory(), e.found, e.miners, e.answers, |e.found|)
  {
    SightingsFromPrefix(e, |e.found|);
  }

  /**
   * With the same miner order and answers, the rebuild always marks the same heights processed, and it
   * records the same payouts exactly when no height comes back with a second usable answer.
   */
  lemma RebuildAgrees(found: seq<FoundBlock>, miners: seq<string>, answers: seq<Answer>)
    requires |found| == |answers| && NoRepeats(miners)
    ensures var r, m := Rebuild(found, miners, answers, |found|), Blocks(NoMemory(), found, miners, answers, |found|);
            && r.processed == m.processed
            && (r.payouts == m.payouts <==> !CreditsTwice(found, miners, answers))
  {
    SameProcessed(found, miners, answers, |found|);
    if CreditsTwice(found, miners, answers) {
      var h :| Fetches(found, answers, |found|, h) >= 2;
      RebuildRecords(found, miners, answers, |found|, h);
      CycleRecordsOnce(found, miners, answers, h);
    } else {
      SamePayouts(found, miners, answers, |found|);
    }
  }

  lemma {:induction false} FetchesDistinct(found: seq<FoundBlock>, answers: seq<Answer>, k: nat, h: uint64)
    requires k <= |found| == |answers| && forall i, j :: 0 <= i < j < |found| ==> found[i].height != found[j].height
    ensures Fetches(found, answers, k, h) <= 1
    ensures Fetches(found, answers, k, h) == 1 ==> exists i :: 0 <= i < k && found[i].height == h
  {
    if k > 0 {
      FetchesDistinct(found, answers, k - 1, h);
    }
  }

  /** In particular on found blocks of distinct heights. */
  lemma {:induction false} RebuildAgreesOnDistinctHeights(found: seq<FoundBlock>, miners: seq<string>,
                                                          answers: seq<Answer>)
    requires |found| == |answers| && NoRepeats(miners)
    requires forall i, j :: 0 <= i < j < |found| ==> found[i].height != found[j].height
    ensures var r, m := Rebuild(found, miners, answers, |found|), Blocks(NoMemory(), found, miners, answers, |found|);
            r.processed == m.processed && r.payouts == m.payouts
  {
    forall h
      ensures Fetches(found, answers, |found|, h) <= 1
    {
      FetchesDistinct(found, answers, |found|, h);
    }
    RebuildAgrees(found, miners, answers);
  }

  /** One height found twice: the rebuild pays the miner twice, the cycle once. */
  lemma RebuildPaysTwice(fb: FoundBlock, miner: string, amount: uint64)
    ensures var found, miners, answers := [fb, fb], [miner], [Some([amount]), Some([amount])];
            && CreditsTwice(found, miners, answers)
            && Rebuild(found, miners, answers, 2).payouts
               == map[miner := [PayoutFor(fb, amount), PayoutFor(fb, amount)]]
            && Blocks(NoMemory(), found, miners, answers, 2).payouts == map[miner := [PayoutFor(fb, amount)]]
  {
    var found, miners, answers, x := [fb, fb], [miner], [Some([amount]), Some([amount])], PayoutFor(fb, amount);
    assert Fetches(found, answers, 0, fb.height) == 0 && Fetches(found, answers, 1, fb.height) == 1;
    assert Fetches(found, answers, 2, fb.height) == 2;
    CreditOne(map[], miner, amount, fb);
    CreditOne(map[miner := [x]], miner, amount, fb);
    assert [] + [x] == [x] && [x] + [x] == [x, x];
    hide CreditAll;
    assert Rebuild(found, miners, answers, 0) == Blocks(NoMemory(), found, miners, answers, 0) == NoMemory();
    assert Rebuild(found, miners, answers, 1).payouts == map[miner := [x]];
    assert Blocks(NoMemory(), found, miners, answers, 1).payouts == map[miner := [x]];
  }

  lemma CreditOne(p: Payouts, miner: string, amount: uint64, fb: FoundBlock)
    ensures CreditAll(p, [miner], [amount], fb) == Append(p, miner, PayoutFor(fb, amount))
  {
    assert SortDescending([amount]) == [amount] by {
      assert [amount][..0] == [];
      SortedIsUnique([amount], [amount]);
    }
    hide SortDescending, Append;
    assert CreditFirst(p, [miner], [amount], fb, 0) == p;
  }
}
