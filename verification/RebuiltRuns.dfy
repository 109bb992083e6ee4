/** What a rebuild leaves for the daemon that is started after it, and what later cycles make of it. */
module RebuiltRuns {
  import opened GoInt
  import opened Options
  import opened Sorting
  import opened PayoutLedger
  import opened Runs
  import opened Rebuilds

  // ---------------------------------------------------------------------------------------------
  // The ledger after a rebuild
  // ---------------------------------------------------------------------------------------------

  /** Whom an answer reaches: as many of the miners, heaviest first, as it has outputs. */
  function ReachedBy(miners: seq<string>, answer: Answer): seq<string> {
    if !Usable(answer) then []
    else miners[..if |answer.value| > |miners| then |miners| else |answer.value|]
  }

  /** One of the first `k` answers reaches the address. */
  ghost predicate Credits(miners: seq<string>, answers: seq<Answer>, k: nat, a: string)
    requires k <= |answers|
  {
    exists j :: 0 <= j < k && a in ReachedBy(miners, answers[j])
  }

  lemma {:induction false} CreditFirstKeys(p: Payouts, addrs: seq<string>, amounts: seq<int>, fb: FoundBlock, n: nat,
                                           a: string)
    requires n <= |addrs| && n <= |amounts|
    ensures a in CreditFirst(p, addrs, amounts, fb, n) <==> a in p || a in addrs[..n]
  {
    if n > 0 {
      CreditFirstKeys(p, addrs, amounts, fb, n - 1, a);
      assert addrs[..n] == addrs[..n - 1] + [addrs[n - 1]];
    }
  }

  lemma CreditAllKeys(p: Payouts, miners: seq<string>, answer: Answer, fb: FoundBlock, a: string)
    requires Usable(answer)
    ensures a in CreditAll(p, miners, answer.value, fb) <==> a in p || a in ReachedBy(miners, answer)
  {
    SortDescendingSorts(answer.value);
    SamePermutationLength(SortDescending(answer.value), answer.value);
    hide SortDescending;
    var amounts := SortDescending(answer.value);
    CreditFirstKeys(p, miners, amounts, fb, MatchCount(miners, amounts), a);
  }

  /** Whom the rebuild credits is decided by its miner order and the sizes of its answers. */
  lemma {:induction false} RebuildCredits(found: seq<FoundBlock>, miners: seq<string>, answers: seq<Answer>, k: nat,
                                          a: string)
    requires k <= |found| == |answers|
    ensures a in Rebuild(found, miners, answers, k).payouts <==> Credits(miners, answers, k, a)
  {
    hide CreditAll, ReachedBy;
    if k > 0 {
      RebuildCredits(found, miners, answers, k - 1, a);
      CreditsStep(miners, answers, k, a);
      if Usable(answers[k - 1]) {
        CreditAllKeys(Rebuild(found, miners, answers, k - 1).payouts, miners, answers[k - 1], found[k - 1], a);
      }
    }
  }

  lemma CreditsStep(miners: seq<string>, answers: seq<Answer>, k: nat, a: string)
    requires 0 < k <= |answers|
    ensures Credits(miners, answers, k, a)
            <==> Credits(miners, answers, k - 1, a) || a in ReachedBy(miners, answers[k - 1])
    ensures a in ReachedBy(miners, answers[k - 1]) ==> Usable(answers[k - 1])
  {
    if Credits(miners, answers, k - 1, a) {
      var j :| 0 <= j < k - 1 && a in ReachedBy(miners, answers[j]);
      assert j < k;
    }
  }

  lemma CreditsMiners(miners: seq<string>, answers: seq<Answer>, k: nat, a: string)
    requires k <= |answers| && Credits(miners, answers, k, a)
    ensures a in miners
  {
  }

  lemma LoadedAt(stored: map<string, seq<Payout>>, a: string)
    requires WellKeyed(stored)
    ensures a in LoadedPayouts(stored) <==> ':' !in a && KeyOf(a) in stored
    ensures a in LoadedPayouts(stored) ==> LoadedPayouts(stored)[a] == stored[KeyOf(a)]
  {
    hide AddressIn, KeyOf;
    if ':' !in a {
      KeyReadsBack(a);
    }
  }

  lemma KeyedAt(p: Payouts, a: string)
    ensures KeyOf(a) in Keyed(p) <==> a in p
    ensures a in p ==> Keyed(p)[KeyOf(a)] == p[a]
  {
    hide KeyOf;
    KeysInjective();
  }

  lemma OverwrittenGood(stored: map<string, seq<Payout>>, p: Payouts)
    requires WellKeyed(stored) && forall a | a in p :: ':' !in a
    ensures WellKeyed(stored + Keyed(p))
  {
    KeysAreGood(p);
    hide Keyed, GoodKey, KeyOf, AddressIn;
  }

  lemma OverwrittenAt(stored: map<string, seq<Payout>>, p: Payouts, a: string)
    requires WellKeyed(stored) && WellKeyed(stored + Keyed(p)) && forall a | a in p :: ':' !in a
    ensures var loaded, expected := LoadedPayouts(stored + Keyed(p)), LoadedPayouts(stored) + p;
            (a in loaded <==> a in expected) && (a in loaded ==> loaded[a] == expected[a])
  {
    hide LoadedPayouts, Keyed, WellKeyed, KeyOf;
    LoadedAt(stored + Keyed(p), a);
    LoadedAt(stored, a);
    KeyedAt(p, a);
  }

  /** Loading written-over keys gives the written lists, and the old ones where nothing was written. */
  lemma LoadOverwritten(stored: map<string, seq<Payout>>, p: Payouts)
    requires WellKeyed(stored) && forall a | a in p :: ':' !in a
    ensures WellKeyed(stored + Keyed(p)) && LoadedPayouts(stored + Keyed(p)) == LoadedPayouts(stored) + p
  {
    OverwrittenGood(stored, p);
    hide LoadedPayouts, Keyed, WellKeyed;
    forall a
      ensures var loaded, expected := LoadedPayouts(stored + Keyed(p)), LoadedPayouts(stored) + p;
              (a in loaded <==> a in expected) && (a in loaded ==> loaded[a] == expected[a])
    {
      OverwrittenAt(stored, p, a);
    }
  }

  lemma StoredRebuilt(s: Store, r: Memory)
    requires WellKeyed(s.payouts) && WellKeyed(Rebuilt(s, r).payouts)
    ensures Stored(Rebuilt(s, r))
         == Memory(r.processed, LoadedPayouts(s.payouts + Keyed(r.payouts)), Stored(s).snapshots)
  {
    hide LoadedPayouts, Keyed, WellKeyed;
  }

  /**
   * What the next process loads after a rebuild: the heights of the rebuild, the rebuilt lists, the old lists
   * of everyone the rebuild did not credit, and the old snapshots.
   */
  lemma RebuiltLedger(l: Ledger, found: seq<FoundBlock>, miners: seq<string>, answers: seq<Answer>)
    requires InSync(l) && |answers| == |found| && forall a | a in miners :: ':' !in a
    ensures var (r, before) := (Rebuild(found, miners, answers, |found|), Stored(l.store));
            var after := Ledger(NoMemory(), Rebuilt(l.store, r));
            && InSync(after)
            && Stored(after.store) == Memory(r.processed, before.payouts + r.payouts, before.snapshots)
  {
    var r := Rebuild(found, miners, answers, |found|);
    forall a | a in r.payouts
      ensures a in miners
    {
      RebuildCredits(found, miners, answers, |found|, a);
      CreditsMiners(miners, answers, |found|, a);
    }
    LoadOverwritten(l.store.payouts, r.payouts);
    hide Rebuild, LoadedPayouts, Keyed, GoodKey, WellKeyed;
    StoredRebuilt(l.store, r);
  }

  /** Somebody whom no answer of the rebuild reaches has an old record of the height. */
  ghost predicate Leftover(before: Payouts, miners: seq<string>, answers: seq<Answer>, h: uint64) {
    exists a :: !Credits(miners, answers, |answers|, a) && RecordsAt(before, a, h) != []
  }

  lemma RecordsMerged(before: Payouts, rebuilt: Payouts, a: string, h: uint64)
    ensures RecordsAt(before + rebuilt, a, h)
         == if a in rebuilt then RecordsAt(rebuilt, a, h) else RecordsAt(before, a, h)
    ensures RecordsAt(rebuilt, a, h) != [] ==> a in rebuilt
  {
    hide AtHeight;
  }

  /**
   * After a rebuild the address of every miner some answer reaches has the rebuilt records of a height, and every
   * other address its old ones. They all come from the rebuild if and only if none of these others had any.
   */
  lemma RebuiltRecords(before: Payouts, found: seq<FoundBlock>, miners: seq<string>, answers: seq<Answer>, h: uint64)
    requires |answers| == |found|
    ensures var r := Rebuild(found, miners, answers, |found|).payouts;
            && (forall a :: RecordsAt(before + r, a, h)
                         == if Credits(miners, answers, |answers|, a) then RecordsAt(r, a, h)
                            else RecordsAt(before, a, h))
            && (forall a :: RecordsAt(r, a, h) != [] ==> Credits(miners, answers, |answers|, a))
            && ((forall a :: RecordsAt(before + r, a, h) == RecordsAt(r, a, h))
                <==> !Leftover(before, miners, answers, h))
  {
    var r := Rebuild(found, miners, answers, |found|).payouts;
    hide RecordsAt, Credits, Rebuild;
    forall a
      ensures RecordsAt(before + r, a, h)
           == if Credits(miners, answers, |answers|, a) then RecordsAt(r, a, h) else RecordsAt(before, a, h)
      ensures RecordsAt(r, a, h) != [] ==> Credits(miners, answers, |answers|, a)
    {
      RebuildCredits(found, miners, answers, |found|, a);
      RecordsMerged(before, r, a, h);
    }
    if Leftover(before, miners, answers, h) {
      var a :| !Credits(miners, answers, |answers|, a) && RecordsAt(before, a, h) != [];
      assert RecordsAt(before + r, a, h) != RecordsAt(r, a, h);
    }
  }

  // ---------------------------------------------------------------------------------------------
  // Later cycles, from any ledger
  // ---------------------------------------------------------------------------------------------

  /** Nobody has two records of the height, and nobody any before it is processed. */
  ghost predicate Once(m: Memory, h: uint64) {
    && (forall a :: |RecordsAt(m.payouts, a, h)| <= 1)
    && (h !in m.processed ==> forall a :: RecordsAt(m.payouts, a, h) == [])
    && (h in m.snapshots ==> NoRepeats(m.snapshots[h]))
  }

  /** One found block: a processed height stays as it is, and a height credited once is credited once. */
  lemma BlockKeepsOnce(m: Memory, s: Sighting, h: uint64)
    requires NoRepeats(s.miners)
    ensures Once(m, h) ==> Once(BlockStep(m, s.fb, s.miners, s.answer), h)
    ensures h in m.processed ==>
      h in BlockStep(m, s.fb, s.miners, s.answer).processed
      && forall a :: RecordsAt(BlockStep(m, s.fb, s.miners, s.answer).payouts, a, h) == RecordsAt(m.payouts, a, h)
  {
    hide RecordsAt, CreditAll, DueFrom;
    if s.fb.height !in m.processed && Usable(s.answer) {
      var snapshot := if s.fb.height in m.snapshots then m.snapshots[s.fb.height] else s.miners;
      forall a
        ensures RecordsAt(CreditAll(m.payouts, snapshot, s.answer.value, s.fb), a, h)
             == RecordsAt(m.payouts, a, h) + (if h == s.fb.height then DueFrom(snapshot, s, a) else [])
        ensures NoRepeats(snapshot) ==> |DueFrom(snapshot, s, a)| <= 1
      {
        CreditAllRecords(m.payouts, snapshot, s, a, h);
        if NoRepeats(snapshot) {
          DuePrefix(snapshot, s, a);
        }
      }
    }
  }

  lemma {:induction false} BlocksKeepOnce(m: Memory, e: Event, k: nat, h: uint64)
    requires e.Sync? && ValidEvent(e) && k <= |e.found|
    ensures var m' := Blocks(m, e.found, e.miners, e.answers, k);
            && (Once(m, h) ==> Once(m', h))
            && (h in m.processed ==>
                  h in m'.processed && forall a :: RecordsAt(m'.payouts, a, h) == RecordsAt(m.payouts, a, h))
  {
    hide Once, BlockStep, RecordsAt;
    if k > 0 {
      BlocksKeepOnce(m, e, k - 1, h);
      BlockKeepsOnce(Blocks(m, e.found, e.miners, e.answers, k - 1),
                     Sighting(e.found[k - 1], e.miners, e.answers[k - 1]), h);
    }
  }

  /**
   * From any ledger, rebuilt or not: along every run a processed height keeps its records, and a height that
   * was credited once is never credited to anyone a second time.
   */
  lemma {:induction false} RunKeepsOnce(l: Ledger, es: seq<Event>, h: uint64)
    requires InSync(l) && ValidEvents(es)
    ensures var m, m' := Stored(l.store), Stored(Run(l, es).store);
            && (Once(m, h) ==> Once(m', h))
            && (h in m.processed ==>
                  h in m'.processed && forall a :: RecordsAt(m'.payouts, a, h) == RecordsAt(m.payouts, a, h))
  {
    if es != [] {
      var init, e := es[..|es| - 1], es[|es| - 1];
      RunLast(l, es);
      hide Run, Step, Once, RecordsAt, Stored, Blocks, InSync;
      RunKeepsOnce(l, init, h);
      var before := Run(l, init);
      StepInSync(before, e);
      if e.Sync? && e.found != [] {
        BlocksKeepOnce(Stored(before.store), e, |e.found|, h);
      } else {
        NothingStored(before, e);
      }
    }
  }

  // ---------------------------------------------------------------------------------------------
  // Which heights a rebuild spoils
  // ---------------------------------------------------------------------------------------------

  /** A height the rebuild could not fetch has no rebuilt record; one fetched once has at most one for each. */
  lemma {:induction false} RebuildAtMost(found: seq<FoundBlock>, miners: seq<string>, answers: seq<Answer>, k: nat,
                                         h: uint64, a: string)
    requires k <= |found| == |answers| && NoRepeats(miners)
    ensures |RecordsAt(Rebuild(found, miners, answers, k).payouts, a, h)| <= Fetches(found, answers, k, h)
  {
    hide RecordsAt, CreditAll, DueFrom;
    if k == 0 {
      NothingRecorded(a, h);
    } else {
      RebuildAtMost(found, miners, answers, k - 1, h, a);
      if Usable(answers[k - 1]) {
        var s := Sighting(found[k - 1], miners, answers[k - 1]);
        CreditAllRecords(Rebuild(found, miners, answers, k - 1).payouts, miners, s, a, h);
        DuePrefix(miners, s, a);
      }
    }
  }

  /**
   * A height that was credited once before a rebuild stays so, in the ledger loaded after it, if and only if
   * either the rebuild fetched it exactly once, or at all with nobody to credit, or it did not fetch it and
   * nobody beyond the reach of its answers had a record of it.
   */
  lemma OnceAfterRebuild(before: Memory, found: seq<FoundBlock>, miners: seq<string>, answers: seq<Answer>, h: uint64)
    requires Once(before, h) && |answers| == |found| && NoRepeats(miners)
    ensures var r := Rebuild(found, miners, answers, |found|);
            var n := Fetches(found, answers, |found|, h);
            Once(Memory(r.processed, before.payouts + r.payouts, before.snapshots), h)
            <==> if n == 0 then !Leftover(before.payouts, miners, answers, h) else n == 1 || miners == []
  {
    var r, n := Rebuild(found, miners, answers, |found|), Fetches(found, answers, |found|, h);
    hide RecordsAt, Rebuild, Fetches, Blocks, Credits;
    SameProcessed(found, miners, answers, |found|);
    ProcessedIsFetched(found, miners, answers, |found|, h);
    RebuiltRecords(before.payouts, found, miners, answers, h);
    forall a
      ensures |RecordsAt(r.payouts, a, h)| <= n
    {
      RebuildAtMost(found, miners, answers, |found|, h, a);
    }
    if miners == [] {
      forall a
        ensures RecordsAt(r.payouts, a, h) == []
      {
        if Credits(miners, answers, |answers|, a) {
          CreditsMiners(miners, answers, |answers|, a);
        }
      }
    } else if n >= 2 {
      RebuildRecords(found, miners, answers, |found|, h);
      assert |RecordsAt(before.payouts + r.payouts, miners[0], h)| >= 2;
    }
  }

  lemma NothingRecorded(a: string, h: uint64)
    ensures RecordsAt(map[], a, h) == []
  {
  }

  lemma OneSync(l: Ledger, e: Event)
    requires InSync(l) && ValidEvent(e) && e.Sync? && e.found != []
    ensures ValidEvents([e])
    ensures Stored(Run(l, [e]).store) == Blocks(Stored(l.store), e.found, e.miners, e.answers, |e.found|)
  {
    hide Blocks, Stored, InSync, Step;
    assert [e][..0] == [];
    RunLast(l, [e]);
    StepInSync(l, e);
  }

  lemma RecordsOfList(p: Payouts, a: string, x: Payout)
    ensures p == map[a := [x]] ==> RecordsAt(p, a, x.blockHeight) == [x]
    ensures p == map[a := [x, x]] ==> RecordsAt(p, a, x.blockHeight) == [x, x]
  {
    assert [x][..0] == [] && [x, x][..1] == [x];
    assert AtHeight([x], x.blockHeight) == [x];
  }

  /** A height is credited to `a`, then the rebuild cannot fetch it and works for another miner. */
  function Spoiled(fb: FoundBlock, a: string, b: string, amount: uint64): Ledger
    requires ':' !in a
  {
    StartInSync();
    var l := Run(Start(), [Sync([fb], [a], [Some([amount])])]);
    Ledger(NoMemory(), Rebuilt(l.store, Rebuild([fb], [b], [None], 1)))
  }

  lemma SpoiledLedger(fb: FoundBlock, a: string, b: string, amount: uint64)
    requires ':' !in a && ':' !in b
    ensures var after := Spoiled(fb, a, b, amount);
            && InSync(after)
            && Stored(after.store) == Memory({}, map[a := [PayoutFor(fb, amount)]], map[fb.height := [a]])
  {
    var first, x := Sync([fb], [a], [Some([amount])]), PayoutFor(fb, amount);
    hide Blocks, Rebuild, Run, InSync, Rebuilt, Append, Stored;
    StartInSync();
    NothingFetched(fb, b);
    CreditsOnly(NoMemory(), fb, a, [a], amount);
    AppendsOnly(a, x);
    OneSync(Start(), first);
    RebuiltLedger(Run(Start(), [first]), [fb], [b], [None]);
    assert map[a := [x]] + map[] == map[a := [x]];
  }

  /** The next cycle credits such a height to the miner of the old snapshot again. */
  lemma RebuildThenTwice(fb: FoundBlock, a: string, b: string, amount: uint64)
    requires ':' !in a && ':' !in b
    ensures var after, second := Spoiled(fb, a, b, amount), Sync([fb], [b], [Some([amount])]);
            && InSync(after) && ValidEvents([second]) && !Once(Stored(after.store), fb.height)
            && RecordsAt(Stored(Run(after, [second]).store).payouts, a, fb.height)
               == [PayoutFor(fb, amount), PayoutFor(fb, amount)]
  {
    SpoiledLedger(fb, a, b, amount);
    hide Run, InSync, Stored, RecordsAt, Spoiled, Once;
    CreditedAgain(Spoiled(fb, a, b, amount), fb, a, b, amount);
  }

  lemma CreditedAgain(l: Ledger, fb: FoundBlock, a: string, b: string, amount: uint64)
    requires ':' !in b && InSync(l)
    requires Stored(l.store) == Memory({}, map[a := [PayoutFor(fb, amount)]], map[fb.height := [a]])
    ensures !Once(Stored(l.store), fb.height)
    ensures var second := Sync([fb], [b], [Some([amount])]);
            ValidEvents([second])
            && RecordsAt(Stored(Run(l, [second]).store).payouts, a, fb.height)
               == [PayoutFor(fb, amount), PayoutFor(fb, amount)]
  {
    var second, x := Sync([fb], [b], [Some([amount])]), PayoutFor(fb, amount);
    hide Blocks, Run, Append, Stored, RecordsAt, Once;
    CreditsOnly(Stored(l.store), fb, a, [b], amount);
    AppendsOnly(a, x);
    OneSync(l, second);
    RecordsOfList(map[a := [x]], a, x);
    RecordsOfList(map[a := [x, x]], a, x);
    NotOnce(Stored(l.store), a, fb.height);
  }

  lemma NotOnce(m: Memory, a: string, h: uint64)
    requires h !in m.processed && RecordsAt(m.payouts, a, h) != []
    ensures !Once(m, h)
  {
  }

  lemma AppendsOnly(a: string, x: Payout)
    ensures Append(map[], a, x) == map[a := [x]] && Append(map[a := [x]], a, x) == map[a := [x, x]]
    ensures Stored(Start().store) == NoMemory()
  {
    assert [] + [x] == [x] && [x] + [x] == [x, x];
  }

  lemma NothingFetched(fb: FoundBlock, b: string)
    ensures Rebuild([fb], [b], [None], 1) == NoMemory()
  {
    assert Rebuild([fb], [b], [None], 0) == NoMemory();
  }

  /** A cycle with one found block and one output, at a height whose snapshot, new or old, lists one miner. */
  lemma CreditsOnly(m: Memory, fb: FoundBlock, a: string, miners: seq<string>, amount: uint64)
    requires fb.height !in m.processed && (if fb.height in m.snapshots then m.snapshots[fb.height] else miners) == [a]
    ensures Blocks(m, [fb], miners, [Some([amount])], 1)
         == Memory(m.processed + {fb.height}, Append(m.payouts, a, PayoutFor(fb, amount)),
                   m.snapshots[fb.height := [a]])
  {
    CreditOne(m.payouts, a, amount, fb);
    hide CreditAll, Append;
    assert Blocks(m, [fb], miners, [Some([amount])], 0) == m;
    assert fb.height in m.snapshots ==> m.snapshots[fb.height := [a]] == m.snapshots;
  }
}
