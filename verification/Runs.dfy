/** What every run of cycles, failed fetches and restarts keeps of the ledger. */
module Runs {
  import opened GoInt
  import opened Options
  import opened Sorting
  import opened PayoutLedger

  datatype Event =
    | Sync(found: seq<FoundBlock>, miners: seq<string>, answers: seq<Answer>)
    | Restart

  /** A cycle asks once per found block; the miner order lists distinct addresses without colons. */
  predicate ValidEvent(e: Event) {
    e.Sync? ==> |e.answers| == |e.found| && NoRepeats(e.miners) && forall a | a in e.miners :: ':' !in a
  }

  predicate ValidEvents(es: seq<Event>) {
    forall e | e in es :: ValidEvent(e)
  }

  function Step(l: Ledger, e: Event): Ledger
    requires WellKeyed(l.store.payouts) && ValidEvent(e)
  {
    match e
    case Sync(found, miners, answers) => Cycle(l, found, miners, answers)
    case Restart => RestartLedger(l)
  }

  // ---------------------------------------------------------------------------------------------
  // Memory and store agree between cycles
  // ---------------------------------------------------------------------------------------------

  /** The memory that a load from scratch would give. */
  function Stored(s: Store): Memory
    requires WellKeyed(s.payouts)
  {
    Loaded(NoMemory(), s)
  }

  predicate ColonFree(m: Memory) {
    && (forall a | a in m.payouts :: ':' !in a)
    && (forall h | h in m.snapshots :: forall a | a in m.snapshots[h] :: ':' !in a)
  }

  /** Between cycles the memory is either untouched since a restart or what the store holds. */
  predicate InSync(l: Ledger) {
    && WellKeyed(l.store.payouts)
    && ColonFree(Stored(l.store))
    && (l.mem == NoMemory() || l.mem == Stored(l.store))
  }

  lemma LoadRestores(l: Ledger)
    requires InSync(l)
    ensures Loaded(l.mem, l.store) == Stored(l.store)
  {
  }

  lemma {:induction false} CreditFirstGrows(p: Payouts, addrs: seq<string>, amounts: seq<int>, fb: FoundBlock, n: nat)
    requires n <= |addrs| && n <= |amounts|
    ensures p.Keys <= CreditFirst(p, addrs, amounts, fb, n).Keys
    ensures forall a | a in CreditFirst(p, addrs, amounts, fb, n) :: a in p || a in addrs
  {
    if n > 0 {
      CreditFirstGrows(p, addrs, amounts, fb, n - 1);
    }
  }

  lemma BlockStepGrows(m: Memory, fb: FoundBlock, miners: seq<string>, answer: Answer)
    requires ColonFree(m) && forall a | a in miners :: ':' !in a
    ensures var m' := BlockStep(m, fb, miners, answer);
            && ColonFree(m')
            && m.payouts.Keys <= m'.payouts.Keys
            && (!Changes(m, fb, answer) ==> m' == m)
  {
    if fb.height !in m.processed && Usable(answer) {
      var addrs := if fb.height in m.snapshots then m.snapshots[fb.height] else miners;
      var amounts := SortDescending(answer.value);
      CreditFirstGrows(m.payouts, addrs, amounts, fb, MatchCount(addrs, amounts));
    }
  }

  lemma {:induction false} BlocksGrow(m: Memory, e: Event, k: nat)
    requires e.Sync? && ValidEvent(e) && k <= |e.found| && ColonFree(m)
    ensures var m' := Blocks(m, e.found, e.miners, e.answers, k);
            && ColonFree(m')
            && m.payouts.Keys <= m'.payouts.Keys
            && (!Dirty(m, e.found, e.miners, e.answers, k) ==> m' == m)
  {
    hide BlockStep, ColonFree;
    if k > 0 {
      BlocksGrow(m, e, k - 1);
      BlockStepGrows(Blocks(m, e.found, e.miners, e.answers, k - 1), e.found[k - 1], e.miners, e.answers[k - 1]);
    }
  }

  /** The key of a colon-free address is good, and reads back to it. */
  lemma KeysAreGood(p: Payouts)
    requires forall a | a in p :: ':' !in a
    ensures WellKeyed(Keyed(p))
    ensures forall a | a in p :: KeyOf(a) in Keyed(p) && AddressIn(KeyOf(a)) == Some(a)
  {
    hide AddressIn, KeyOf;
    forall a | a in p
      ensures AddressIn(KeyOf(a)) == Some(a)
    {
      KeyReadsBack(a);
    }
  }

  lemma LoadInvertsKeys(p: Payouts)
    requires forall a | a in p :: ':' !in a
    requires WellKeyed(Keyed(p))
    ensures LoadedPayouts(Keyed(p)) == p
  {
    hide AddressIn, KeyOf;
    KeysInjective();
    KeysAreGood(p);
    var loaded := LoadedPayouts(Keyed(p));
    assert forall a | a in p :: a in loaded && loaded[a] == p[a];
    assert forall a | a in loaded :: a in p;
  }

  lemma StoredKeysWritten(s: Store, m: Memory)
    requires WellKeyed(s.payouts) && Stored(s).payouts.Keys <= m.payouts.Keys
    ensures s.payouts + Keyed(m.payouts) == Keyed(m.payouts)
  {
    hide AddressIn, KeyOf;
    assert s.payouts.Keys <= Keyed(m.payouts).Keys by {
      forall key | key in s.payouts
        ensures key in Keyed(m.payouts)
      {
        assert GoodKey(key);
        var a := AddressIn(key).value;
        assert a in Stored(s).payouts;
        assert KeyOf(a) in Keyed(m.payouts);
      }
    }
  }

  /** Writing back a memory that grew from the store makes the store that memory. */
  lemma PersistStores(s: Store, m: Memory)
    requires WellKeyed(s.payouts) && ColonFree(m) && Stored(s).payouts.Keys <= m.payouts.Keys
    ensures WellKeyed(Persist(s, m).payouts) && Stored(Persist(s, m)) == m
  {
    StoredKeysWritten(s, m);
    KeysAreGood(m.payouts);
    LoadInvertsKeys(m.payouts);
    hide LoadedPayouts, Keyed, WellKeyed;
  }

  lemma StoredIgnoresFound(s: Store, found: Option<seq<FoundBlock>>)
    requires WellKeyed(s.payouts)
    ensures Stored(s.(found := found)) == Stored(s)
  {
  }

  /** Every event keeps memory and store in agreement. */
  lemma StepInSync(l: Ledger, e: Event)
    requires InSync(l) && ValidEvent(e)
    ensures InSync(Step(l, e))
    ensures e.Sync? && e.found != [] ==>
      Step(l, e).mem == Stored(Step(l, e).store)
                     == Blocks(Stored(l.store), e.found, e.miners, e.answers, |e.found|)
  {
    if e.Sync? && e.found != [] {
      LoadRestores(l);
      var m := Stored(l.store);
      BlocksGrow(m, e, |e.found|);
      var after := Blocks(m, e.found, e.miners, e.answers, |e.found|);
      hide Stored, Loaded, ColonFree, Blocks, Dirty, Rewarded, Persist, FoundAfter, WellKeyed;
      var dirty := Dirty(m, e.found, e.miners, e.answers, |e.found|);
      if dirty {
        PersistStores(l.store, after);
      }
      var s := if dirty then Persist(l.store, after) else l.store;
      StoredIgnoresFound(s, Some(FoundAfter(e.found, e.answers)));
      FoundKeepsKeys(s, Some(FoundAfter(e.found, e.answers)));
    }
  }

  lemma FoundKeepsKeys(s: Store, found: Option<seq<FoundBlock>>)
    requires WellKeyed(s.payouts)
    ensures WellKeyed(s.(found := found).payouts)
  {
  }

  // ---------------------------------------------------------------------------------------------
  // Restarts are invisible
  // ---------------------------------------------------------------------------------------------

  function Run(l: Ledger, es: seq<Event>): (r: Ledger)
    requires InSync(l) && ValidEvents(es)
    ensures InSync(r)
  {
    if es == [] then l
    else
      var before, e := Run(l, es[..|es| - 1]), es[|es| - 1];
      StepInSync(before, e);
      Step(before, e)
  }

  /** The same events with every restart left out. */
  function WithoutRestarts(es: seq<Event>): (r: seq<Event>)
    ensures ValidEvents(es) ==> ValidEvents(r)
  {
    if es == [] then []
    else
      var e := es[|es| - 1];
      WithoutRestarts(es[..|es| - 1]) + (if e.Restart? then [] else [e])
  }

  lemma StepForgetsMemory(l: Ledger, k: Ledger, e: Event)
    requires InSync(l) && InSync(k) && l.store == k.store && ValidEvent(e)
    ensures Step(l, e).store == Step(k, e).store
    ensures e.Sync? && e.found != [] ==> Step(l, e) == Step(k, e)
    ensures e.Sync? && e.found == [] ==> Step(l, e) == l && Step(k, e) == k
  {
    LoadRestores(l);
    LoadRestores(k);
  }

  lemma RunAppend(l: Ledger, es: seq<Event>, e: Event)
    requires InSync(l) && ValidEvents(es + [e])
    ensures ValidEvents(es) && ValidEvent(e) && Run(l, es + [e]) == Step(Run(l, es), e)
  {
    assert (es + [e])[..|es|] == es;
    assert e in es + [e];
    forall x | x in es
      ensures ValidEvent(x)
    {
      assert x in es + [e];
    }
  }

  lemma RunLast(l: Ledger, es: seq<Event>)
    requires InSync(l) && ValidEvents(es) && es != []
    ensures ValidEvents(es[..|es| - 1]) && ValidEvent(es[|es| - 1])
    ensures Run(l, es) == Step(Run(l, es[..|es| - 1]), es[|es| - 1])
  {
  }

  lemma RestartKeepsStoreIn(l: Ledger)
    requires InSync(l)
    ensures Step(l, Restart) == Ledger(NoMemory(), l.store)
  {
  }

  /** A restart follows the last cycle that had found blocks, so nothing has been loaded since. */
  predicate RestartedSince(es: seq<Event>) {
    es != [] && match es[|es| - 1]
                case Restart => true
                case Sync(found, _, _) => found == [] && RestartedSince(es[..|es| - 1])
  }

  /** No cycle of the run had found blocks. */
  predicate Idle(es: seq<Event>) {
    forall e | e in es :: e.Sync? ==> e.found == []
  }

  lemma {:induction false} BlocksLeaveTrace(m: Memory, e: Event, k: nat)
    requires e.Sync? && |e.answers| == |e.found| && k <= |e.found|
    ensures k > 0 || m != NoMemory() ==> Blocks(m, e.found, e.miners, e.answers, k) != NoMemory()
  {
    hide CreditAll;
    if k > 0 {
      BlocksLeaveTrace(m, e, k - 1);
      var before := Blocks(m, e.found, e.miners, e.answers, k - 1);
      var after := BlockStep(before, e.found[k - 1], e.miners, e.answers[k - 1]);
      assert e.found[k - 1].height in after.processed || e.found[k - 1].height in after.snapshots;
    }
  }

  /** A cycle leaves the memory empty only if it was, and there were no found blocks. */
  lemma SyncLeavesTrace(l: Ledger, e: Event)
    requires InSync(l) && ValidEvent(e) && e.Sync?
    ensures Step(l, e).mem == NoMemory() <==> l.mem == NoMemory() && e.found == []
  {
    hide Blocks, Dirty, Rewarded, Persist, FoundAfter, Loaded;
    if e.found != [] {
      BlocksLeaveTrace(Loaded(l.mem, l.store), e, |e.found|);
    }
  }

  /** Without restarts, only a run that started empty and never had found blocks has an empty memory. */
  lemma {:induction false} UnrestartedMemory(l: Ledger, es: seq<Event>)
    requires InSync(l) && ValidEvents(es)
    ensures Run(l, WithoutRestarts(es)).mem == NoMemory() <==> l.mem == NoMemory() && Idle(es)
  {
    if es != [] {
      var init, e := es[..|es| - 1], es[|es| - 1];
      assert es == init + [e];
      RunLast(l, es);
      hide Run, Step, InSync, ValidEvents, ValidEvent;
      UnrestartedMemory(l, init);
      if e.Sync? {
        SyncLeavesTrace(Run(l, WithoutRestarts(init)), e);
        RunAppend(l, WithoutRestarts(init), e);
      } else {
        assert WithoutRestarts(es) == WithoutRestarts(init);
      }
    }
  }

  /**
   * Restart transparency: dropping the memory between any cycles and reloading it from the store leaves the
   * same store as never restarting. The memory is still empty while a restart follows the last cycle with found
   * blocks, and otherwise the same; so it differs exactly then, if there was anything to forget.
   */
  lemma {:induction false} RestartsInvisible(l: Ledger, es: seq<Event>)
    requires InSync(l) && ValidEvents(es)
    ensures Run(l, es).store == Run(l, WithoutRestarts(es)).store
    ensures Run(l, es).mem == if RestartedSince(es) then NoMemory() else Run(l, WithoutRestarts(es)).mem
    ensures Run(l, es) == Run(l, WithoutRestarts(es))
            <==> !RestartedSince(es) || (l.mem == NoMemory() && Idle(es))
  {
    UnrestartedMemory(l, es);
    if es != [] {
      var init, e := es[..|es| - 1], es[|es| - 1];
      RunLast(l, es);
      hide Run, Step, InSync, ValidEvents, ValidEvent, Idle;
      RestartsInvisible(l, init);
      var a, b := Run(l, init), Run(l, WithoutRestarts(init));
      if e.Sync? {
        StepForgetsMemory(a, b, e);
        RunAppend(l, WithoutRestarts(init), e);
      } else {
        RestartKeepsStoreIn(a);
        assert WithoutRestarts(es) == WithoutRestarts(init);
      }
    }
  }

  /** A block is sighted and the daemon restarts: its snapshot is stored, but no longer held. */
  lemma RestartForgetsMeanwhile(fb: FoundBlock)
    ensures var es := [Sync([fb], [], [None]), Restart];
            && InSync(Start()) && ValidEvents(es) && RestartedSince(es)
            && Run(Start(), es).mem == NoMemory() != Run(Start(), WithoutRestarts(es)).mem
  {
    var es := [Sync([fb], [], [None]), Restart];
    StartInSync();
    assert es[0] in es && es[1].Restart?;
    hide Run, InSync, WithoutRestarts;
    RestartsInvisible(Start(), es);
    UnrestartedMemory(Start(), es);
  }

  // ---------------------------------------------------------------------------------------------
  // The ledger as a function of what was sighted
  // ---------------------------------------------------------------------------------------------

  /** One appearance of a found block in a cycle: the miner order then current, and the answer got. */
  datatype Sighting = Sighting(fb: FoundBlock, miners: seq<string>, answer: Answer)

  function SightingsIn(e: Event, k: nat): seq<Sighting>
    requires e.Sync? && |e.answers| == |e.found| && k <= |e.found|
  {
    if k == 0 then []
    else SightingsIn(e, k - 1) + [Sighting(e.found[k - 1], e.miners, e.answers[k - 1])]
  }

  function Sightings(es: seq<Event>): seq<Sighting>
    requires ValidEvents(es)
  {
    if es == [] then []
    else
      var e := es[|es| - 1];
      assert ValidEvent(e);
      Sightings(es[..|es| - 1]) + (if e.Sync? then SightingsIn(e, |e.found|) else [])
  }

  function MemoryOf(ss: seq<Sighting>): Memory {
    if ss == [] then NoMemory()
    else
      var s := ss[|ss| - 1];
      BlockStep(MemoryOf(ss[..|ss| - 1]), s.fb, s.miners, s.answer)
  }

  lemma {:induction false} BlocksAreSightings(ss: seq<Sighting>, e: Event, k: nat)
    requires e.Sync? && ValidEvent(e) && k <= |e.found|
    ensures MemoryOf(ss + SightingsIn(e, k)) == Blocks(MemoryOf(ss), e.found, e.miners, e.answers, k)
  {
    hide BlockStep, MemoryOf;
    if k == 0 {
      assert ss + [] == ss;
    } else {
      BlocksAreSightings(ss, e, k - 1);
      var s := Sighting(e.found[k - 1], e.miners, e.answers[k - 1]);
      assert ss + SightingsIn(e, k) == ss + SightingsIn(e, k - 1) + [s];
      MemoryAppend(ss + SightingsIn(e, k - 1), s);
    }
  }

  lemma MemoryAppend(ss: seq<Sighting>, s: Sighting)
    ensures MemoryOf(ss + [s]) == BlockStep(MemoryOf(ss), s.fb, s.miners, s.answer)
  {
    hide BlockStep;
    assert (ss + [s])[..|ss|] == ss;
  }

  function Start(): Ledger {
    Ledger(NoMemory(), NoStore())
  }

  lemma StartInSync()
    ensures InSync(Start())
  {
  }

  /** After any run from an empty store, what is persisted is determined by the sightings alone. */
  lemma {:induction false} RunRemembers(es: seq<Event>)
    requires ValidEvents(es) && InSync(Start())
    ensures Stored(Run(Start(), es).store) == MemoryOf(Sightings(es))
  {
    if es == [] {
      assert Stored(NoStore()) == NoMemory();
    } else {
      var init, e := es[..|es| - 1], es[|es| - 1];
      RunRemembers(init);
      var l := Run(Start(), init);
      hide Stored, InSync, Cycle, MemoryOf, Blocks;
      StepInSync(l, e);
      if e.Sync? && e.found != [] {
        BlocksAreSightings(Sightings(init), e, |e.found|);
      } else {
        assert Sightings(es) == Sightings(init);
        NothingStored(l, e);
      }
    }
  }

  lemma NothingStored(l: Ledger, e: Event)
    requires InSync(l) && ValidEvent(e) && (e.Restart? || e.found == [])
    ensures Step(l, e).store == l.store
  {
  }

  // ---------------------------------------------------------------------------------------------
  // Who is credited what
  // ---------------------------------------------------------------------------------------------

  function AtHeight(ps: seq<Payout>, h: uint64): seq<Payout> {
    if ps == [] then []
    else
      var p := ps[|ps| - 1];
      AtHeight(ps[..|ps| - 1], h) + (if p.blockHeight == h then [p] else [])
  }

  /** The records of one address for one height. */
  function RecordsAt(p: Payouts, a: string, h: uint64): seq<Payout> {
    if a in p then AtHeight(p[a], h) else []
  }

  /** The records due to `a` when the first `n` amounts are credited by position. */
  function Due(addrs: seq<string>, amounts: seq<int>, fb: FoundBlock, a: string, n: nat): seq<Payout>
    requires n <= |addrs| && n <= |amounts|
  {
    if n == 0 then []
    else
      Due(addrs, amounts, fb, a, n - 1) + (if addrs[n - 1] == a then [PayoutFor(fb, amounts[n - 1])] else [])
  }

  lemma AtHeightAppend(ps: seq<Payout>, x: Payout, h: uint64)
    ensures AtHeight(ps + [x], h) == AtHeight(ps, h) + (if x.blockHeight == h then [x] else [])
  {
    assert (ps + [x])[..|ps|] == ps;
  }

  lemma AppendRecords(p: Payouts, addr: string, x: Payout, a: string, h: uint64)
    ensures RecordsAt(Append(p, addr, x), a, h)
         == RecordsAt(p, a, h) + (if addr == a && x.blockHeight == h then [x] else [])
  {
    AtHeightAppend(if a in p then p[a] else [], x, h);
  }

  lemma {:induction false} CreditRecords(p: Payouts, addrs: seq<string>, amounts: seq<int>, fb: FoundBlock, n: nat,
                                         a: string, h: uint64)
    requires n <= |addrs| && n <= |amounts|
    ensures RecordsAt(CreditFirst(p, addrs, amounts, fb, n), a, h)
         == RecordsAt(p, a, h) + (if h == fb.height then Due(addrs, amounts, fb, a, n) else [])
  {
    hide RecordsAt, Append;
    if n > 0 {
      CreditRecords(p, addrs, amounts, fb, n - 1, a, h);
      AppendRecords(CreditFirst(p, addrs, amounts, fb, n - 1), addrs[n - 1], PayoutFor(fb, amounts[n - 1]), a, h);
    }
  }

  /** All that a usable answer makes due to `a`, for a snapshot. */
  function DueFrom(snapshot: seq<string>, s: Sighting, a: string): seq<Payout>
    requires Usable(s.answer)
  {
    var amounts := SortDescending(s.answer.value);
    Due(snapshot, amounts, s.fb, a, MatchCount(snapshot, amounts))
  }

  function FirstSeen(ss: seq<Sighting>, h: uint64): Option<Sighting> {
    if ss == [] then None
    else
      var before, s := FirstSeen(ss[..|ss| - 1], h), ss[|ss| - 1];
      if before.Some? then before else if s.fb.height == h then Some(s) else None
  }

  function FirstUsable(ss: seq<Sighting>, h: uint64): (r: Option<Sighting>)
    ensures r.Some? ==> Usable(r.value.answer) && r.value.fb.height == h && FirstSeen(ss, h).Some?
  {
    if ss == [] then None
    else
      var before, s := FirstUsable(ss[..|ss| - 1], h), ss[|ss| - 1];
      if before.Some? then before else if s.fb.height == h && Usable(s.answer) then Some(s) else None
  }

  /**
   * The state of height `h` in closed form: snapshotted with the miner order of its first sighting,
   * processed once a sighting got a usable answer, and then credited from that first usable answer to
   * that first miner order, whatever was sighted in between or since.
   */
  ghost predicate Explained(m: Memory, ss: seq<Sighting>, h: uint64) {
    && (h in m.snapshots <==> FirstSeen(ss, h).Some?)
    && (h in m.snapshots ==> m.snapshots[h] == FirstSeen(ss, h).value.miners)
    && (h in m.processed <==> FirstUsable(ss, h).Some?)
    && forall a :: RecordsAt(m.payouts, a, h)
         == if FirstUsable(ss, h).Some? then DueFrom(FirstSeen(ss, h).value.miners, FirstUsable(ss, h).value, a)
            else []
  }

  lemma StepExplained(ss: seq<Sighting>, s: Sighting, h: uint64)
    requires Explained(MemoryOf(ss), ss, h) && Explained(MemoryOf(ss), ss, s.fb.height)
    ensures Explained(MemoryOf(ss + [s]), ss + [s], h)
  {
    var all, m := ss + [s], MemoryOf(ss);
    assert all[..|ss|] == ss;
    hide DueFrom, RecordsAt, SortDescending, MemoryOf;
    assert MemoryOf(all) == BlockStep(m, s.fb, s.miners, s.answer) by {
      MemoryAppend(ss, s);
    }
    if s.fb.height !in m.processed && Usable(s.answer) {
      var snapshot := if s.fb.height in m.snapshots then m.snapshots[s.fb.height] else s.miners;
      forall a
        ensures RecordsAt(MemoryOf(all).payouts, a, h)
             == RecordsAt(m.payouts, a, h) + (if h == s.fb.height then DueFrom(snapshot, s, a) else [])
      {
        CreditAllRecords(m.payouts, snapshot, s, a, h);
      }
    }
  }

  lemma CreditAllRecords(p: Payouts, snapshot: seq<string>, s: Sighting, a: string, h: uint64)
    requires Usable(s.answer)
    ensures RecordsAt(CreditAll(p, snapshot, s.answer.value, s.fb), a, h)
         == RecordsAt(p, a, h) + (if h == s.fb.height then DueFrom(snapshot, s, a) else [])
  {
    var amounts := SortDescending(s.answer.value);
    CreditRecords(p, snapshot, amounts, s.fb, MatchCount(snapshot, amounts), a, h);
  }

  /** The closed form holds of every height after every list of sightings. */
  lemma {:induction false} LedgerExplained(ss: seq<Sighting>, h: uint64)
    ensures Explained(MemoryOf(ss), ss, h)
  {
    if ss != [] {
      var init, s := ss[..|ss| - 1], ss[|ss| - 1];
      assert init + [s] == ss;
      LedgerExplained(init, h);
      LedgerExplained(init, s.fb.height);
      StepExplained(init, s, h);
    }
  }

  // ---------------------------------------------------------------------------------------------
  // Consequences for every run
  // ---------------------------------------------------------------------------------------------

  /** What a run from an empty store has recorded for an address and a height. */
  function Recorded(es: seq<Event>, a: string, h: uint64): seq<Payout>
    requires ValidEvents(es)
  {
    StartInSync();
    RecordsAt(Stored(Run(Start(), es).store).payouts, a, h)
  }

  lemma {:induction false} SightingsInValid(e: Event, k: nat)
    requires e.Sync? && ValidEvent(e) && k <= |e.found|
    ensures forall s | s in SightingsIn(e, k) :: NoRepeats(s.miners)
  {
    if k > 0 {
      SightingsInValid(e, k - 1);
    }
  }

  lemma {:induction false} SightingsValid(es: seq<Event>)
    requires ValidEvents(es)
    ensures forall s | s in Sightings(es) :: NoRepeats(s.miners)
  {
    if es != [] {
      var e := es[|es| - 1];
      assert ValidEvent(e);
      SightingsValid(es[..|es| - 1]);
      if e.Sync? {
        SightingsInValid(e, |e.found|);
      }
    }
  }

  lemma {:induction false} FirstSeenIsSighting(ss: seq<Sighting>, h: uint64)
    requires FirstSeen(ss, h).Some?
    ensures FirstSeen(ss, h).value in ss
  {
    if FirstSeen(ss[..|ss| - 1], h).Some? {
      FirstSeenIsSighting(ss[..|ss| - 1], h);
    }
  }

  /** Positions decide: an address is due the amounts at the positions it holds, and nothing else. */
  lemma {:induction false} DueByPosition(addrs: seq<string>, amounts: seq<int>, fb: FoundBlock, a: string, n: nat)
    requires n <= |addrs| && n <= |amounts|
    ensures Due(addrs, amounts, fb, a, n) != [] <==> a in addrs[..n]
    ensures NoRepeats(addrs) ==>
      forall k :: 0 <= k < n && addrs[k] == a ==> Due(addrs, amounts, fb, a, n) == [PayoutFor(fb, amounts[k])]
  {
    if n > 0 {
      DueByPosition(addrs, amounts, fb, a, n - 1);
      assert addrs[..n] == addrs[..n - 1] + [addrs[n - 1]];
    }
  }

  /** Records after a run, read off its sightings. */
  lemma RecordedIsDue(es: seq<Event>, a: string, h: uint64)
    requires ValidEvents(es)
    ensures var ss := Sightings(es);
            Recorded(es, a, h) == if FirstUsable(ss, h).Some?
                                  then DueFrom(FirstSeen(ss, h).value.miners, FirstUsable(ss, h).value, a) else []
    ensures FirstSeen(Sightings(es), h).Some? ==> NoRepeats(FirstSeen(Sightings(es), h).value.miners)
  {
    StartInSync();
    RunRemembers(es);
    LedgerExplained(Sightings(es), h);
    SightingsValid(es);
    if FirstSeen(Sightings(es), h).Some? {
      FirstSeenIsSighting(Sightings(es), h);
    }
  }

  /** How many addresses of a snapshot the answer of a sighting reaches. */
  function Reached(snapshot: seq<string>, s: Sighting): (n: nat)
    requires Usable(s.answer)
    ensures n <= |snapshot| && n <= |SortDescending(s.answer.value)|
  {
    MatchCount(snapshot, SortDescending(s.answer.value))
  }

  /** The addresses due anything are a prefix of the snapshot, each due the amount at its position. */
  lemma DuePrefix(snapshot: seq<string>, s: Sighting, a: string)
    requires Usable(s.answer) && NoRepeats(snapshot)
    ensures DueFrom(snapshot, s, a) != [] <==> a in snapshot[..Reached(snapshot, s)]
    ensures forall k :: 0 <= k < Reached(snapshot, s) && snapshot[k] == a ==>
      DueFrom(snapshot, s, a) == [PayoutFor(s.fb, SortDescending(s.answer.value)[k])]
    ensures |DueFrom(snapshot, s, a)| <= 1
  {
    hide SortDescending;
    var amounts, n := SortDescending(s.answer.value), Reached(snapshot, s);
    DueByPosition(snapshot, amounts, s.fb, a, n);
    if a in snapshot[..n] {
      var k :| 0 <= k < n && snapshot[..n][k] == a;
      assert snapshot[k] == a;
    }
  }

  /** Each address has at most one record per height, after any run. */
  lemma OneRecordPerHeight(es: seq<Event>, a: string, h: uint64)
    requires ValidEvents(es)
    ensures |Recorded(es, a, h)| <= 1
  {
    hide DueFrom, Recorded, FirstSeen, FirstUsable, Sightings;
    RecordedIsDue(es, a, h);
    var ss := Sightings(es);
    if FirstUsable(ss, h).Some? {
      DuePrefix(FirstSeen(ss, h).value.miners, FirstUsable(ss, h).value, a);
    }
  }

  /**
   * First-sight attribution: whichever later cycle the fetch succeeds in, the credited addresses are a
   * prefix of the miner order current when the height was first sighted, each with the amount at its
   * position among the sorted outputs.
   */
  lemma FirstSightAttribution(es: seq<Event>, h: uint64)
    requires ValidEvents(es) && FirstUsable(Sightings(es), h).Some?
    ensures var snapshot := FirstSeen(Sightings(es), h).value.miners;
            var s := FirstUsable(Sightings(es), h).value;
            && (forall a :: Recorded(es, a, h) != [] <==> a in snapshot[..Reached(snapshot, s)])
            && forall k :: 0 <= k < Reached(snapshot, s) ==>
                 Recorded(es, snapshot[k], h) == [PayoutFor(s.fb, SortDescending(s.answer.value)[k])]
  {
    hide DueFrom, Recorded, FirstSeen, FirstUsable, Sightings, Reached, SortDescending;
    var snapshot, s := FirstSeen(Sightings(es), h).value.miners, FirstUsable(Sightings(es), h).value;
    forall a
      ensures Recorded(es, a, h) != [] <==> a in snapshot[..Reached(snapshot, s)]
    {
      RecordedIsDue(es, a, h);
      DuePrefix(snapshot, s, a);
    }
    forall k | 0 <= k < Reached(snapshot, s)
      ensures Recorded(es, snapshot[k], h) == [PayoutFor(s.fb, SortDescending(s.answer.value)[k])]
    {
      RecordedIsDue(es, snapshot[k], h);
      DuePrefix(snapshot, s, snapshot[k]);
    }
  }

  lemma {:induction false} FirstsPersist(ss: seq<Sighting>, more: seq<Sighting>, h: uint64)
    ensures FirstSeen(ss, h).Some? ==> FirstSeen(ss + more, h) == FirstSeen(ss, h)
    ensures FirstUsable(ss, h).Some? ==> FirstUsable(ss + more, h) == FirstUsable(ss, h)
    decreases |more|
  {
    if more == [] {
      assert ss + more == ss;
    } else {
      FirstsPersist(ss, more[..|more| - 1], h);
      assert (ss + more)[..|ss + more| - 1] == ss + more[..|more| - 1];
    }
  }

  lemma {:induction false} SightingsExtend(es: seq<Event>, i: nat)
    requires ValidEvents(es) && i <= |es|
    ensures ValidEvents(es[..i])
    ensures exists more :: Sightings(es) == Sightings(es[..i]) + more
    decreases |es|
  {
    if i == |es| {
      assert es[..i] == es;
      assert Sightings(es) == Sightings(es[..i]) + [];
    } else {
      var init, e := es[..|es| - 1], es[|es| - 1];
      assert ValidEvent(e);
      SightingsExtend(init, i);
      assert init[..i] == es[..i];
      var more :| Sightings(init) == Sightings(es[..i]) + more;
      var last := if e.Sync? then SightingsIn(e, |e.found|) else [];
      assert Sightings(es) == Sightings(es[..i]) + (more + last);
    }
  }

  /** Cycle `i` of the run records something for the height. */
  ghost predicate CreditedIn(es: seq<Event>, i: nat, h: uint64)
    requires ValidEvents(es) && i < |es|
  {
    exists a :: Recorded(es[..i], a, h) != Recorded(es[..i + 1], a, h)
  }

  lemma RecordedFrozen(es: seq<Event>, i: nat, a: string, h: uint64)
    requires ValidEvents(es) && i <= |es| && ValidEvents(es[..i])
    ensures FirstUsable(Sightings(es[..i]), h).Some? ==> Recorded(es, a, h) == Recorded(es[..i], a, h)
    ensures FirstUsable(Sightings(es[..i]), h).None? ==> Recorded(es[..i], a, h) == []
  {
    hide DueFrom, Recorded, FirstSeen, FirstUsable, Sightings;
    RecordedIsDue(es, a, h);
    RecordedIsDue(es[..i], a, h);
    SightingsExtend(es, i);
    var more :| Sightings(es) == Sightings(es[..i]) + more;
    FirstsPersist(Sightings(es[..i]), more, h);
  }

  /** Each height is credited in at most one cycle, through restarts, failures and reappearing blocks. */
  lemma CreditedInOneCycle(es: seq<Event>, i: nat, j: nat, h: uint64)
    requires ValidEvents(es) && i < |es| && j < |es|
    requires CreditedIn(es, i, h) && CreditedIn(es, j, h)
    ensures i == j
  {
    if i < j {
      NoSecondCycle(es, i, j, h);
    } else if j < i {
      NoSecondCycle(es, j, i, h);
    }
  }

  lemma FrozenAt(es: seq<Event>, i: nat, j: nat, a: string, h: uint64)
    requires ValidEvents(es) && i <= j <= |es|
    ensures ValidEvents(es[..i]) && ValidEvents(es[..j])
    ensures FirstUsable(Sightings(es[..i]), h).Some? ==> Recorded(es[..j], a, h) == Recorded(es[..i], a, h)
    ensures FirstUsable(Sightings(es[..i]), h).None? ==> Recorded(es[..i], a, h) == []
  {
    hide Recorded, FirstUsable, Sightings;
    assert es[..j][..i] == es[..i];
    RecordedFrozen(es[..j], i, a, h);
  }

  lemma NoSecondCycle(es: seq<Event>, i: nat, j: nat, h: uint64)
    requires ValidEvents(es) && i < j < |es| && CreditedIn(es, i, h)
    ensures !CreditedIn(es, j, h)
  {
    hide Recorded, FirstUsable, Sightings, ValidEvent;
    var a :| Recorded(es[..i], a, h) != Recorded(es[..i + 1], a, h);
    FrozenAt(es, i, i + 1, a, h);
    FrozenAt(es, i + 1, i + 1, a, h);
    forall b
      ensures Recorded(es[..j], b, h) == Recorded(es[..j + 1], b, h)
    {
      FrozenAt(es, i + 1, j, b, h);
      FrozenAt(es, i + 1, j + 1, b, h);
    }
  }
}
