/** A whole service life: one store, and one daemon object after another over it. */
module Service {
  import opened Wire
  import opened Difficulties
  import opened Shares
  import opened Base58
  import opened Window
  import opened Pplns
  import opened Accounting
  import opened PayoutLedger
  import opened Runs
  import opened Daemons

  /** What the world does to the service: it lets a cycle run on what it shows, or restarts the process. */
  datatype Input =
    | Cycled(shares: map<Hash, Share>, tip: Share, mainchainDiff: Difficulty, found: seq<FoundBlock>,
             answers: seq<Answer>)
    | Rebooted

  predicate ValidInputs(inputs: seq<Input>) {
    forall i | i in inputs :: i.Cycled? ==> |i.answers| == |i.found|
  }

  /** The event is the input, with one order of the miners of the window the input shows. */
  ghost predicate Describes(e: Event, i: Input, keccak: Checksum) {
    match i
    case Rebooted => e.Restart?
    case Cycled(shares, tip, mainchainDiff, found, answers) =>
      && e.Sync? && e.found == found && e.answers == answers
      && (found != [] ==>
            exists ms :: TopOrder(ms, AccountsOf(WindowOf(shares, tip, mainchainDiff)))
                         && e.miners == Strings(ms, keccak))
  }

  ghost predicate DescribeAll(es: seq<Event>, inputs: seq<Input>, keccak: Checksum) {
    |es| == |inputs| && forall k :: 0 <= k < |es| ==> Describes(es[k], inputs[k], keccak)
  }

  /** A cycle of a daemon in a state that a run can reach is the next event of that run. */
  method OneCycle(d: Daemon, i: Input, ghost es: seq<Event>) returns (ghost e: Event)
    requires i.Cycled? && |i.answers| == |i.found|
    requires InSync(Start()) && ValidEvents(es) && d.State() == Run(Start(), es)
    modifies d`foundBlocks, d`processedPayouts, d`minerPayouts, d`pplnsSnapshots, d.redis
    ensures Describes(e, i, d.keccak)
    ensures ValidEvents(es + [e]) && d.State() == Run(Start(), es + [e])
  {
    hide Run, TopOrder, AccountsOf, WindowOf, Cycle, WellKeyed, ToBase58;
    ghost var ms := d.SyncCycle(i.shares, i.tip, i.mainchainDiff, i.found, i.answers);
    if i.found == [] {
      e := Sync([], [], []);
      IdleCycle(Run(Start(), es));
    } else {
      e := Sync(i.found, Strings(ms, d.keccak), i.answers);
      StringsValid(ms, AccountsOf(WindowOf(i.shares, i.tip, i.mainchainDiff)), d.keccak);
    }
    ValidAppend(es, e);
    RunAppend(Start(), es, e);
  }

  lemma IdleCycle(l: Ledger)
    requires WellKeyed(l.store.payouts)
    ensures Cycle(l, [], [], []) == l
  {
  }

  lemma ValidAppend(es: seq<Event>, e: Event)
    requires ValidEvents(es) && ValidEvent(e)
    ensures ValidEvents(es + [e])
  {
  }

  /**
   * From an empty store, through any cycles and restarts: the daemon that is running at the end holds, in memory
   * and store, exactly what the run of the ledger holds. Every theorem about runs is therefore one about it.
   */
  method Serve(inputs: seq<Input>, keccak: Checksum) returns (d: Daemon, ghost es: seq<Event>)
    requires ValidInputs(inputs)
    ensures fresh(d) && fresh(d.redis) && d.keccak == keccak
    ensures DescribeAll(es, inputs, keccak)
    ensures InSync(Start()) && ValidEvents(es) && d.State() == Run(Start(), es)
    ensures forall a, h :: |RecordsAt(Stored(d.State().store).payouts, a, h)| <= 1
  {
    hide Run, Describes, ValidEvent;
    StartInSync();
    var redis := new Redis();
    d := new Daemon(redis, keccak);
    es := [];
    NoEvents();
    for k := 0 to |inputs|
      invariant fresh(d) && fresh(redis) && d.redis == redis && d.keccak == keccak
      invariant DescribeAll(es, inputs[..k], keccak)
      invariant ValidEvents(es) && d.State() == Run(Start(), es)
    {
      assert inputs[..k + 1] == inputs[..k] + [inputs[k]];
      ghost var e;
      if inputs[k].Cycled? {
        assert inputs[k] in inputs;
        e := OneCycle(d, inputs[k], es);
      } else {
        e := Restart;
        d := new Daemon(redis, keccak);
        RestartsNext(es, inputs[k], keccak);
      }
      es := es + [e];
    }
    assert inputs[..|inputs|] == inputs;
    hide RecordsAt, Stored;
    forall a, h
      ensures |RecordsAt(Stored(d.State().store).payouts, a, h)| <= 1
    {
      OneRecordPerHeight(es, a, h);
    }
  }

  lemma NoEvents()
    ensures InSync(Start()) && ValidEvents([]) && Run(Start(), []) == Start()
  {
    StartInSync();
  }

  lemma RestartsNext(es: seq<Event>, i: Input, keccak: Checksum)
    requires InSync(Start()) && ValidEvents(es) && i.Rebooted?
    ensures Describes(Restart, i, keccak)
    ensures ValidEvents(es + [Restart])
    ensures Run(Start(), es + [Restart]) == Ledger(NoMemory(), Run(Start(), es).store)
  {
    hide Run;
    ValidAppend(es, Restart);
    RunAppend(Start(), es, Restart);
  }
}
