/** When parsing a cache entry panics: a length that is out of range as an `int`, or an empty block. */
module Panics {
  import opened GoInt
  import opened Options
  import opened Wire
  import opened Shares
  import opened Layout
  import opened Parsing
  import opened RoundTrip

  /** A reader that did not panic, and left an offset inside the bytes if it read anything. */
  predicate Stays<T>(data: Bytes, r: Outcome<(T, int)>) {
    !r.Panicked? && (r.Ok? ==> 0 <= r.value.1 <= |data|)
  }

  predicate Inside(data: Bytes, r: Outcome<int>) {
    !r.Panicked? && (r.Ok? ==> 0 <= r.value <= |data|)
  }

  lemma VarintStays(data: Bytes, o: nat)
    requires o <= |data|
    ensures Stays(data, VarintAt(data, o))
    ensures VarintAt(data, o).Ok? ==> 0 <= o < VarintAt(data, o).value.1
  {
    if VarintAt(data, o).Ok? {
      VarintConsumes(data, o);
    }
  }

  lemma SkipStays(data: Bytes, o: nat, n: nat)
    requires |data| < TWO32 && o <= |data| && n < TWO32
    ensures Inside(data, SkipBytes(data, o, n))
  {
    SizeFits(o + n);
  }

  lemma HashStays(data: Bytes, o: nat)
    requires |data| < TWO32 && o <= |data|
    ensures Stays(data, ReadHash(data, o))
  {
    SizeFits(o + 32);
  }

  lemma Uint32Stays(data: Bytes, o: nat)
    requires |data| < TWO32 && o <= |data|
    ensures Stays(data, ReadUint32LE(data, o))
  {
    SizeFits(o + 4);
  }

  lemma ByteStays(data: Bytes, o: nat)
    requires o <= |data|
    ensures Stays(data, ReadByte(data, o))
  {
  }

  /** All of that at once, at every offset inside bytes that an entry can announce. */
  predicate ReadersStay(data: Bytes) {
    && |data| < TWO32
    && (forall o: nat | o <= |data| :: Stays(data, VarintAt(data, o)))
    && (forall o: nat | o <= |data| :: Stays(data, ReadByte(data, o)))
    && (forall o: nat | o <= |data| :: Stays(data, ReadHash(data, o)))
    && (forall o: nat | o <= |data| :: Stays(data, ReadUint32LE(data, o)))
    && (forall o: nat, n: nat | o <= |data| && n < TWO32 :: Inside(data, SkipBytes(data, o, n)))
  }

  lemma AllReadersStay(data: Bytes)
    requires |data| < TWO32
    ensures ReadersStay(data)
  {
    hide VarintAt, ReadByte, ReadHash, ReadUint32LE, SkipBytes;
    forall o: nat | o <= |data|
      ensures Stays(data, VarintAt(data, o)) && Stays(data, ReadByte(data, o)) && Stays(data, ReadHash(data, o))
      ensures Stays(data, ReadUint32LE(data, o))
    {
      VarintStays(data, o);
      ByteStays(data, o);
      HashStays(data, o);
      Uint32Stays(data, o);
    }
    forall o: nat, n: nat | o <= |data| && n < TWO32
      ensures Inside(data, SkipBytes(data, o, n))
    {
      SkipStays(data, o, n);
    }
  }

  // ---------------------------------------------------------------------------------------------
  // The three lengths that can go wrong
  // ---------------------------------------------------------------------------------------------

  // Each is the number with the offset after it, if the bytes before it can be read.

  /** The length of the coinbase transaction's extra field. */
  function ExtraLength(block: Bytes): Outcome<(uint64, int)> {
    var (_, o) :- Header(block);
    var o :- SkipOutputs(block, o);
    VarintAt(block, o)
  }

  /** The length of a protocol transaction's extra field, from the end of its head on. */
  function BodyExtraLength(data: Bytes, offset: int): Outcome<(uint64, int)> {
    var (voutSize, o) :- VarintAt(data, offset);
    var o :- SkipProtocolOutputs(data, o, voutSize);
    VarintAt(data, o)
  }

  /** The same for what the lookahead takes for a protocol transaction at `offset`. */
  function ProtocolExtraLength(data: Bytes, offset: int): Outcome<(uint64, int)> {
    var o :- ProtocolHeadEnd(data, offset);
    BodyExtraLength(data, o)
  }

  /** The same in a block, where the lookahead is consulted at all. */
  function OptionalLength(block: Bytes): Outcome<(uint64, int)> {
    var (fields, o) :- Header(block);
    var o :- SkipOutputs(block, o);
    var o :- SkipExtra(block, o);
    if fields.majorVersion < 10 || o + 2 >= |block| then Failed else ProtocolExtraLength(block, o)
  }

  /** How many merge-mining entries the proofs announce, with the offset of the first. */
  function ProofsCount(data: Bytes, offset: int): Outcome<(uint64, int)> {
    var (merkleCount, o) :- ReadByte(data, offset);
    var (_, o) :- ReadHashes(data, o, merkleCount);
    VarintAt(data, o)
  }

  function MergeMiningCount(data: Bytes, share: Share): Outcome<(uint64, int)> {
    if |data| < 128 then Failed else
    var (share, o) :- ReadIdentity(data, share);
    var (_, o) :- ReadWork(data, o, share);
    ProofsCount(data, o)
  }

  /** The length of the data of the merge-mining entry at `offset`. */
  function EntryLength(data: Bytes, offset: int): Outcome<(uint64, int)> {
    var (_, o) :- ReadHash(data, offset);
    VarintAt(data, o)
  }

  /** The same for entry `j`. */
  function BlobLength(data: Bytes, offset: int, j: nat): Outcome<(uint64, int)> {
    var (_, o) :- ReadMergeMining(data, offset, j);
    EntryLength(data, o)
  }

  /** Skipping the length wraps to a negative offset: it is negative as an `int`, or makes the sum wrap. */
  predicate GoesNegative(length: Outcome<(uint64, int)>) {
    length.Ok? && TWO63 <= length.value.1 + length.value.0 < TWO64
  }

  /** The end of the data is beyond the range of `int`. */
  predicate Overruns(length: Outcome<(uint64, int)>) {
    length.Ok? && length.value.1 + length.value.0 >= TWO63
  }

  predicate MainchainBreaks(block: Bytes) {
    GoesNegative(ExtraLength(block)) || GoesNegative(OptionalLength(block))
  }

  predicate EntriesOverrun(data: Bytes, count: Outcome<(uint64, int)>) {
    count.Ok? && exists j: nat :: j < count.value.0 && Overruns(BlobLength(data, count.value.1, j))
  }

  predicate SidechainBreaks(data: Bytes, share: Share) {
    EntriesOverrun(data, MergeMiningCount(data, share))
  }

  // ---------------------------------------------------------------------------------------------
  // Skipping and copying a length
  // ---------------------------------------------------------------------------------------------

  lemma WrappedSum(o: nat, n: uint64)
    requires o < TWO32
    ensures ToInt(o + ToInt(n))
         == if o + n < TWO63 then o + n else o + n - TWO64
  {
    if n < TWO63 {
      QuotientUnique(n, TWO64, 0, n);
    } else {
      QuotientUnique(n, TWO64, 0, n);
      assert ToInt(n) == n - TWO64;
    }
    SumModulo(o, n);
  }

  lemma SumModulo(o: nat, n: uint64)
    requires o < TWO32
    ensures (o + n) % TWO64 == (o + n - TWO64) % TWO64 == if o + n < TWO64 then o + n else o + n - TWO64
  {
    ModNear(o + n, TWO64);
    ModNear(o + n - TWO64, TWO64);
  }

  lemma SkipLength(data: Bytes, o: nat, n: uint64)
    requires |data| < TWO32 && o <= |data|
    ensures var r := SkipBytes(data, o, ToInt(n));
            && !r.Panicked?
            && ((r.Ok? && r.value < 0) <==> TWO63 <= o + n < TWO64)
            && (r.Ok? ==> r.value <= |data|)
  {
    WrappedSum(o, n);
  }

  lemma BlobPanics(data: Bytes, o: nat, n: uint64)
    requires |data| < TWO32 && o <= |data|
    ensures ReadBlob(data, o, n).Panicked? <==> o + n >= TWO63
    ensures ReadBlob(data, o, n).Ok? ==> 0 <= ReadBlob(data, o, n).value.1 <= |data|
  {
    WrappedSum(o, n);
    QuotientUnique(n, TWO64, 0, n);
  }

  // ---------------------------------------------------------------------------------------------
  // Mainchain part
  // ---------------------------------------------------------------------------------------------

  lemma HeaderStays(data: Bytes)
    requires ReadersStay(data)
    ensures Stays(data, Header(data))
  {
    hide VarintAt, ReadByte, ReadHash, ReadUint32LE, SkipBytes;
  }

  lemma OutputStays(data: Bytes, o: nat)
    requires ReadersStay(data) && o <= |data|
    ensures Inside(data, SkipOutput(data, o))
  {
    hide VarintAt, ReadByte, ReadHash, ReadUint32LE, SkipBytes;
  }

  lemma {:induction false} FullStays(data: Bytes, o: nat, count: nat)
    requires ReadersStay(data) && o <= |data|
    ensures Inside(data, SkipFull(data, o, count))
    decreases count
  {
    hide SkipOutput, ReadersStay;
    if count > 0 {
      OutputStays(data, o);
      if SkipOutput(data, o).Ok? {
        FullStays(data, SkipOutput(data, o).value, count - 1);
      }
    }
  }

  lemma OutputsStay(data: Bytes, o: nat)
    requires ReadersStay(data) && o <= |data|
    ensures Inside(data, SkipOutputs(data, o))
  {
    hide VarintAt, ReadByte, ReadHash, ReadUint32LE, SkipBytes, SkipFull;
    if VarintAt(data, o).Ok? {
      FullStays(data, VarintAt(data, o).value.1, VarintAt(data, o).value.0);
    }
  }

  lemma ExtraPanics(data: Bytes, o: nat)
    requires ReadersStay(data) && o <= |data|
    ensures SkipExtra(data, o).Panicked? <==> GoesNegative(VarintAt(data, o))
    ensures SkipExtra(data, o).Ok? ==> 0 <= SkipExtra(data, o).value <= |data|
  {
    hide ReadByte, ReadHash, ReadUint32LE, SkipBytes, ToInt, Continuations;
    if VarintAt(data, o).Ok? {
      SkipLength(data, VarintAt(data, o).value.1, VarintAt(data, o).value.0);
    }
  }

  lemma {:induction false} ProtocolOutputsStay(data: Bytes, o: nat, count: nat)
    requires ReadersStay(data) && o <= |data|
    ensures Inside(data, SkipProtocolOutputs(data, o, count))
    decreases count
  {
    hide VarintAt, ReadByte, ReadHash, ReadUint32LE, SkipBytes;
    if count > 0 && VarintAt(data, o).Ok? {
      var next := SkipBytes(data, VarintAt(data, o).value.1, 33);
      if next.Ok? {
        ProtocolOutputsStay(data, next.value, count - 1);
      }
    }
  }

  lemma ProtocolHeadStays(data: Bytes, o: nat)
    requires ReadersStay(data) && o <= |data|
    ensures Inside(data, ProtocolHeadEnd(data, o))
  {
    hide VarintAt, ReadByte, ReadHash, ReadUint32LE, SkipBytes;
  }

  lemma ProtocolPanics(data: Bytes, o: nat)
    requires ReadersStay(data) && o <= |data|
    ensures ProtocolTxEnd(data, o).Panicked? <==> GoesNegative(ProtocolExtraLength(data, o))
    ensures ProtocolTxEnd(data, o).Ok? ==> 0 <= ProtocolTxEnd(data, o).value <= |data|
  {
    hide ReadersStay, ProtocolHeadEnd, ProtocolBodyEnd, VarintAt, SkipProtocolOutputs;
    ProtocolHeadStays(data, o);
    if ProtocolHeadEnd(data, o).Ok? {
      ProtocolBodyPanics(data, ProtocolHeadEnd(data, o).value);
    }
  }

  lemma ProtocolBodyPanics(data: Bytes, o: nat)
    requires ReadersStay(data) && o <= |data|
    ensures ProtocolBodyEnd(data, o).Panicked? <==> GoesNegative(BodyExtraLength(data, o))
    ensures ProtocolBodyEnd(data, o).Ok? ==> 0 <= ProtocolBodyEnd(data, o).value <= |data|
  {
    hide ReadByte, ReadHash, ReadUint32LE, SkipBytes, SkipProtocolOutputs, ToInt, Continuations;
    if VarintAt(data, o).Ok? {
      var (count, o) := VarintAt(data, o).value;
      ProtocolOutputsStay(data, o, count);
      var next := SkipProtocolOutputs(data, o, count);
      if next.Ok? && VarintAt(data, next.value).Ok? {
        SkipLength(data, VarintAt(data, next.value).value.1, VarintAt(data, next.value).value.0);
      }
    }
  }

  lemma LookaheadPanics(data: Bytes, o: nat)
    requires ReadersStay(data) && o <= |data|
    ensures Lookahead(data, o).Panicked? <==> o + 2 < |data| && GoesNegative(ProtocolExtraLength(data, o))
    ensures Lookahead(data, o).Ok? ==> 0 <= Lookahead(data, o).value <= |data|
  {
    hide ProtocolTxEnd, ProtocolExtraLength, ReadByte, VarintAt, ReadHash, ReadUint32LE, SkipBytes, ToInt;
    SizeFits(o + 2);
    ProtocolPanics(data, o);
  }

  lemma TransactionsNeverPanic(data: Bytes, o: nat)
    requires ReadersStay(data) && o <= |data|
    ensures !SkipTransactions(data, o).Panicked?
    ensures SkipTransactions(data, o).Ok? ==> SkipTransactions(data, o).value <= |data|
  {
    hide VarintAt, ReadByte, ReadHash, ReadUint32LE, ToInt;
  }

  lemma MainchainPanics(block: Bytes)
    requires ReadersStay(block)
    ensures ParseMainchain(block).Panicked? <==> MainchainBreaks(block)
    ensures ParseMainchain(block).Ok? ==> ParseMainchain(block).value.1 <= |block|
  {
    hide Header, SkipOutputs, SkipExtra, Lookahead, SkipTransactions, ReadersStay, ProtocolExtraLength, VarintAt, ToInt;
    HeaderStays(block);
    if Header(block).Ok? {
      var o := Header(block).value.1;
      OutputsStay(block, o);
      if SkipOutputs(block, o).Ok? {
        AfterOutputs(block, SkipOutputs(block, o).value);
      }
    }
  }

  /** What follows the outputs, at every place they can end. */
  lemma AfterOutputs(data: Bytes, o: nat)
    requires ReadersStay(data) && o <= |data|
    ensures SkipExtra(data, o).Panicked? <==> GoesNegative(VarintAt(data, o))
    ensures SkipExtra(data, o).Ok? ==>
      var o := SkipExtra(data, o).value;
      && 0 <= o <= |data| && ToInt(o + 2) == o + 2
      && (Lookahead(data, o).Panicked? <==> o + 2 < |data| && GoesNegative(ProtocolExtraLength(data, o)))
      && Settles(data, Ok(o)) && Settles(data, Lookahead(data, o))
  {
    hide SkipExtra, Lookahead, ReadersStay, ProtocolExtraLength, VarintAt, ToInt, SkipTransactions;
    ExtraPanics(data, o);
    if SkipExtra(data, o).Ok? {
      var o := SkipExtra(data, o).value;
      SizesFit(data, o);
      LookaheadPanics(data, o);
      TransactionsNeverPanic(data, o);
      if Lookahead(data, o).Ok? {
        TransactionsNeverPanic(data, Lookahead(data, o).value);
      }
    }
  }

  /** Skipping the transactions from there does not panic and stays before the end. */
  predicate Settles(data: Bytes, o: Outcome<int>) {
    o.Ok? ==>
      && !SkipTransactions(data, o.value).Panicked?
      && (SkipTransactions(data, o.value).Ok? ==> SkipTransactions(data, o.value).value <= |data|)
  }

  lemma SizesFit(data: Bytes, o: nat)
    requires ReadersStay(data) && o <= |data|
    ensures ToInt(o + 2) == o + 2
  {
    SizeFits(o + 2);
  }

  // ---------------------------------------------------------------------------------------------
  // Sidechain part
  // ---------------------------------------------------------------------------------------------

  lemma {:induction false} HashesStay(data: Bytes, o: nat, count: nat)
    requires ReadersStay(data) && o <= |data|
    ensures Stays(data, ReadHashes(data, o, count))
    decreases count
  {
    hide VarintAt, ReadByte, ReadHash, ReadUint32LE, SkipBytes;
    if count > 0 {
      HashesStay(data, o, count - 1);
    }
  }

  lemma MergeMiningEntryPanics(data: Bytes, o: nat)
    requires ReadersStay(data) && o <= |data|
    ensures MergeMiningEntry(data, o).Panicked? <==> Overruns(EntryLength(data, o))
    ensures MergeMiningEntry(data, o).Ok? ==> 0 <= MergeMiningEntry(data, o).value.1 <= |data|
  {
    hide VarintAt, ReadByte, ReadHash, ReadUint32LE, SkipBytes, ReadBlob;
    if EntryLength(data, o).Ok? {
      BlobPanics(data, EntryLength(data, o).value.1, EntryLength(data, o).value.0);
    }
  }

  lemma {:induction false} MergeMiningPanics(data: Bytes, o: nat, count: nat)
    requires ReadersStay(data) && o <= |data|
    ensures ReadMergeMining(data, o, count).Panicked?
            <==> exists j: nat :: j < count && Overruns(BlobLength(data, o, j))
    ensures ReadMergeMining(data, o, count).Ok? ==> 0 <= ReadMergeMining(data, o, count).value.1 <= |data|
    decreases count
  {
    hide MergeMiningEntry, ReadersStay, EntryLength;
    if count > 0 {
      MergeMiningPanics(data, o, count - 1);
      var before := ReadMergeMining(data, o, count - 1);
      LastLength(data, o, count - 1);
      if before.Ok? {
        MergeMiningEntryPanics(data, before.value.1);
      }
    }
  }

  lemma LastLength(data: Bytes, o: nat, j: nat)
    ensures BlobLength(data, o, j) == match ReadMergeMining(data, o, j)
                                      case Ok((_, stop)) => EntryLength(data, stop)
                                      case Failed => Failed
                                      case Panicked => Panicked
  {
  }

  lemma ExtraBufStays(data: Bytes, o: nat)
    requires |data| < TWO32 && o <= |data|
    ensures !ReadExtraBuf(data, o).Panicked?
  {
    SizeFits(o + 16);
    hide ToInt, LittleEndian32, At;
  }

  lemma IdentityStays(data: Bytes, share: Share)
    requires ReadersStay(data)
    ensures Stays(data, ReadIdentity(data, share))
  {
    hide VarintAt, ReadByte, ReadHash, ReadUint32LE, SkipBytes, ReadHashes;
    forall o: nat, count: nat | o <= |data|
      ensures Stays(data, ReadHashes(data, o, count))
    {
      HashesStay(data, o, count);
    }
  }

  lemma WorkStays(data: Bytes, o: nat, share: Share)
    requires ReadersStay(data) && o <= |data|
    ensures Stays(data, ReadWork(data, o, share))
  {
    hide VarintAt, ReadByte, ReadHash, ReadUint32LE, SkipBytes;
  }

  lemma ProofsPanic(data: Bytes, o: nat, share: Share)
    requires ReadersStay(data) && o <= |data|
    ensures ReadProofs(data, o, share).Panicked? <==> EntriesOverrun(data, ProofsCount(data, o))
  {
    hide VarintAt, ReadByte, ReadHash, ReadUint32LE, SkipBytes, ReadHashes, ReadMergeMining, ReadExtraBuf,
         BlobLength;
    if ReadByte(data, o).Ok? {
      var (merkleCount, o) := ReadByte(data, o).value;
      HashesStay(data, o, merkleCount);
    }
    if ProofsCount(data, o).Ok? {
      var (count, o) := ProofsCount(data, o).value;
      MergeMiningPanics(data, o, count);
      if ReadMergeMining(data, o, count).Ok? {
        ExtraBufStays(data, ReadMergeMining(data, o, count).value.1);
      }
    }
  }

  lemma SidechainPanics(data: Bytes, share: Share)
    requires ReadersStay(data)
    ensures ParseSidechain(data, share).Panicked? <==> SidechainBreaks(data, share)
  {
    hide ReadIdentity, ReadWork, ReadProofs, ReadersStay, ParseSidechain, ProofsCount, BlobLength;
    SectionsChain(data, share);
    CountChain(data, share);
    IdentityStays(data, share);
    if ReadIdentity(data, share).Ok? {
      var (identified, o) := ReadIdentity(data, share).value;
      WorkStays(data, o, identified);
      if ReadWork(data, o, identified).Ok? {
        var (worked, o) := ReadWork(data, o, identified).value;
        ProofsPanic(data, o, worked);
      }
    }
  }

  lemma CountChain(data: Bytes, share: Share)
    ensures MergeMiningCount(data, share) ==
      if |data| < 128 then Failed
      else match ReadIdentity(data, share)
        case Failed => Failed
        case Panicked => Panicked
        case Ok((identified, o)) =>
          match ReadWork(data, o, identified)
          case Failed => Failed
          case Panicked => Panicked
          case Ok((_, o)) => ProofsCount(data, o)
  {
  }

  // ---------------------------------------------------------------------------------------------
  // Cache entry
  // ---------------------------------------------------------------------------------------------

  /** The lengths in a block at which its parser panics. */
  predicate BlockBreaks(id: Hash, block: Bytes) {
    || MainchainBreaks(block)
    || match ParseMainchain(block)
       case Ok((m, o)) => 0 <= o < |block| && SidechainBreaks(block[o..], Fresh(id, m))
       case _ => false
  }

  lemma BlockPanics(id: Hash, block: Bytes)
    requires |block| < TWO32
    ensures ParseBlock(id, block).Panicked?
            <==> block == [] || (|block| >= 2 && 1 <= block[0] <= 20 && BlockBreaks(id, block))
  {
    hide ParseBlock, ParseMainchain, ParseSidechain, ReadersStay, MainchainBreaks, SidechainBreaks;
    BlockChain(id, block);
    AllReadersStay(block);
    MainchainPanics(block);
    if ParseMainchain(block).Ok? {
      var (m, o) := ParseMainchain(block).value;
      if 0 <= o < |block| {
        AllReadersStay(block[o..]);
        SidechainPanics(block[o..], Fresh(id, m));
      }
    }
  }

  /** The block an entry announces, when all of it is there. */
  function Announced(data: Bytes): Option<Bytes> {
    if |data| < 36 then None
    else
      var size := FromLittleEndian32(data[32], data[33], data[34], data[35]);
      if |data| < 36 + size then None else Some(data[36..36 + size])
  }

  lemma AnnouncedFits(data: Bytes)
    ensures Announced(data).Some? ==> |Announced(data).value| < TWO32
  {
  }

  /**
   * An entry panics exactly when its block is empty, or has a known version and announces an extra field whose
   * skipping goes negative or merge-mining data that ends beyond the range of `int`.
   */
  lemma EntryPanics(data: Bytes)
    requires |data| < TWO63
    ensures ParseEntry(data).Panicked?
            <==> match Announced(data)
                 case None => false
                 case Some(block) =>
                   block == [] || (|block| >= 2 && 1 <= block[0] <= 20 && BlockBreaks(data[..32], block))
  {
    hide ParseBlock, ParseEntry, FromLittleEndian32, BlockBreaks;
    EntryChain(data);
    AnnouncedFits(data);
    if Announced(data).Some? {
      BlockPanics(data[..32], Announced(data).value);
    }
  }

  // ---------------------------------------------------------------------------------------------
  // A valid block whose entry panics
  // ---------------------------------------------------------------------------------------------

  function Repeated(b: uint8, n: nat): (bytes: Bytes)
    ensures |bytes| == n && forall i :: 0 <= i < n ==> bytes[i] == b
  {
    seq(n, _ => b)
  }

  /** A transaction hash that continues `04` to a protocol transaction whose extra field has length 2^63. */
  function PanickingHash(): Hash {
    [60, 1, 0xff, 0, 0] + Repeated(0x80, 9) + [1] + Zeros(17)
  }

  function PanickingBlock(): Block {
    ConfusingBlock().(transactions := [PanickingHash(), ZeroHash(), ZeroHash(), ZeroHash()])
  }

  /** What 2^(7 k) is encoded as. */
  lemma {:induction false} PowerEncoding(k: nat)
    ensures EncodeVarint(Pow2(7 * k)) == Repeated(0x80, k) + [1]
  {
    if k == 0 {
      assert Pow2(7 * k) == 1;
    } else {
      PowerEncoding(k - 1);
      var p := Pow2(7 * (k - 1));
      Pow2Sum(7, 7 * (k - 1));
      assert Pow2(7) == 0x80;
      QuotientUnique(0x80 * p, 0x80, p, 0);
      assert EncodeVarint(0x80 * p) == [0x80] + EncodeVarint(p);
      assert [0x80] + Repeated(0x80, k - 1) == Repeated(0x80, k);
    }
  }

  lemma HugeVarint(data: Bytes, o: nat)
    requires o + 10 <= |data| && data[o + 9] == 1 && forall i :: o <= i < o + 9 ==> data[i] == 0x80
    ensures VarintAt(data, o) == Ok((TWO63, o + 10))
  {
    PowerEncoding(9);
    Pow2Of63();
    assert data[o..o + 10] == Repeated(0x80, 9) + [1];
    VarintReadsBack(data, o, TWO63);
  }

  lemma PanicsAsProtocolTx(data: Bytes, o: nat)
    requires o + 16 <= |data| < TWO32
    requires data[o] == 4 && data[o + 1] == 60 && data[o + 2] == 1 && data[o + 3] == 0xff
    requires data[o + 4] == 0 && data[o + 5] == 0
    requires data[o + 15] == 1 && forall i :: o + 6 <= i < o + 15 ==> data[i] == 0x80
    ensures ProtocolTxEnd(data, o).Panicked?
  {
    AllReadersStay(data);
    SmallVarint(data, o);
    SmallVarint(data, o + 1);
    SmallVarint(data, o + 2);
    SmallVarint(data, o + 4);
    SmallVarint(data, o + 5);
    HugeVarint(data, o + 6);
    hide VarintAt, ProtocolTxEnd, ReadersStay;
    ProtocolPanics(data, o);
  }

  lemma PanickingBytes(data: Bytes, o: nat)
    requires o + 33 <= |data| && forall i :: 0 <= i < 32 ==> data[o + 1 + i] == PanickingHash()[i]
    ensures data[o + 1] == 60 && data[o + 2] == 1 && data[o + 3] == 0xff && data[o + 4] == 0 && data[o + 5] == 0
    ensures data[o + 15] == 1 && forall i :: o + 6 <= i < o + 15 ==> data[i] == 0x80
  {
    forall i | o + 6 <= i < o + 15
      ensures data[i] == 0x80
    {
      assert data[o + 1 + (i - o - 1)] == PanickingHash()[i - o - 1];
    }
    var h := PanickingHash();
    assert h[0] == 60 && h[1] == 1 && h[2] == 0xff && h[3] == 0 && h[4] == 0 && h[14] == 1;
    assert data[o + 1 + 0] == h[0] && data[o + 1 + 1] == h[1] && data[o + 1 + 2] == h[2];
    assert data[o + 1 + 3] == h[3] && data[o + 1 + 4] == h[4] && data[o + 1 + 14] == h[14];
  }

  /** Whatever the rest of such a block, its lookahead panics. */
  lemma TransactionsPanic(b: Block)
    requires ValidBlock(b) && Guessing(b) && |b.transactions| == 4 && b.transactions[0] == PanickingHash()
    ensures BoundaryFound(SerializeBlock(b), b).Panicked?
  {
    hide At, SerializeMainchain, SerializeSidechain, ProtocolTxEnd, SerializeHeader, SerializeOutputs, SerializeExtra,
         SerializeHashes, PanickingHash;
    var data, main, side, o := SerializeBlock(b), SerializeMainchain(b), SerializeSidechain(b.side), OptionalAt(b);
    WholeIsAt(data, 0, main + side);
    AtSplit(data, 0, main, side);
    SectionsPresent(data, b);
    FirstHashAt(data, o, b.transactions);
    PanickingBytes(data, o);
    hide EncodeVarint, SerializeTransactions, OptionalAt;
    PanicsAsProtocolTx(data, o);
  }

  /** The entry of such a block panics, with any bytes behind it. */
  lemma ValidEntryPanics(id: Hash, b: Block, rest: Bytes)
    requires ValidBlock(b) && Guessing(b) && |b.transactions| == 4 && b.transactions[0] == PanickingHash()
    requires |SerializeEntry(id, b, rest)| < TWO63
    ensures ParseEntry(SerializeEntry(id, b, rest)).Panicked?
  {
    TransactionsPanic(b);
    BlockOutcome(id, b);
    hide SerializeBlock, ParseBlock, ParseEntry, BoundaryFound, PanickingHash;
    EntryFrames(id, SerializeBlock(b), rest);
  }

  /** And there is one. */
  lemma ParserCanPanic(id: Hash, rest: Bytes)
    requires |rest| < TWO32
    ensures ValidBlock(PanickingBlock()) && ParseEntry(SerializeEntry(id, PanickingBlock(), rest)).Panicked?
  {
    ConfusingSizes();
    SameSize();
    hide SerializeMainchain, SerializeSidechain, ParseEntry, PanickingHash, ConfusingHash;
    ValidEntryPanics(id, PanickingBlock(), rest);
  }

  lemma SameSize()
    ensures |SerializeMainchain(PanickingBlock())| == |SerializeMainchain(ConfusingBlock())|
  {
    hide PanickingHash, ConfusingHash;
    assert |SerializeTransactions(PanickingBlock())| == |SerializeTransactions(ConfusingBlock())|;
  }
}
