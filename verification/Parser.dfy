/** The parser that fills a share in place while it advances through the bytes. */
module Parser {
  import opened GoInt
  import opened Wire
  import opened Difficulties
  import opened Shares
  import opened Parsing

  /** The share record that the parser allocates and fills field by field. */
  class ShareRecord {
    var sidechainId: Hash
    var majorVersion: uint8
    var minorVersion: uint8
    var timestamp: uint64
    var prevId: Hash
    var nonce: uint32
    var mainchainHeight: uint64
    var minerWallet: Address
    var txkeySecSeed: Hash
    var parent: Hash
    var uncles: seq<Hash>
    var sidechainHeight: uint64
    var difficulty: Difficulty
    var cumulativeDifficulty: Difficulty
    var merkleProof: seq<Hash>
    var mergeMiningExtra: map<Hash, Bytes>
    var sidechainExtraBuf: seq<uint32>

    constructor ()
      ensures Snapshot() == Blank()
    {
      sidechainId, majorVersion, minorVersion, timestamp := ZeroHash(), 0, 0, 0;
      prevId, nonce, mainchainHeight := ZeroHash(), 0, 0;
      minerWallet, txkeySecSeed, parent := Address(ZeroHash(), ZeroHash()), ZeroHash(), ZeroHash();
      uncles, sidechainHeight := [], 0;
      difficulty, cumulativeDifficulty := Difficulty(0, 0), Difficulty(0, 0);
      merkleProof, mergeMiningExtra, sidechainExtraBuf := [], map[], [0, 0, 0, 0];
    }

    function MainchainFields(): Mainchain
      reads this
    {
      Mainchain(majorVersion, minorVersion, timestamp, prevId, nonce, mainchainHeight)
    }

    /** The share as a value. */
    function Snapshot(): Share
      reads this
    {
      Share(sidechainId, majorVersion, minorVersion, timestamp, prevId, nonce, mainchainHeight, minerWallet,
            txkeySecSeed, parent, uncles, sidechainHeight, difficulty, cumulativeDifficulty, merkleProof,
            mergeMiningExtra, sidechainExtraBuf)
    }
  }

  function Blank(): Share {
    Fresh(ZeroHash(), Mainchain(0, 0, 0, ZeroHash(), 0, 0))
  }

  /** What a step that only moves the offset reports of a step that also yields fields. */
  function OffsetOnly<T>(o: Outcome<(T, int)>): Outcome<int> {
    match o
    case Ok((_, offset)) => Ok(offset)
    case Failed => Failed
    case Panicked => Panicked
  }

  method ReadCoinbaseInput(data: Bytes, offset: int) returns (r: Outcome<(uint64, int)>)
    ensures r == CoinbaseInput(data, offset)
  {
    hide VarintAt, ReadByte;
    var txVersion :- ReadByte(data, offset);
    if txVersion.0 != 4 {
      return Failed;
    }
    var unlockHeight :- ReadVarint(data, txVersion.1);
    var inputCount :- ReadByte(data, unlockHeight.1);
    if inputCount.0 != 1 {
      return Failed;
    }
    var txinType :- ReadByte(data, inputCount.1);
    if txinType.0 != 0xff {
      return Failed;
    }
    r := ReadVarint(data, txinType.1);
  }

  method ParseHeader(data: Bytes, share: ShareRecord) returns (r: Outcome<int>)
    modifies share`majorVersion, share`minorVersion, share`timestamp, share`prevId, share`nonce, share`mainchainHeight
    ensures r == OffsetOnly(Header(data))
    ensures r.Ok? ==> share.MainchainFields() == Header(data).value.0
  {
    hide VarintAt, ReadHash, ReadUint32LE, CoinbaseInput, At, LittleEndian32;
    if |data| < 40 {
      return Failed;
    }
    share.majorVersion := data[0];
    share.minorVersion := data[1];
    var timestamp :- ReadVarint(data, 2);
    share.timestamp := timestamp.0;
    var prevId :- ReadHash(data, timestamp.1);
    share.prevId := prevId.0;
    var nonce :- ReadUint32LE(data, prevId.1);
    share.nonce := nonce.0;
    var height :- ReadCoinbaseInput(data, nonce.1);
    share.mainchainHeight := height.0;
    return Ok(height.1);
  }

  method SkipOutputBytes(data: Bytes, offset: int) returns (r: Outcome<int>)
    ensures r == SkipOutput(data, offset)
  {
    hide VarintAt, ReadByte, SkipBytes;
    var reward :- ReadVarint(data, offset);
    var at :- SkipBytes(data, reward.1, 1);
    at :- SkipBytes(data, at, 32);
    var assetLen :- ReadByte(data, at);
    at :- SkipBytes(data, assetLen.1, assetLen.0);
    at :- SkipBytes(data, at, 3);
    r := SkipBytes(data, at, 16);
  }

  method SkipAllOutputs(data: Bytes, offset: int) returns (r: Outcome<int>)
    ensures r == SkipOutputs(data, offset)
  {
    hide VarintAt, SkipBytes, SkipOutput;
    var numOutputs :- ReadVarint(data, offset);
    var at := numOutputs.1;
    if numOutputs.0 > 0 {
      var i := 0;
      while i < numOutputs.0
        invariant 0 <= i <= numOutputs.0
        invariant SkipFull(data, at, numOutputs.0 - i) == SkipOutputs(data, offset)
      {
        at :- SkipOutputBytes(data, at);
        i := i + 1;
      }
      return Ok(at);
    }
    var totalReward :- ReadVarint(data, at);
    var blobSize :- ReadVarint(data, totalReward.1);
    r := SkipBytes(data, blobSize.1, 32);
  }

  method SkipTxExtra(data: Bytes, offset: int) returns (r: Outcome<int>)
    ensures r == SkipExtra(data, offset)
  {
    hide VarintAt, SkipBytes, ToInt;
    var size :- ReadVarint(data, offset);
    var at :- SkipBytes(data, size.1, ToInt(size.0));
    var txType :- ReadVarint(data, at);
    var burnt :- ReadVarint(data, txType.1);
    r := SkipBytes(data, burnt.1, 1);
  }

  method SkipProtocolHead(data: Bytes, offset: int) returns (r: Outcome<int>)
    ensures r == ProtocolHeadEnd(data, offset)
  {
    hide VarintAt, ReadByte;
    var version :- ReadVarint(data, offset);
    if version.0 != 4 {
      return Failed;
    }
    var unlockTime :- ReadVarint(data, version.1);
    if unlockTime.0 != 60 {
      return Failed;
    }
    var vinSize :- ReadVarint(data, unlockTime.1);
    if vinSize.0 != 1 {
      return Failed;
    }
    var txinType :- ReadByte(data, vinSize.1);
    if txinType.0 != 0xff {
      return Failed;
    }
    var height :- ReadVarint(data, txinType.1);
    return Ok(height.1);
  }

  method SkipProtocolBody(data: Bytes, offset: int) returns (r: Outcome<int>)
    ensures r == ProtocolBodyEnd(data, offset)
  {
    hide VarintAt, SkipBytes, ToInt;
    var voutSize :- ReadVarint(data, offset);
    var i, at := 0, voutSize.1;
    ghost var stop := SkipProtocolOutputs(data, at, voutSize.0);
    while i < voutSize.0
      invariant 0 <= i <= voutSize.0
      invariant SkipProtocolOutputs(data, at, voutSize.0 - i) == stop
    {
      var amount :- ReadVarint(data, at);
      at :- SkipBytes(data, amount.1, 1 + 32);
      i := i + 1;
    }
    var size :- ReadVarint(data, at);
    at :- SkipBytes(data, size.1, ToInt(size.0));
    var kind :- ReadVarint(data, at);
    r := SkipBytes(data, kind.1, 1);
  }

  /** Skips a protocol transaction if one parses at `offset`; the offset is rolled back if none does. */
  method SkipProtocolTx(data: Bytes, offset: int) returns (r: Outcome<int>)
    ensures r == Lookahead(data, offset)
  {
    hide ProtocolHeadEnd, ProtocolBodyEnd, ToInt;
    var savedOffset := offset;
    if ToInt(offset + 2) >= |data| {
      return Ok(offset);
    }
    r := SkipProtocolHead(data, offset);
    if r.Ok? {
      r := SkipProtocolBody(data, r.value);
    }
    if r.Failed? {
      return Ok(savedOffset);
    }
  }

  /** Fills the mainchain fields and returns the offset where the sidechain part begins. */
  method ParseMainchainData(data: Bytes, share: ShareRecord) returns (r: Outcome<int>)
    modifies share`majorVersion, share`minorVersion, share`timestamp, share`prevId, share`nonce, share`mainchainHeight
    ensures r == OffsetOnly(ParseMainchain(data))
    ensures r.Ok? ==> share.MainchainFields() == ParseMainchain(data).value.0
  {
    hide Header, SkipOutputs, SkipExtra, Lookahead, VarintAt, SkipBytes, ToInt;
    var offset :- ParseHeader(data, share);
    offset :- SkipAllOutputs(data, offset);
    offset :- SkipTxExtra(data, offset);
    if share.majorVersion >= 10 && ToInt(offset + 2) < |data| {
      offset :- SkipProtocolTx(data, offset);
    }
    var numTx :- ReadVarint(data, offset);
    r := SkipBytes(data, numTx.1, ToInt(ToInt(numTx.0) * 32));
  }

  /** What a step that fills the share reports of a step that yields the share as a value. */
  function Status<T>(o: Outcome<T>): Outcome<()> {
    match o
    case Ok(_) => Ok(())
    case Failed => Failed
    case Panicked => Panicked
  }

  /** A filling step ends as the specified parse does and leaves the parsed share behind on success. */
  predicate Fills(r: Outcome<()>, spec: Outcome<Share>, filled: Share) {
    match spec
    case Ok(share) => r.Ok? && filled == share
    case Failed => r.Failed?
    case Panicked => r.Panicked?
  }

  lemma {:induction false} HashesFailEarly(data: Bytes, offset: int, k: nat, count: nat)
    requires k <= count && ReadHashes(data, offset, k).IsFailure()
    ensures ReadHashes(data, offset, count) == ReadHashes(data, offset, k)
    decreases count
  {
    hide ReadHash;
    if k < count {
      HashesFailEarly(data, offset, k, count - 1);
    }
  }

  lemma {:induction false} MergeMiningFailsEarly(data: Bytes, offset: int, k: nat, count: nat)
    requires k <= count && ReadMergeMining(data, offset, k).IsFailure()
    ensures ReadMergeMining(data, offset, count) == ReadMergeMining(data, offset, k)
    decreases count
  {
    hide MergeMiningEntry;
    if k < count {
      MergeMiningFailsEarly(data, offset, k, count - 1);
    }
  }

  method ReadHashList(data: Bytes, offset: int, count: uint64) returns (r: Outcome<(seq<Hash>, int)>)
    ensures r == ReadHashes(data, offset, count)
  {
    hide ReadHash;
    var hashes, at, i := [], offset, 0;
    while i < count
      invariant 0 <= i <= count
      invariant ReadHashes(data, offset, i) == Ok((hashes, at))
    {
      var h := ReadHash(data, at);
      if h.IsFailure() {
        HashesFailEarly(data, offset, i + 1, count);
        return h.PropagateFailure();
      }
      hashes, at := hashes + [h.value.0], h.value.1;
      i := i + 1;
    }
    return Ok((hashes, at));
  }

  method ReadMergeMiningEntry(data: Bytes, offset: int) returns (r: Outcome<((Hash, Bytes), int)>)
    ensures r == MergeMiningEntry(data, offset)
  {
    hide VarintAt, ReadHash, ReadBlob;
    var chainId :- ReadHash(data, offset);
    var size :- ReadVarint(data, chainId.1);
    var blob :- ReadBlob(data, size.1, size.0);
    return Ok(((chainId.0, blob.0), blob.1));
  }

  method ReadMergeMiningMap(data: Bytes, offset: int, count: uint64) returns (r: Outcome<(map<Hash, Bytes>, int)>)
    ensures r == ReadMergeMining(data, offset, count)
  {
    hide MergeMiningEntry;
    var extra: map<Hash, Bytes>, at, i := map[], offset, 0;
    while i < count
      invariant 0 <= i <= count
      invariant ReadMergeMining(data, offset, i) == Ok((extra, at))
    {
      var entry := ReadMergeMiningEntry(data, at);
      if entry.IsFailure() {
        MergeMiningFailsEarly(data, offset, i + 1, count);
        return entry.PropagateFailure();
      }
      extra, at := extra[entry.value.0.0 := entry.value.0.1], entry.value.1;
      i := i + 1;
    }
    return Ok((extra, at));
  }

  method ParseIdentity(data: Bytes, share: ShareRecord) returns (r: Outcome<int>)
    modifies share`minerWallet, share`txkeySecSeed, share`parent, share`uncles
    ensures r == OffsetOnly(ReadIdentity(data, old(share.Snapshot())))
    ensures r.Ok? ==>
      var s := ReadIdentity(data, old(share.Snapshot())).value.0;
      && share.minerWallet == s.minerWallet && share.txkeySecSeed == s.txkeySecSeed
      && share.parent == s.parent && share.uncles == s.uncles
  {
    hide VarintAt, ReadHash, ReadHashes;
    var spend :- ReadHash(data, 0);
    share.minerWallet := share.minerWallet.(spendPublicKey := spend.0);
    var view :- ReadHash(data, spend.1);
    share.minerWallet := share.minerWallet.(viewPublicKey := view.0);
    var seed :- ReadHash(data, view.1);
    share.txkeySecSeed := seed.0;
    var parent :- ReadHash(data, seed.1);
    share.parent := parent.0;
    var uncleCount :- ReadVarint(data, parent.1);
    if uncleCount.0 > 10 {
      return Failed;
    }
    var uncles :- ReadHashList(data, uncleCount.1, uncleCount.0);
    share.uncles := uncles.0;
    return Ok(uncles.1);
  }

  method ParseDifficulty(data: Bytes, offset: int) returns (r: Outcome<(Difficulty, int)>)
    ensures r == ReadDifficulty(data, offset)
  {
    hide VarintAt;
    var lo :- ReadVarint(data, offset);
    var hi :- ReadVarint(data, lo.1);
    return Ok((Difficulty(lo.0, hi.0), hi.1));
  }

  method ParseWork(data: Bytes, offset: int, share: ShareRecord) returns (r: Outcome<int>)
    modifies share`sidechainHeight, share`difficulty, share`cumulativeDifficulty
    ensures r == OffsetOnly(ReadWork(data, offset, old(share.Snapshot())))
    ensures r.Ok? ==>
      var s := ReadWork(data, offset, old(share.Snapshot())).value.0;
      && share.sidechainHeight == s.sidechainHeight
      && share.difficulty == s.difficulty && share.cumulativeDifficulty == s.cumulativeDifficulty
  {
    hide VarintAt, ReadDifficulty;
    var height :- ReadVarint(data, offset);
    share.sidechainHeight := height.0;
    var difficulty :- ParseDifficulty(data, height.1);
    share.difficulty := difficulty.0;
    var cumulative :- ParseDifficulty(data, difficulty.1);
    share.cumulativeDifficulty := cumulative.0;
    return Ok(cumulative.1);
  }

  method ParseProofs(data: Bytes, offset: int, share: ShareRecord) returns (r: Outcome<()>)
    modifies share`merkleProof, share`mergeMiningExtra, share`sidechainExtraBuf
    ensures r == Status(ReadProofs(data, offset, old(share.Snapshot())))
    ensures r.Ok? ==>
      var s := ReadProofs(data, offset, old(share.Snapshot())).value;
      && share.merkleProof == s.merkleProof && share.mergeMiningExtra == s.mergeMiningExtra
      && share.sidechainExtraBuf == s.sidechainExtraBuf
  {
    hide VarintAt, ReadByte, ReadHashes, ReadMergeMining, ReadExtraBuf;
    var merkleCount :- ReadByte(data, offset);
    var proof :- ReadHashList(data, merkleCount.1, merkleCount.0);
    share.merkleProof := proof.0;
    var mmCount :- ReadVarint(data, proof.1);
    var extra :- ReadMergeMiningMap(data, mmCount.1, mmCount.0);
    share.mergeMiningExtra := extra.0;
    var extraBuf :- ReadExtraBuf(data, extra.1);
    share.sidechainExtraBuf := extraBuf;
    return Ok(());
  }

  /** Fills the sidechain fields. */
  method ParseSidechainData(data: Bytes, share: ShareRecord) returns (r: Outcome<()>)
    modifies share
    ensures Fills(r, ParseSidechain(data, old(share.Snapshot())), share.Snapshot())
  {
    hide ReadIdentity, ReadWork, ReadProofs, ParseSidechain;
    ghost var before := share.Snapshot();
    SectionsChain(data, before);
    if |data| < 128 {
      return Failed;
    }
    var offset :- ParseIdentity(data, share);
    ghost var identified := share.Snapshot();
    offset :- ParseWork(data, offset, share);
    ghost var worked := share.Snapshot();
    r := ParseProofs(data, offset, share);
  }

  /** Parses the block of an entry into a share that so far holds nothing but its sidechain id. */
  method ParseBlockData(blockData: Bytes, share: ShareRecord) returns (r: Outcome<()>)
    requires share.Snapshot() == Blank().(sidechainId := share.sidechainId)
    modifies share
    ensures Fills(r, ParseBlock(old(share.sidechainId), blockData), share.Snapshot())
  {
    hide ParseMainchain, ParseSidechain, ParseBlock;
    BlockChain(share.sidechainId, blockData);
    if |blockData| == 0 {
      return Panicked;
    }
    if |blockData| < 2 || blockData[0] < 1 || blockData[0] > 20 {
      return Failed;
    }
    var offset :- ParseMainchainData(blockData, share);
    if offset < 0 || offset >= |blockData| {
      return Failed;
    }
    r := ParseSidechainData(blockData[offset..], share);
  }

  /** Parses one cache entry into a new share record. */
  method ParseCacheEntry(data: Bytes) returns (r: Outcome<ShareRecord>)
    ensures Status(r) == Status(ParseEntry(data))
    ensures r.Ok? ==> fresh(r.value) && ParseEntry(data) == Ok(r.value.Snapshot())
  {
    hide ReadUint32LE, ParseBlock, ParseEntry;
    EntryChain(data);
    if |data| < 36 {
      return Failed;
    }
    var share := new ShareRecord();
    share.sidechainId := data[0..32];
    var totalLen :- ReadUint32LE(data, 32);
    var expectedEnd := 36 + totalLen.0 as int;
    if |data| < expectedEnd {
      return Failed;
    }
    var done :- ParseBlockData(data[36..expectedEnd], share);
    return Ok(share);
  }
}
