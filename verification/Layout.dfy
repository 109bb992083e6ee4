/** The documented byte layout of a cache entry, written out as a serializer. */
module Layout {
  import opened Options
  import opened GoInt
  import opened Wire
  import opened Difficulties
  import opened Shares

  /** One Carrot v1 coinbase output. */
  datatype Output = Output(reward: uint64, kind: uint8, key: Hash, asset: Bytes, viewTag: Bytes, anchor: Bytes)

  datatype Outputs =
    | Full(outputs: seq<Output>)
    | Compact(totalReward: uint64, blobSize: uint64, sidechainId: Hash)

  /** An output of a protocol transaction: an amount, and a type byte with its key. */
  datatype ProtocolOutput = ProtocolOutput(amount: uint64, body: Bytes)

  datatype ProtocolTx = ProtocolTx(height: uint64, outputs: seq<ProtocolOutput>, extra: Bytes, kind: uint64, rct: uint8)

  datatype Block = Block(
    majorVersion: uint8,
    minorVersion: uint8,
    timestamp: uint64,
    prevId: Hash,
    nonce: uint32,
    unlockHeight: uint64,
    mainchainHeight: uint64,
    outputs: Outputs,
    txExtra: Bytes,
    txType: uint64,
    amountBurnt: uint64,
    rctType: uint8,
    protocolTx: Option<ProtocolTx>,
    transactions: seq<Hash>,
    side: Sidechain)

  datatype Sidechain = Sidechain(
    minerWallet: Address,
    txkeySecSeed: Hash,
    parent: Hash,
    uncles: seq<Hash>,
    height: uint64,
    difficulty: Difficulty,
    cumulativeDifficulty: Difficulty,
    merkleProof: seq<Hash>,
    mergeMining: seq<(Hash, Bytes)>,
    extraBuf: seq<uint32>)

  // ---------------------------------------------------------------------------------------------
  // Mainchain part
  // ---------------------------------------------------------------------------------------------

  function SerializeCoinbase(b: Block): Bytes {
    [4] + (EncodeVarint(b.unlockHeight) + ([1] + ([0xff] + EncodeVarint(b.mainchainHeight))))
  }

  function SerializeHeader(b: Block): Bytes {
    [b.majorVersion, b.minorVersion] + (EncodeVarint(b.timestamp) + (b.prevId + (LittleEndian32(b.nonce)
    + SerializeCoinbase(b))))
  }

  function SerializeOutput(o: Output): Bytes
    requires ValidOutput(o)
  {
    EncodeVarint(o.reward) + ([o.kind] + (o.key + ([|o.asset|] + (o.asset + (o.viewTag + o.anchor)))))
  }

  predicate ValidOutput(o: Output) {
    |o.asset| < 0x100 && |o.viewTag| == 3 && |o.anchor| == 16
  }

  function SerializeOutputList(outputs: seq<Output>): Bytes
    requires forall o | o in outputs :: ValidOutput(o)
  {
    if outputs == [] then [] else SerializeOutput(outputs[0]) + SerializeOutputList(outputs[1..])
  }

  predicate ValidOutputs(o: Outputs) {
    o.Full? ==> 0 < |o.outputs| < TWO64 && (forall x | x in o.outputs :: ValidOutput(x))
  }

  function SerializeOutputs(o: Outputs): Bytes
    requires ValidOutputs(o)
  {
    match o
    case Full(outputs) => EncodeVarint(|outputs|) + SerializeOutputList(outputs)
    case Compact(totalReward, blobSize, id) =>
      EncodeVarint(0) + (EncodeVarint(totalReward) + (EncodeVarint(blobSize) + id))
  }

  function SerializeExtra(b: Block): Bytes {
    EncodeVarint(|b.txExtra|) + (b.txExtra + (EncodeVarint(b.txType) + (EncodeVarint(b.amountBurnt) + [b.rctType])))
  }

  function SerializeProtocolOutputs(outputs: seq<ProtocolOutput>): Bytes {
    if outputs == [] then []
    else EncodeVarint(outputs[0].amount) + (outputs[0].body + SerializeProtocolOutputs(outputs[1..]))
  }

  predicate ValidProtocolTx(p: ProtocolTx) {
    forall o | o in p.outputs :: |o.body| == 33
  }

  function SerializeProtocolHead(p: ProtocolTx): Bytes {
    EncodeVarint(4) + (EncodeVarint(60) + (EncodeVarint(1) + ([0xff] + EncodeVarint(p.height))))
  }

  function SerializeProtocolBody(p: ProtocolTx): Bytes {
    EncodeVarint(|p.outputs|) + (SerializeProtocolOutputs(p.outputs)
    + (EncodeVarint(|p.extra|) + (p.extra + (EncodeVarint(p.kind) + [p.rct]))))
  }

  function SerializeProtocolTx(p: ProtocolTx): Bytes {
    SerializeProtocolHead(p) + SerializeProtocolBody(p)
  }

  function SerializeProtocol(p: Option<ProtocolTx>): Bytes {
    match p
    case None => []
    case Some(tx) => SerializeProtocolTx(tx)
  }

  function SerializeHashes(hashes: seq<Hash>): (bytes: Bytes)
    ensures |bytes| == 32 * |hashes|
  {
    if hashes == [] then []
    else
      var last := |hashes| - 1;
      SerializeHashes(hashes[..last]) + hashes[last]
  }

  function SerializeTransactions(b: Block): Bytes {
    EncodeVarint(|b.transactions|) + SerializeHashes(b.transactions)
  }

  function SerializeMainchain(b: Block): Bytes
    requires ValidOutputs(b.outputs)
  {
    SerializeHeader(b) + (SerializeOutputs(b.outputs) + (SerializeExtra(b)
    + (SerializeProtocol(b.protocolTx) + SerializeTransactions(b))))
  }

  // ---------------------------------------------------------------------------------------------
  // Sidechain part
  // ---------------------------------------------------------------------------------------------

  function SerializeDifficulties(d: Difficulty, c: Difficulty): Bytes {
    EncodeVarint(d.Lo) + (EncodeVarint(d.Hi) + (EncodeVarint(c.Lo) + EncodeVarint(c.Hi)))
  }

  function SerializeMergeMining(entries: seq<(Hash, Bytes)>): Bytes {
    if entries == [] then []
    else
      var last := |entries| - 1;
      var (chainId, blob) := entries[last];
      SerializeMergeMining(entries[..last]) + (chainId + (EncodeVarint(|blob|) + blob))
  }

  predicate ValidSidechain(s: Sidechain) {
    |s.uncles| <= 10 && |s.merkleProof| < 0x100 && |s.mergeMining| < TWO64 && |s.extraBuf| == 4
  }

  function SerializeKeys(s: Sidechain): Bytes {
    s.minerWallet.spendPublicKey + (s.minerWallet.viewPublicKey + (s.txkeySecSeed + s.parent))
  }

  function SerializeTail(s: Sidechain): Bytes
    requires ValidSidechain(s)
  {
    LittleEndian32(s.extraBuf[0]) + (LittleEndian32(s.extraBuf[1])
    + (LittleEndian32(s.extraBuf[2]) + LittleEndian32(s.extraBuf[3])))
  }

  function SerializeIdentity(s: Sidechain): Bytes {
    SerializeKeys(s) + (EncodeVarint(|s.uncles|) + SerializeHashes(s.uncles))
  }

  function SerializeWork(s: Sidechain): Bytes {
    EncodeVarint(s.height) + SerializeDifficulties(s.difficulty, s.cumulativeDifficulty)
  }

  function SerializeProofs(s: Sidechain): Bytes
    requires ValidSidechain(s)
  {
    [|s.merkleProof|] + (SerializeHashes(s.merkleProof)
    + (EncodeVarint(|s.mergeMining|) + (SerializeMergeMining(s.mergeMining) + SerializeTail(s))))
  }

  function SerializeSidechain(s: Sidechain): Bytes
    requires ValidSidechain(s)
  {
    SerializeIdentity(s) + (SerializeWork(s) + SerializeProofs(s))
  }

  // ---------------------------------------------------------------------------------------------
  // Cache entry
  // ---------------------------------------------------------------------------------------------

  /** A block the C++ writer can produce; a protocol transaction exists from major version 10 on. */
  predicate ValidBlock(b: Block) {
    && 1 <= b.majorVersion <= 20
    && ValidOutputs(b.outputs)
    && (b.protocolTx.Some? ==> b.majorVersion >= 10 && ValidProtocolTx(b.protocolTx.value))
    && ValidSidechain(b.side)
    && |SerializeMainchain(b)| + |SerializeSidechain(b.side)| < TWO32
  }

  function SerializeBlock(b: Block): Bytes
    requires ValidBlock(b)
  {
    SerializeMainchain(b) + SerializeSidechain(b.side)
  }

  /** The entry as stored: sidechain id, length, block, and whatever the slot holds after it. */
  function SerializeEntry(id: Hash, b: Block, rest: Bytes): Bytes
    requires ValidBlock(b)
  {
    id + (LittleEndian32(|SerializeBlock(b)|) + (SerializeBlock(b) + rest))
  }

  /** The later of two entries for one chain wins, as in the map the parser fills. */
  function MergeMiningMap(entries: seq<(Hash, Bytes)>): map<Hash, Bytes> {
    if entries == [] then map[]
    else
      var last := |entries| - 1;
      MergeMiningMap(entries[..last])[entries[last].0 := entries[last].1]
  }

  // What the three sections of a sidechain part put into a share.

  function WithIdentity(share: Share, s: Sidechain): Share {
    share.(minerWallet := s.minerWallet, txkeySecSeed := s.txkeySecSeed, parent := s.parent, uncles := s.uncles)
  }

  function WithWork(share: Share, s: Sidechain): Share {
    share.(sidechainHeight := s.height, difficulty := s.difficulty, cumulativeDifficulty := s.cumulativeDifficulty)
  }

  function WithProofs(share: Share, s: Sidechain): Share {
    share.(merkleProof := s.merkleProof, mergeMiningExtra := MergeMiningMap(s.mergeMining),
           sidechainExtraBuf := s.extraBuf)
  }

  /** The fields of a block that a parsed share keeps. */
  function Kept(id: Hash, b: Block): Share {
    Share(id, b.majorVersion, b.minorVersion, b.timestamp, b.prevId, b.nonce, b.mainchainHeight,
          b.side.minerWallet, b.side.txkeySecSeed, b.side.parent, b.side.uncles, b.side.height,
          b.side.difficulty, b.side.cumulativeDifficulty, b.side.merkleProof,
          MergeMiningMap(b.side.mergeMining), b.side.extraBuf)
  }
}
