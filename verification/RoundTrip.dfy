/** Parsing inverts the documented layout. */
module RoundTrip {
  import opened Options
  import opened GoInt
  import opened Wire
  import opened Difficulties
  import opened Shares
  import opened Layout
  import opened Parsing

  lemma SizeFits(n: nat)
    requires n < TWO63
    ensures ToInt(n) == n
  {
    QuotientUnique(n, TWO64, 0, n);
  }

  // ---------------------------------------------------------------------------------------------
  // Mainchain part
  // ---------------------------------------------------------------------------------------------

  lemma FirstTwo(data: Bytes, a: uint8, b: uint8)
    requires At(data, 0, [a, b])
    ensures data[0] == a && data[1] == b
  {
    assert data[0..2][0] == data[0] && data[0..2][1] == data[1];
  }

  function HeaderFields(b: Block): Mainchain {
    Mainchain(b.majorVersion, b.minorVersion, b.timestamp, b.prevId, b.nonce, b.mainchainHeight)
  }

  lemma CoinbaseReadsBack(data: Bytes, offset: int, b: Block)
    requires At(data, offset, SerializeCoinbase(b)) && |data| < TWO63
    ensures CoinbaseInput(data, offset) == Ok((b.mainchainHeight, offset + |SerializeCoinbase(b)|))
  {
    hide VarintAt, At, EncodeVarint, ReadHash, ReadByte, ReadUint32LE, LittleEndian32, SkipBytes, ToInt;
    var t3 := [0xff] + EncodeVarint(b.mainchainHeight);
    var t2 := [1] + t3;
    var t1 := EncodeVarint(b.unlockHeight) + t2;
    var o := offset;
    AtSplit(data, o, [4], t1);
    ByteReadsBack(data, o, 4);
    o := o + 1;
    AtSplit(data, o, EncodeVarint(b.unlockHeight), t2);
    VarintReadsBack(data, o, b.unlockHeight);
    o := o + |EncodeVarint(b.unlockHeight)|;
    AtSplit(data, o, [1], t3);
    ByteReadsBack(data, o, 1);
    AtSplit(data, o + 1, [0xff], EncodeVarint(b.mainchainHeight));
    ByteReadsBack(data, o + 1, 0xff);
    VarintReadsBack(data, o + 2, b.mainchainHeight);
  }

  lemma HeaderReadsBack(data: Bytes, b: Block)
    requires At(data, 0, SerializeHeader(b)) && 40 <= |data| < TWO63
    ensures Header(data) == Ok((HeaderFields(b), |SerializeHeader(b)|))
  {
    hide VarintAt, At, EncodeVarint, ReadHash, ReadByte, ReadUint32LE, LittleEndian32, SkipBytes, ToInt,
         SerializeCoinbase, CoinbaseInput;
    var t3 := LittleEndian32(b.nonce) + SerializeCoinbase(b);
    var t2 := b.prevId + t3;
    var t1 := EncodeVarint(b.timestamp) + t2;
    AtSplit(data, 0, [b.majorVersion, b.minorVersion], t1);
    FirstTwo(data, b.majorVersion, b.minorVersion);
    AtSplit(data, 2, EncodeVarint(b.timestamp), t2);
    VarintReadsBack(data, 2, b.timestamp);
    var o := 2 + |EncodeVarint(b.timestamp)|;
    AtSplit(data, o, b.prevId, t3);
    HashReadsBack(data, o, b.prevId);
    AtSplit(data, o + 32, LittleEndian32(b.nonce), SerializeCoinbase(b));
    Uint32ReadsBack(data, o + 32, b.nonce);
    CoinbaseReadsBack(data, o + 36, b);
  }

  /** Where the fields of a serialized output lie. */
  lemma OutputLaidOut(data: Bytes, offset: int, x: Output)
    requires ValidOutput(x) && At(data, offset, SerializeOutput(x)) && |data| < TWO63
    ensures var o := offset + |EncodeVarint(x.reward)|;
            && VarintAt(data, offset) == Ok((x.reward, o))
            && ReadByte(data, o + 33) == Ok((|x.asset|, o + 34))
            && 0 <= o && offset + |SerializeOutput(x)| == o + 34 + |x.asset| + 3 + 16 <= |data|
  {
    hide VarintAt, At, EncodeVarint, ReadByte;
    var t3 := [|x.asset|] + (x.asset + (x.viewTag + x.anchor));
    var o := offset + |EncodeVarint(x.reward)|;
    AtSplit(data, offset, EncodeVarint(x.reward), [x.kind] + (x.key + t3));
    VarintReadsBack(data, offset, x.reward);
    AtSplit(data, o, [x.kind], x.key + t3);
    AtSplit(data, o + 1, x.key, t3);
    AtSplit(data, o + 33, [|x.asset|], x.asset + (x.viewTag + x.anchor));
    ByteReadsBack(data, o + 33, |x.asset|);
    AtBounds(data, offset, SerializeOutput(x));
  }

  lemma OutputSkips(data: Bytes, offset: int, x: Output)
    requires ValidOutput(x) && At(data, offset, SerializeOutput(x)) && |data| < TWO63
    ensures SkipOutput(data, offset) == Ok(offset + |SerializeOutput(x)|)
  {
    hide VarintAt, At, EncodeVarint, ReadByte, SerializeOutput, SkipBytes;
    OutputLaidOut(data, offset, x);
  }

  lemma {:induction false} OutputListSkips(data: Bytes, offset: int, outputs: seq<Output>)
    requires forall x | x in outputs :: ValidOutput(x)
    requires At(data, offset, SerializeOutputList(outputs)) && |data| < TWO63
    ensures SkipFull(data, offset, |outputs|) == Ok(offset + |SerializeOutputList(outputs)|)
    decreases |outputs|
  {
    hide VarintAt, At, EncodeVarint, ReadHash, ReadByte, ReadUint32LE, LittleEndian32, SkipBytes, ToInt, SkipOutput,
         SerializeOutput;
    if outputs != [] {
      AtSplit(data, offset, SerializeOutput(outputs[0]), SerializeOutputList(outputs[1..]));
      OutputSkips(data, offset, outputs[0]);
      OutputListSkips(data, offset + |SerializeOutput(outputs[0])|, outputs[1..]);
    }
  }

  lemma OutputsSkip(data: Bytes, offset: int, x: Outputs)
    requires ValidOutputs(x) && At(data, offset, SerializeOutputs(x)) && |data| < TWO63
    ensures SkipOutputs(data, offset) == Ok(offset + |SerializeOutputs(x)|)
  {
    hide VarintAt, At, EncodeVarint, ReadHash, ReadByte, ReadUint32LE, LittleEndian32, SkipBytes, ToInt, SkipFull,
         SerializeOutputList;
    match x
    case Full(outputs) =>
      AtSplit(data, offset, EncodeVarint(|outputs|), SerializeOutputList(outputs));
      VarintReadsBack(data, offset, |outputs|);
      OutputListSkips(data, offset + |EncodeVarint(|outputs|)|, outputs);
    case Compact(totalReward, blobSize, id) =>
      var t2 := EncodeVarint(blobSize) + id;
      var t1 := EncodeVarint(totalReward) + t2;
      AtSplit(data, offset, EncodeVarint(0), t1);
      VarintReadsBack(data, offset, 0);
      var o := offset + |EncodeVarint(0)|;
      AtSplit(data, o, EncodeVarint(totalReward), t2);
      VarintReadsBack(data, o, totalReward);
      o := o + |EncodeVarint(totalReward)|;
      AtSplit(data, o, EncodeVarint(blobSize), id);
      VarintReadsBack(data, o, blobSize);
  }

  lemma ExtraSkips(data: Bytes, offset: int, b: Block)
    requires At(data, offset, SerializeExtra(b)) && |data| < TWO63
    ensures SkipExtra(data, offset) == Ok(offset + |SerializeExtra(b)|)
  {
    hide VarintAt, At, EncodeVarint, ReadHash, ReadByte, ReadUint32LE, LittleEndian32, SkipBytes, ToInt;
    var t3 := EncodeVarint(b.amountBurnt) + [b.rctType];
    var t2 := EncodeVarint(b.txType) + t3;
    var t1 := b.txExtra + t2;
    AtSplit(data, offset, EncodeVarint(|b.txExtra|), t1);
    VarintReadsBack(data, offset, |b.txExtra|);
    SizeFits(|b.txExtra|);
    var o := offset + |EncodeVarint(|b.txExtra|)|;
    AtSplit(data, o, b.txExtra, t2);
    o := o + |b.txExtra|;
    AtSplit(data, o, EncodeVarint(b.txType), t3);
    VarintReadsBack(data, o, b.txType);
    o := o + |EncodeVarint(b.txType)|;
    AtSplit(data, o, EncodeVarint(b.amountBurnt), [b.rctType]);
    VarintReadsBack(data, o, b.amountBurnt);
  }

  lemma {:induction false} ProtocolOutputsSkip(data: Bytes, offset: int, outputs: seq<ProtocolOutput>)
    requires forall x | x in outputs :: |x.body| == 33
    requires At(data, offset, SerializeProtocolOutputs(outputs)) && |data| < TWO63
    ensures SkipProtocolOutputs(data, offset, |outputs|) == Ok(offset + |SerializeProtocolOutputs(outputs)|)
    decreases |outputs|
  {
    hide VarintAt, At, EncodeVarint, ReadHash, ReadByte, ReadUint32LE, LittleEndian32, SkipBytes, ToInt;
    if outputs != [] {
      var x, rest := outputs[0], SerializeProtocolOutputs(outputs[1..]);
      AtSplit(data, offset, EncodeVarint(x.amount), x.body + rest);
      VarintReadsBack(data, offset, x.amount);
      var o := offset + |EncodeVarint(x.amount)|;
      AtSplit(data, o, x.body, rest);
      ProtocolOutputsSkip(data, o + 33, outputs[1..]);
    }
  }

  lemma {:induction false} ProtocolOutputsLength(outputs: seq<ProtocolOutput>)
    ensures |outputs| <= |SerializeProtocolOutputs(outputs)|
  {
    if outputs != [] {
      ProtocolOutputsLength(outputs[1..]);
    }
  }

  lemma ProtocolHeadSkips(data: Bytes, offset: int, p: ProtocolTx)
    requires At(data, offset, SerializeProtocolHead(p)) && |data| < TWO63
    ensures ProtocolHeadEnd(data, offset) == Ok(offset + |SerializeProtocolHead(p)|)
  {
    hide VarintAt, At, EncodeVarint, ReadHash, ReadByte, ReadUint32LE, LittleEndian32, SkipBytes, ToInt;
    var t3 := [0xff] + EncodeVarint(p.height);
    var t2 := EncodeVarint(1) + t3;
    var t1 := EncodeVarint(60) + t2;
    var o := offset;
    AtSplit(data, o, EncodeVarint(4), t1);
    VarintReadsBack(data, o, 4);
    o := o + |EncodeVarint(4)|;
    AtSplit(data, o, EncodeVarint(60), t2);
    VarintReadsBack(data, o, 60);
    o := o + |EncodeVarint(60)|;
    AtSplit(data, o, EncodeVarint(1), t3);
    VarintReadsBack(data, o, 1);
    o := o + |EncodeVarint(1)|;
    AtSplit(data, o, [0xff], EncodeVarint(p.height));
    ByteReadsBack(data, o, 0xff);
    VarintReadsBack(data, o + 1, p.height);
  }

  lemma ProtocolBodySkips(data: Bytes, offset: int, p: ProtocolTx)
    requires ValidProtocolTx(p) && At(data, offset, SerializeProtocolBody(p)) && |data| < TWO63
    ensures ProtocolBodyEnd(data, offset) == Ok(offset + |SerializeProtocolBody(p)|)
  {
    hide VarintAt, At, EncodeVarint, ReadHash, ReadByte, ReadUint32LE, LittleEndian32, SkipBytes, ToInt,
         SkipProtocolOutputs, SerializeProtocolOutputs;
    var t4 := EncodeVarint(p.kind) + [p.rct];
    var t3 := p.extra + t4;
    var t2 := EncodeVarint(|p.extra|) + t3;
    var t1 := SerializeProtocolOutputs(p.outputs) + t2;
    ProtocolOutputsLength(p.outputs);
    var o := offset;
    AtSplit(data, o, EncodeVarint(|p.outputs|), t1);
    VarintReadsBack(data, o, |p.outputs|);
    o := o + |EncodeVarint(|p.outputs|)|;
    AtSplit(data, o, SerializeProtocolOutputs(p.outputs), t2);
    ProtocolOutputsSkip(data, o, p.outputs);
    o := o + |SerializeProtocolOutputs(p.outputs)|;
    AtSplit(data, o, EncodeVarint(|p.extra|), t3);
    VarintReadsBack(data, o, |p.extra|);
    SizeFits(|p.extra|);
    o := o + |EncodeVarint(|p.extra|)|;
    AtSplit(data, o, p.extra, t4);
    o := o + |p.extra|;
    AtSplit(data, o, EncodeVarint(p.kind), [p.rct]);
    VarintReadsBack(data, o, p.kind);
  }

  /** A protocol transaction that is there is recognised and skipped to its last byte. */
  lemma ProtocolTxSkips(data: Bytes, offset: int, p: ProtocolTx)
    requires ValidProtocolTx(p) && At(data, offset, SerializeProtocolTx(p)) && |data| < TWO63
    ensures ProtocolTxEnd(data, offset) == Ok(offset + |SerializeProtocolTx(p)|)
  {
    hide ProtocolHeadEnd, ProtocolBodyEnd, SerializeProtocolHead, SerializeProtocolBody;
    AtSplit(data, offset, SerializeProtocolHead(p), SerializeProtocolBody(p));
    ProtocolHeadSkips(data, offset, p);
    ProtocolBodySkips(data, offset + |SerializeProtocolHead(p)|, p);
  }

  lemma TransactionsSkip(data: Bytes, offset: int, b: Block)
    requires At(data, offset, SerializeTransactions(b)) && |data| < TWO63
    ensures SkipTransactions(data, offset) == Ok(offset + |SerializeTransactions(b)|)
  {
    hide VarintAt, At, EncodeVarint, ReadHash, ReadByte, ReadUint32LE, LittleEndian32, SkipBytes, ToInt;
    var n := |b.transactions|;
    AtSplit(data, offset, EncodeVarint(n), SerializeHashes(b.transactions));
    VarintReadsBack(data, offset, n);
    SizeFits(n);
    SizeFits(n * 32);
  }

  // ---------------------------------------------------------------------------------------------
  // The optional section and the boundary
  // ---------------------------------------------------------------------------------------------

  /** Where the optional protocol transaction may begin. */
  function OptionalAt(b: Block): nat
    requires ValidOutputs(b.outputs)
  {
    |SerializeHeader(b)| + |SerializeOutputs(b.outputs)| + |SerializeExtra(b)|
  }

  /** The lookahead of the parser is consulted although the block has no protocol transaction. */
  predicate Guessing(b: Block) {
    b.protocolTx.None? && b.majorVersion >= 10
  }

  /** The bytes after a missing protocol transaction do not themselves parse as one. */
  predicate Unambiguous(b: Block)
    requires ValidBlock(b)
  {
    Guessing(b) ==> ProtocolTxEnd(SerializeBlock(b), OptionalAt(b)).Failed?
  }

  lemma HeaderLength(b: Block)
    ensures |SerializeHeader(b)| >= 44
  {
  }

  lemma SidechainLength(s: Sidechain)
    requires ValidSidechain(s)
    ensures |SerializeSidechain(s)| >= 128
  {
    assert |SerializeKeys(s)| == 128;
  }

  lemma SectionsPresent(data: Bytes, b: Block)
    requires ValidBlock(b) && At(data, 0, SerializeMainchain(b))
    ensures At(data, 0, SerializeHeader(b))
    ensures At(data, |SerializeHeader(b)|, SerializeOutputs(b.outputs))
    ensures At(data, |SerializeHeader(b)| + |SerializeOutputs(b.outputs)|, SerializeExtra(b))
    ensures At(data, OptionalAt(b), SerializeProtocol(b.protocolTx))
    ensures At(data, OptionalAt(b) + |SerializeProtocol(b.protocolTx)|, SerializeTransactions(b))
    ensures |SerializeMainchain(b)| == OptionalAt(b) + |SerializeProtocol(b.protocolTx)| + |SerializeTransactions(b)|
  {
    hide At, SerializeHeader, SerializeOutputs, SerializeExtra, SerializeProtocol, SerializeTransactions;
    var t3 := SerializeProtocol(b.protocolTx) + SerializeTransactions(b);
    var t2 := SerializeExtra(b) + t3;
    var t1 := SerializeOutputs(b.outputs) + t2;
    AtSplit(data, 0, SerializeHeader(b), t1);
    AtSplit(data, |SerializeHeader(b)|, SerializeOutputs(b.outputs), t2);
    AtSplit(data, |SerializeHeader(b)| + |SerializeOutputs(b.outputs)|, SerializeExtra(b), t3);
    AtSplit(data, OptionalAt(b), SerializeProtocol(b.protocolTx), SerializeTransactions(b));
  }

  /** Up to the optional section every block parses; what follows is lookahead and transactions. */
  lemma UpToOptional(data: Bytes, b: Block)
    requires ValidBlock(b) && At(data, 0, SerializeMainchain(b)) && 40 <= |data| < TWO63
    ensures OptionalAt(b) + 2 < TWO63
    ensures ParseMainchain(data) ==
            var o :- if b.majorVersion >= 10 && OptionalAt(b) + 2 < |data| then Lookahead(data, OptionalAt(b))
                     else Ok(OptionalAt(b));
            var o :- SkipTransactions(data, o);
            Ok((HeaderFields(b), o))
  {
    hide At, SerializeMainchain, SerializeHeader, SerializeOutputs, SerializeExtra, SerializeProtocol,
         SerializeTransactions, Header, SkipOutputs, SkipExtra, Lookahead, SkipTransactions, ToInt;
    SectionsPresent(data, b);
    HeaderReadsBack(data, b);
    OutputsSkip(data, |SerializeHeader(b)|, b.outputs);
    ExtraSkips(data, |SerializeHeader(b)| + |SerializeOutputs(b.outputs)|, b);
    AtBounds(data, OptionalAt(b), SerializeProtocol(b.protocolTx));
    AtBounds(data, OptionalAt(b) + |SerializeProtocol(b.protocolTx)|, SerializeTransactions(b));
    SizeFits(OptionalAt(b) + 2);
  }

  lemma AtBounds(data: Bytes, offset: int, part: Bytes)
    requires At(data, offset, part)
    ensures 0 <= offset && offset + |part| <= |data|
  {
  }

  /** Where the sidechain part is taken to begin: after the transactions, or wherever a fooled lookahead leads. */
  function BoundaryFound(data: Bytes, b: Block): Outcome<int>
    requires ValidBlock(b)
  {
    if !Guessing(b) then Ok(|SerializeMainchain(b)|)
    else
      match ProtocolTxEnd(data, OptionalAt(b))
      case Failed => Ok(|SerializeMainchain(b)|)
      case Panicked => Panicked
      case Ok(stop) => SkipTransactions(data, stop)
  }

  /** When the lookahead is fooled the boundary survives only if the transactions resynchronise. */
  predicate BoundarySurvives(data: Bytes, b: Block)
    requires ValidBlock(b)
  {
    BoundaryFound(data, b) == Ok(|SerializeMainchain(b)|)
  }

  /** Every block yields its mainchain fields, and the boundary exactly when the lookahead is right or harmless. */
  lemma BoundaryExact(data: Bytes, b: Block)
    requires ValidBlock(b) && At(data, 0, SerializeMainchain(b))
    requires |SerializeMainchain(b)| + 128 <= |data| < TWO63
    ensures ParseMainchain(data) == match BoundaryFound(data, b)
                                    case Ok(o) => Ok((HeaderFields(b), o))
                                    case Failed => Failed
                                    case Panicked => Panicked
    ensures ParseMainchain(data) == Ok((HeaderFields(b), |SerializeMainchain(b)|)) <==> BoundarySurvives(data, b)
  {
    hide At, SerializeMainchain, SerializeHeader, SerializeOutputs, SerializeExtra, SerializeProtocolTx,
         SerializeTransactions, ProtocolTxEnd, SkipTransactions, ToInt, ParseMainchain;
    SectionsPresent(data, b);
    UpToOptional(data, b);
    SizeFits(OptionalAt(b) + 2);
    TransactionsSkip(data, OptionalAt(b) + |SerializeProtocol(b.protocolTx)|, b);
    if b.protocolTx.Some? {
      ProtocolTxSkips(data, OptionalAt(b), b.protocolTx.value);
    }
  }

  /** Only a block with exactly four transactions can be mistaken for one with a protocol transaction. */
  lemma FourTransactionsNeeded(data: Bytes, b: Block)
    requires ValidBlock(b) && At(data, 0, SerializeMainchain(b)) && |data| < TWO63
    requires Guessing(b) && |b.transactions| != 4
    ensures ProtocolTxEnd(data, OptionalAt(b)).Failed?
  {
    hide At, SerializeMainchain, SerializeHeader, SerializeOutputs, SerializeExtra, VarintAt;
    SectionsPresent(data, b);
    AtSplit(data, OptionalAt(b), EncodeVarint(|b.transactions|), SerializeHashes(b.transactions));
    AtBounds(data, OptionalAt(b) + |EncodeVarint(|b.transactions|)|, SerializeHashes(b.transactions));
    VarintReadsBack(data, OptionalAt(b), |b.transactions|);
  }

  // ---------------------------------------------------------------------------------------------
  // Sidechain part
  // ---------------------------------------------------------------------------------------------

  lemma {:induction false} HashesReadBack(data: Bytes, offset: int, hashes: seq<Hash>)
    requires At(data, offset, SerializeHashes(hashes)) && |data| < TWO63
    ensures ReadHashes(data, offset, |hashes|) == Ok((hashes, offset + 32 * |hashes|))
  {
    hide At, ReadHash;
    if hashes != [] {
      var last := |hashes| - 1;
      AtSplit(data, offset, SerializeHashes(hashes[..last]), hashes[last]);
      HashesReadBack(data, offset, hashes[..last]);
      HashReadsBack(data, offset + 32 * last, hashes[last]);
      assert hashes[..last] + [hashes[last]] == hashes;
    }
  }

  lemma BlobReadsBack(data: Bytes, offset: int, blob: Bytes)
    requires At(data, offset, blob) && |data| < TWO63
    ensures |blob| < TWO64 && ReadBlob(data, offset, |blob|) == Ok((blob, offset + |blob|))
  {
    SizeFits(|blob|);
    SizeFits(offset + |blob|);
  }

  lemma {:induction false} MergeMiningReadsBack(data: Bytes, offset: int, entries: seq<(Hash, Bytes)>)
    requires At(data, offset, SerializeMergeMining(entries)) && |data| < TWO63
    ensures ReadMergeMining(data, offset, |entries|)
         == Ok((MergeMiningMap(entries), offset + |SerializeMergeMining(entries)|))
    decreases |entries|
  {
    hide At, ReadHash, VarintAt, EncodeVarint, ReadBlob;
    if entries != [] {
      var last := |entries| - 1;
      var (chainId, blob) := entries[last];
      var o := offset + |SerializeMergeMining(entries[..last])|;
      AtSplit(data, offset, SerializeMergeMining(entries[..last]), chainId + (EncodeVarint(|blob|) + blob));
      MergeMiningReadsBack(data, offset, entries[..last]);
      AtSplit(data, o, chainId, EncodeVarint(|blob|) + blob);
      HashReadsBack(data, o, chainId);
      AtSplit(data, o + 32, EncodeVarint(|blob|), blob);
      BlobReadsBack(data, o + 32 + |EncodeVarint(|blob|)|, blob);
      VarintReadsBack(data, o + 32, |blob|);
    }
  }

  lemma DifficultyReadsBack(data: Bytes, offset: int, d: Difficulty, c: Difficulty)
    requires At(data, offset, SerializeDifficulties(d, c)) && |data| < TWO63
    ensures var middle := offset + |EncodeVarint(d.Lo)| + |EncodeVarint(d.Hi)|;
            && ReadDifficulty(data, offset) == Ok((d, middle))
            && ReadDifficulty(data, middle) == Ok((c, offset + |SerializeDifficulties(d, c)|))
  {
    hide At, VarintAt, EncodeVarint;
    var t2 := EncodeVarint(c.Lo) + EncodeVarint(c.Hi);
    var t1 := EncodeVarint(d.Hi) + t2;
    var o := offset;
    AtSplit(data, o, EncodeVarint(d.Lo), t1);
    VarintReadsBack(data, o, d.Lo);
    o := o + |EncodeVarint(d.Lo)|;
    AtSplit(data, o, EncodeVarint(d.Hi), t2);
    VarintReadsBack(data, o, d.Hi);
    o := o + |EncodeVarint(d.Hi)|;
    AtSplit(data, o, EncodeVarint(c.Lo), EncodeVarint(c.Hi));
    VarintReadsBack(data, o, c.Lo);
    VarintReadsBack(data, o + |EncodeVarint(c.Lo)|, c.Hi);
  }

  lemma TailReadsBack(data: Bytes, offset: int, s: Sidechain)
    requires ValidSidechain(s) && At(data, offset, SerializeTail(s)) && |data| < TWO63
    ensures ReadExtraBuf(data, offset) == Ok(s.extraBuf)
  {
    hide At, ReadUint32LE, LittleEndian32, ToInt;
    AtBounds(data, offset, SerializeTail(s));
    SizeFits(offset + 16);
    var w := s.extraBuf;
    var t2 := LittleEndian32(w[2]) + LittleEndian32(w[3]);
    var t1 := LittleEndian32(w[1]) + t2;
    AtSplit(data, offset, LittleEndian32(w[0]), t1);
    AtSplit(data, offset + 4, LittleEndian32(w[1]), t2);
    AtSplit(data, offset + 8, LittleEndian32(w[2]), LittleEndian32(w[3]));
    Uint32ReadsBack(data, offset, w[0]);
    Uint32ReadsBack(data, offset + 4, w[1]);
    Uint32ReadsBack(data, offset + 8, w[2]);
    Uint32ReadsBack(data, offset + 12, w[3]);
    assert w == [w[0], w[1], w[2], w[3]];
  }

  lemma KeysReadBack(data: Bytes, s: Sidechain)
    requires At(data, 0, SerializeKeys(s)) && |data| < TWO63
    ensures ReadHash(data, 0) == Ok((s.minerWallet.spendPublicKey, 32))
    ensures ReadHash(data, 32) == Ok((s.minerWallet.viewPublicKey, 64))
    ensures ReadHash(data, 64) == Ok((s.txkeySecSeed, 96))
    ensures ReadHash(data, 96) == Ok((s.parent, 128))
  {
    hide At, ReadHash;
    var t2 := s.txkeySecSeed + s.parent;
    var t1 := s.minerWallet.viewPublicKey + t2;
    AtSplit(data, 0, s.minerWallet.spendPublicKey, t1);
    AtSplit(data, 32, s.minerWallet.viewPublicKey, t2);
    AtSplit(data, 64, s.txkeySecSeed, s.parent);
    HashReadsBack(data, 0, s.minerWallet.spendPublicKey);
    HashReadsBack(data, 32, s.minerWallet.viewPublicKey);
    HashReadsBack(data, 64, s.txkeySecSeed);
    HashReadsBack(data, 96, s.parent);
  }

  lemma IdentityReadsBack(data: Bytes, s: Sidechain, share: Share)
    requires |s.uncles| <= 10 && At(data, 0, SerializeIdentity(s)) && |data| < TWO63
    ensures ReadIdentity(data, share) == Ok((WithIdentity(share, s), |SerializeIdentity(s)|))
  {
    hide At, ReadHash, VarintAt, EncodeVarint, SerializeKeys, SerializeHashes, ReadHashes;
    KeysLength(s);
    AtSplit(data, 0, SerializeKeys(s), EncodeVarint(|s.uncles|) + SerializeHashes(s.uncles));
    KeysReadBack(data, s);
    AtSplit(data, 128, EncodeVarint(|s.uncles|), SerializeHashes(s.uncles));
    VarintReadsBack(data, 128, |s.uncles|);
    HashesReadBack(data, 128 + |EncodeVarint(|s.uncles|)|, s.uncles);
  }

  lemma WorkReadsBack(data: Bytes, offset: int, s: Sidechain, share: Share)
    requires At(data, offset, SerializeWork(s)) && |data| < TWO63
    ensures ReadWork(data, offset, share) == Ok((WithWork(share, s), offset + |SerializeWork(s)|))
  {
    hide At, VarintAt, EncodeVarint, SerializeDifficulties, ReadDifficulty;
    AtSplit(data, offset, EncodeVarint(s.height), SerializeDifficulties(s.difficulty, s.cumulativeDifficulty));
    VarintReadsBack(data, offset, s.height);
    DifficultyReadsBack(data, offset + |EncodeVarint(s.height)|, s.difficulty, s.cumulativeDifficulty);
  }

  lemma ProofsReadBack(data: Bytes, offset: int, s: Sidechain, share: Share)
    requires ValidSidechain(s) && At(data, offset, SerializeProofs(s)) && |data| < TWO63
    ensures ReadProofs(data, offset, share) == Ok(WithProofs(share, s))
  {
    hide At, ReadByte, VarintAt, EncodeVarint, SerializeHashes, SerializeMergeMining, SerializeTail, ReadHashes,
         ReadMergeMining, ReadExtraBuf, MergeMiningMap;
    var t3 := SerializeMergeMining(s.mergeMining) + SerializeTail(s);
    var t2 := EncodeVarint(|s.mergeMining|) + t3;
    var t1 := SerializeHashes(s.merkleProof) + t2;
    AtSplit(data, offset, [|s.merkleProof|], t1);
    ByteReadsBack(data, offset, |s.merkleProof|);
    var o := offset + 1;
    AtSplit(data, o, SerializeHashes(s.merkleProof), t2);
    HashesReadBack(data, o, s.merkleProof);
    o := o + |SerializeHashes(s.merkleProof)|;
    AtSplit(data, o, EncodeVarint(|s.mergeMining|), t3);
    VarintReadsBack(data, o, |s.mergeMining|);
    o := o + |EncodeVarint(|s.mergeMining|)|;
    AtSplit(data, o, SerializeMergeMining(s.mergeMining), SerializeTail(s));
    MergeMiningReadsBack(data, o, s.mergeMining);
    TailReadsBack(data, o + |SerializeMergeMining(s.mergeMining)|, s);
  }

  lemma SidechainSections(data: Bytes, s: Sidechain)
    requires ValidSidechain(s) && At(data, 0, SerializeSidechain(s))
    ensures |data| >= 128
    ensures At(data, 0, SerializeIdentity(s))
    ensures At(data, |SerializeIdentity(s)|, SerializeWork(s))
    ensures At(data, |SerializeIdentity(s)| + |SerializeWork(s)|, SerializeProofs(s))
  {
    SidechainLength(s);
    AtBounds(data, 0, SerializeSidechain(s));
    hide At, SerializeIdentity, SerializeWork, SerializeProofs;
    AtSplit(data, 0, SerializeIdentity(s), SerializeWork(s) + SerializeProofs(s));
    AtSplit(data, |SerializeIdentity(s)|, SerializeWork(s), SerializeProofs(s));
  }

  lemma SidechainReadsBack(data: Bytes, s: Sidechain, share: Share)
    requires ValidSidechain(s) && At(data, 0, SerializeSidechain(s)) && |data| < TWO63
    ensures ParseSidechain(data, share) == Ok(WithProofs(WithWork(WithIdentity(share, s), s), s))
  {
    hide At, SerializeSidechain, SerializeIdentity, SerializeWork, SerializeProofs, ReadIdentity, ReadWork, ReadProofs,
         ParseSidechain, WithIdentity, WithWork, WithProofs;
    SidechainSections(data, s);
    SectionsChain(data, share);
    IdentityReadsBack(data, s, share);
    WorkReadsBack(data, |SerializeIdentity(s)|, s, WithIdentity(share, s));
    ProofsReadBack(data, |SerializeIdentity(s)| + |SerializeWork(s)|, s, WithWork(WithIdentity(share, s), s));
  }

  lemma KeysLength(s: Sidechain)
    ensures |SerializeKeys(s)| == 128
  {
  }

  // ---------------------------------------------------------------------------------------------
  // Cache entry
  // ---------------------------------------------------------------------------------------------

  /** What is read from a place inside the block on, whatever it is, is the block's own sidechain part. */
  predicate ReadsAlike(data: Bytes, b: Block, o: int)
    requires ValidBlock(b)
  {
    0 <= o < |data| && ParseSidechain(data[o..], Fresh(ZeroHash(), HeaderFields(b))) == Ok(Kept(ZeroHash(), b))
  }

  /** The boundary is missed, yet the bytes where the sidechain part is looked for repeat the block's keys. */
  predicate KeysRecur(data: Bytes, b: Block)
    requires ValidBlock(b)
  {
    !BoundarySurvives(data, b)
    && match BoundaryFound(data, b)
       case Ok(o) => At(data, o, SerializeKeys(b.side))
       case _ => false
  }

  /** The sidechain id of a share is carried along, and read by nothing. */
  lemma SidechainIgnoresId(data: Bytes, share: Share, id: Hash)
    ensures ParseSidechain(data, share.(sidechainId := id))
         == match ParseSidechain(data, share)
            case Ok(s) => Ok(s.(sidechainId := id))
            case Failed => Failed
            case Panicked => Panicked
  {
    hide ReadHash, VarintAt, ReadHashes, ReadDifficulty, ReadByte, ReadMergeMining, ReadExtraBuf;
  }

  /** A sidechain part that is read begins with the four keys that are read from it. */
  lemma KeysComeFirst(data: Bytes, share: Share, s: Share)
    requires ParseSidechain(data, share) == Ok(s)
    ensures At(data, 0, s.minerWallet.spendPublicKey + (s.minerWallet.viewPublicKey + (s.txkeySecSeed + s.parent)))
  {
    hide VarintAt, ReadHashes, ReadWork, ReadProofs;
    assert data[0..128] == data[0..32] + (data[32..64] + (data[64..96] + data[96..128]));
  }

  /** Every block, read back from its own bytes: what happens depends only on the boundary that is found. */
  lemma BlockOutcome(id: Hash, b: Block)
    requires ValidBlock(b)
    ensures var data := SerializeBlock(b);
            ParseBlock(id, data) == match BoundaryFound(data, b)
                                    case Ok(o) =>
                                      if 0 <= o < |data| then ParseSidechain(data[o..], Fresh(id, HeaderFields(b)))
                                      else Failed
                                    case Failed => Failed
                                    case Panicked => Panicked
    ensures var data, main := SerializeBlock(b), SerializeMainchain(b);
            |main| < |data| && ParseSidechain(data[|main|..], Fresh(id, HeaderFields(b))) == Ok(Kept(id, b))
  {
    var data, main, side := SerializeBlock(b), SerializeMainchain(b), SerializeSidechain(b.side);
    SidechainLength(b.side);
    HeaderLength(b);
    WholeIsAt(data, 0, main + side);
    AtSplit(data, 0, main, side);
    SectionsPresent(data, b);
    FirstBytes(data, b);
    hide SerializeMainchain, SerializeSidechain, ParseMainchain, ParseSidechain, MergeMiningMap, ParseBlock,
         BoundaryFound;
    BlockChain(id, data);
    BoundaryExact(data, b);
    assert data[|main|..] == side;
    WholeIsAt(side, 0, side);
    SidechainReadsBack(side, b.side, Fresh(id, HeaderFields(b)));
  }

  /**
   * A block is recovered from its own bytes if and only if the boundary that is found is the block's, or what is
   * read from it on happens to be the same; that takes a second copy of the block's four keys.
   */
  lemma BlockReadsBack(id: Hash, b: Block)
    requires ValidBlock(b)
    ensures var data := SerializeBlock(b);
            && (ParseBlock(id, data) == Ok(Kept(id, b))
                <==> BoundaryFound(data, b).Ok? && ReadsAlike(data, b, BoundaryFound(data, b).value))
            && (BoundarySurvives(data, b) ==> ParseBlock(id, data) == Ok(Kept(id, b)))
            && (!KeysRecur(data, b) ==> (ParseBlock(id, data) == Ok(Kept(id, b)) <==> BoundarySurvives(data, b)))
  {
    var data := SerializeBlock(b);
    BlockOutcome(id, b);
    hide SerializeBlock, SerializeMainchain, ParseBlock, ParseSidechain, BoundaryFound, At, ReadsAlike, Kept, Fresh;
    if BoundaryFound(data, b).Ok? {
      SharesAlike(id, b, data, BoundaryFound(data, b).value);
      BoundaryAlike(b);
    }
  }

  /** Reading a share at `o` gives the block's own exactly if it reads alike, and then the keys stand there. */
  lemma SharesAlike(id: Hash, b: Block, data: Bytes, o: int)
    requires ValidBlock(b)
    ensures ReadsAlike(data, b, o)
            <==> 0 <= o < |data| && ParseSidechain(data[o..], Fresh(id, HeaderFields(b))) == Ok(Kept(id, b))
    ensures ReadsAlike(data, b, o) ==> At(data, o, SerializeKeys(b.side))
  {
    hide ParseSidechain, At, SerializeKeys, MergeMiningMap, ValidBlock;
    if 0 <= o < |data| {
      var none := Fresh(ZeroHash(), HeaderFields(b));
      SidechainIgnoresId(data[o..], none, id);
      SidechainIgnoresId(data[o..], Fresh(id, HeaderFields(b)), ZeroHash());
      if ReadsAlike(data, b, o) {
        KeysStandAt(data, o, none, b);
      }
    }
  }

  lemma KeysStandAt(data: Bytes, o: nat, share: Share, b: Block)
    requires o < |data| && ParseSidechain(data[o..], share) == Ok(Kept(ZeroHash(), b))
    ensures At(data, o, SerializeKeys(b.side))
  {
    hide ParseSidechain, At;
    KeysComeFirst(data[o..], share, Kept(ZeroHash(), b));
    AtSuffix(data, o, SerializeKeys(b.side));
  }

  /** From its true boundary every block reads alike. */
  lemma BoundaryAlike(b: Block)
    requires ValidBlock(b)
    ensures ReadsAlike(SerializeBlock(b), b, |SerializeMainchain(b)|)
  {
    hide SerializeBlock, SerializeMainchain, ParseSidechain, Kept, Fresh, ParseBlock, BoundaryFound;
    BlockOutcome(ZeroHash(), b);
  }

  lemma AtSuffix(data: Bytes, o: nat, part: Bytes)
    requires o <= |data| && At(data[o..], 0, part)
    ensures At(data, o, part)
  {
    assert data[o..][0..|part|] == data[o..o + |part|];
  }

  lemma WholeIsAt(data: Bytes, offset: int, part: Bytes)
    requires data == part && offset == 0
    ensures At(data, offset, part)
  {
    assert data[0..|part|] == part;
  }

  lemma FirstBytes(data: Bytes, b: Block)
    requires At(data, 0, SerializeHeader(b))
    ensures |data| >= 2 && data[0] == b.majorVersion && data[1] == b.minorVersion
  {
    var header := SerializeHeader(b);
    assert data[0..|header|][0] == data[0] && data[0..|header|][1] == data[1];
  }

  lemma EntrySlices(id: Hash, size: Bytes, block: Bytes, rest: Bytes)
    requires |size| == 4
    ensures var data := id + (size + (block + rest));
            && data[..32] == id && At(data, 32, size) && data[36..36 + |block|] == block
  {
    var data := id + (size + (block + rest));
    assert data[32..36] == size;
  }

  /** An entry hands the parser of blocks exactly the bytes its length announces. */
  lemma EntryFrames(id: Hash, block: Bytes, rest: Bytes)
    requires |block| < TWO32
    requires 36 + |block| + |rest| < TWO63
    ensures ParseEntry(id + (LittleEndian32(|block|) + (block + rest))) == ParseBlock(id, block)
  {
    hide At, ParseBlock, ParseEntry, LittleEndian32, ReadUint32LE;
    var data := id + (LittleEndian32(|block|) + (block + rest));
    EntryChain(data);
    EntrySlices(id, LittleEndian32(|block|), block, rest);
    Uint32ReadsBack(data, 32, |block|);
  }

  /**
   * The entry of a block, with any bytes after it, parses to exactly the fields a share keeps, if and only if the
   * boundary survives; the only other way is a misread boundary at which the whole sidechain part reads alike.
   */
  lemma EntryReadsBack(id: Hash, b: Block, rest: Bytes)
    requires ValidBlock(b) && |SerializeEntry(id, b, rest)| < TWO63
    ensures var data, parsed := SerializeBlock(b), ParseEntry(SerializeEntry(id, b, rest));
            && (parsed == Ok(Kept(id, b))
                <==> BoundaryFound(data, b).Ok? && ReadsAlike(data, b, BoundaryFound(data, b).value))
            && (BoundarySurvives(data, b) ==> parsed == Ok(Kept(id, b)))
            && (!KeysRecur(data, b) ==> (parsed == Ok(Kept(id, b)) <==> BoundarySurvives(data, b)))
  {
    BlockReadsBack(id, b);
    hide SerializeBlock, ParseBlock, ParseEntry, Kept, ReadsAlike, KeysRecur, BoundaryFound, BoundarySurvives;
    EntryFrames(id, SerializeBlock(b), rest);
  }

  // ---------------------------------------------------------------------------------------------
  // A block the lookahead gets wrong
  // ---------------------------------------------------------------------------------------------

  function Zeros(n: nat): (bytes: Bytes)
    ensures |bytes| == n
    ensures forall i :: 0 <= i < n ==> bytes[i] == 0
  {
    seq(n, _ => 0)
  }

  /** Four transactions, the first hash of which continues `04` to an empty protocol transaction. */
  function ConfusingHash(): Hash {
    [60, 1, 0xff] + Zeros(29)
  }

  function SomeKey(): Hash {
    [1] + Zeros(31)
  }

  function ConfusingBlock(): Block {
    var none, zero := Difficulty(0, 0), ZeroHash();
    Block(10, 0, 0, zero, 0, 0, 0, Compact(0, 0, zero), [], 0, 0, 0, None, [ConfusingHash(), zero, zero, zero],
          Sidechain(Address(SomeKey(), zero), zero, zero, [], 0, none, none, [], [], [0, 0, 0, 0]))
  }

  lemma SmallVarint(data: Bytes, offset: int)
    requires 0 <= offset < |data| && data[offset] < 0x80
    ensures VarintAt(data, offset) == Ok((data[offset], offset + 1))
  {
    assert EncodeVarint(data[offset]) == data[offset..offset + 1];
    VarintReadsBack(data, offset, data[offset]);
  }

  lemma MisreadAsProtocolTx(data: Bytes, o: int)
    requires 0 <= o && o + 11 <= |data| < TWO63
    requires data[o] == 4 && data[o + 1] == 60 && data[o + 2] == 1 && data[o + 3] == 0xff
    requires forall i :: o + 4 <= i < o + 11 ==> data[i] == 0
    ensures ProtocolTxEnd(data, o) == Ok(o + 9)
    ensures SkipTransactions(data, o + 9) == Ok(o + 10)
  {
    hide VarintAt, SkipBytes, ToInt;
    SmallVarint(data, o);
    SmallVarint(data, o + 1);
    SmallVarint(data, o + 2);
    SmallVarint(data, o + 4);
    SmallVarint(data, o + 5);
    SmallVarint(data, o + 6);
    SmallVarint(data, o + 7);
    SmallVarint(data, o + 9);
    SizeFits(0);
  }

  /** Where the bytes of the first of four transaction hashes stand. */
  lemma FirstHashAt(data: Bytes, o: int, hashes: seq<Hash>)
    requires |hashes| == 4 && At(data, o, EncodeVarint(4) + SerializeHashes(hashes))
    ensures o >= 0 && o + 129 <= |data| && data[o] == 4
    ensures forall i :: 0 <= i < 32 ==> data[o + 1 + i] == hashes[0][i]
  {
    AtSplit(data, o, [4], SerializeHashes(hashes));
    HashesPrefix(hashes, 3);
    var part := SerializeHashes(hashes);
    assert SerializeHashes(hashes[..1]) == hashes[0] by {
      assert hashes[..1][..0] == [];
    }
    forall i | 0 <= i < 32
      ensures data[o + 1 + i] == hashes[0][i]
    {
      assert data[o + 1..o + 1 + |part|][i] == data[o + 1 + i];
      assert part[i] == part[..32][i];
    }
    assert data[o..o + 1][0] == data[o];
  }

  lemma ConfusingBytes(data: Bytes, o: nat)
    requires o + 33 <= |data| && forall i :: 0 <= i < 32 ==> data[o + 1 + i] == ConfusingHash()[i]
    ensures data[o + 1] == 60 && data[o + 2] == 1 && data[o + 3] == 0xff
    ensures forall i :: o + 4 <= i < o + 33 ==> data[i] == 0
  {
    forall i | o + 4 <= i < o + 33
      ensures data[i] == 0
    {
      assert data[o + 1 + (i - o - 1)] == ConfusingHash()[i - o - 1];
    }
    var h := ConfusingHash();
    assert h[0] == 60 && h[1] == 1 && h[2] == 0xff;
    assert data[o + 1 + 0] == h[0] && data[o + 1 + 1] == h[1] && data[o + 1 + 2] == h[2];
  }

  lemma TransactionsMisread(data: Bytes, o: int, b: Block)
    requires At(data, o, SerializeTransactions(b)) && |data| < TWO63
    requires |b.transactions| == 4 && b.transactions[0] == ConfusingHash()
    ensures ProtocolTxEnd(data, o) == Ok(o + 9)
    ensures SkipTransactions(data, o + 9) == Ok(o + 10)
    ensures |SerializeTransactions(b)| == 129 && o + 10 < |data| && data[o + 10] == 0
  {
    hide At, SerializeHashes, ProtocolTxEnd, SkipTransactions;
    FirstHashAt(data, o, b.transactions);
    ConfusingBytes(data, o);
    MisreadAsProtocolTx(data, o);
  }

  /** On such a block the parser stops 119 bytes before the boundary, inside the first hash. */
  lemma LookaheadMisleads(data: Bytes, b: Block)
    requires ValidBlock(b) && Guessing(b) && At(data, 0, SerializeMainchain(b))
    requires |SerializeMainchain(b)| + 128 <= |data| < TWO63
    requires |b.transactions| == 4 && b.transactions[0] == ConfusingHash()
    ensures BoundaryFound(data, b) == Ok(|SerializeMainchain(b)| - 119) && !BoundarySurvives(data, b)
    ensures ParseMainchain(data) == Ok((HeaderFields(b), |SerializeMainchain(b)| - 119))
    ensures 0 <= |SerializeMainchain(b)| - 119 < |data| && data[|SerializeMainchain(b)| - 119] == 0
  {
    hide At, SerializeMainchain, SerializeHeader, SerializeOutputs, SerializeExtra, SerializeTransactions,
         ProtocolTxEnd, SkipTransactions, ToInt, ParseMainchain;
    var o := OptionalAt(b);
    SectionsPresent(data, b);
    TransactionsMisread(data, o, b);
    UpToOptional(data, b);
    SizeFits(o + 2);
  }

  lemma {:induction false} HashesPrefix(hashes: seq<Hash>, k: nat)
    requires k < |hashes|
    ensures SerializeHashes(hashes)[..32] == SerializeHashes(hashes[..1])
    decreases |hashes|
  {
    if |hashes| == 1 {
      assert hashes[..1] == hashes;
    } else {
      var init := hashes[..|hashes| - 1];
      HashesPrefix(init, 0);
      assert init[..1] == hashes[..1];
      assert SerializeHashes(hashes)[..32] == SerializeHashes(init)[..32];
    }
  }

  lemma ConfusingSizes()
    ensures |SerializeMainchain(ConfusingBlock())| < 0x1000
    ensures |SerializeSidechain(ConfusingBlock().side)| < 0x1000
  {
    var b := ConfusingBlock();
    assert |SerializeHeader(b)| == 44;
    assert |SerializeOutputs(b.outputs)| == 35;
    assert |SerializeExtra(b)| == 4;
    assert |SerializeTransactions(b)| == 129;
    assert |SerializeIdentity(b.side)| == 129;
    assert |SerializeWork(b.side)| == 5;
    assert |SerializeProofs(b.side)| == 18;
  }

  lemma Misled(b: Block)
    requires ValidBlock(b) && Guessing(b) && |b.transactions| == 4 && b.transactions[0] == ConfusingHash()
    ensures !Unambiguous(b)
    ensures var data, o := SerializeBlock(b), |SerializeMainchain(b)| - 119;
            && ParseMainchain(data) == Ok((HeaderFields(b), o)) && BoundaryFound(data, b) == Ok(o)
            && !BoundarySurvives(data, b) && 0 <= o < |data| && data[o] == 0
  {
    var data, main, side := SerializeBlock(b), SerializeMainchain(b), SerializeSidechain(b.side);
    SidechainLength(b.side);
    hide At, SerializeMainchain, SerializeSidechain, ParseMainchain, ProtocolTxEnd, SkipTransactions, ValidSidechain,
         SerializeHeader, SerializeOutputs, SerializeExtra, ConfusingHash;
    WholeIsAt(data, 0, main + side);
    AtSplit(data, 0, main, side);
    LookaheadMisleads(data, b);
  }

  /** Whatever the rest of such a block, its share is not recovered if its first key does not begin with a zero. */
  lemma ShareLost(id: Hash, b: Block, rest: Bytes)
    requires ValidBlock(b) && Guessing(b) && |b.transactions| == 4 && b.transactions[0] == ConfusingHash()
    requires b.side.minerWallet.spendPublicKey[0] != 0 && |SerializeEntry(id, b, rest)| < TWO63
    ensures ParseEntry(SerializeEntry(id, b, rest)) != Ok(Kept(id, b))
  {
    hide SerializeBlock, SerializeMainchain, ParseMainchain, ParseEntry, SerializeEntry, Unambiguous, ConfusingHash,
         At, SerializeKeys, ReadsAlike, Kept, BoundaryFound, HeaderFields;
    Misled(b);
    EntryReadsBack(id, b, rest);
    var data, o := SerializeBlock(b), |SerializeMainchain(b)| - 119;
    KeysBegin(data, o, b.side);
  }

  lemma KeysBegin(data: Bytes, o: nat, s: Sidechain)
    requires o < |data|
    ensures At(data, o, SerializeKeys(s)) ==> data[o] == s.minerWallet.spendPublicKey[0]
  {
    if At(data, o, SerializeKeys(s)) {
      assert data[o..o + |SerializeKeys(s)|][0] == data[o];
    }
  }

  /** The condition on the lookahead cannot be dropped: here is a valid block whose share is not recovered. */
  lemma LookaheadCanMislead(id: Hash, rest: Bytes)
    requires |rest| < TWO32
    ensures ValidBlock(ConfusingBlock()) && !Unambiguous(ConfusingBlock())
    ensures var data, b := SerializeBlock(ConfusingBlock()), ConfusingBlock();
            ParseMainchain(data) == Ok((HeaderFields(b), |SerializeMainchain(b)| - 119))
    ensures ParseEntry(SerializeEntry(id, ConfusingBlock(), rest)) != Ok(Kept(id, ConfusingBlock()))
  {
    ConfusingSizes();
    hide SerializeMainchain, SerializeSidechain, ParseMainchain, Unambiguous, ConfusingHash, ParseEntry, Kept;
    Misled(ConfusingBlock());
    ShareLost(id, ConfusingBlock(), rest);
  }
}
