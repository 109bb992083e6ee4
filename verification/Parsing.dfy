/** What parsing a cache entry yields, as functions of the bytes. */
module Parsing {
  import opened GoInt
  import opened Wire
  import opened Difficulties
  import opened Shares

  /** The fields the mainchain part contributes to a share. */
  datatype Mainchain = Mainchain(majorVersion: uint8, minorVersion: uint8, timestamp: uint64,
                                 prevId: Hash, nonce: uint32, height: uint64)

  /** The coinbase transaction up to its one input, whose height is the mainchain height. */
  function CoinbaseInput(data: Bytes, offset: int): Outcome<(uint64, int)> {
    var (txVersion, o) :- ReadByte(data, offset);
    if txVersion != 4 then Failed else
    var (_, o) :- VarintAt(data, o);
    var (inputCount, o) :- ReadByte(data, o);
    if inputCount != 1 then Failed else
    var (txinType, o) :- ReadByte(data, o);
    if txinType != 0xff then Failed else
    VarintAt(data, o)
  }

  function Header(data: Bytes): Outcome<(Mainchain, int)> {
    if |data| < 40 then Failed else
    var (timestamp, o) :- VarintAt(data, 2);
    var (prevId, o) :- ReadHash(data, o);
    var (nonce, o) :- ReadUint32LE(data, o);
    var (height, o) :- CoinbaseInput(data, o);
    Ok((Mainchain(data[0], data[1], timestamp, prevId, nonce, height), o))
  }

  function SkipOutput(data: Bytes, offset: int): Outcome<int> {
    var (_, o) :- VarintAt(data, offset);
    var o :- SkipBytes(data, o, 1);
    var o :- SkipBytes(data, o, 32);
    var (assetLen, o) :- ReadByte(data, o);
    var o :- SkipBytes(data, o, assetLen);
    var o :- SkipBytes(data, o, 3);
    SkipBytes(data, o, 16)
  }

  function SkipFull(data: Bytes, offset: int, count: nat): Outcome<int>
    decreases count
  {
    if count == 0 then Ok(offset) else
    var o :- SkipOutput(data, offset);
    SkipFull(data, o, count - 1)
  }

  function SkipCompact(data: Bytes, offset: int): Outcome<int> {
    var (_, o) :- VarintAt(data, offset);
    var (_, o) :- VarintAt(data, o);
    SkipBytes(data, o, 32)
  }

  function SkipOutputs(data: Bytes, offset: int): Outcome<int> {
    var (count, o) :- VarintAt(data, offset);
    if count > 0 then SkipFull(data, o, count) else SkipCompact(data, o)
  }

  function SkipExtra(data: Bytes, offset: int): Outcome<int> {
    var (size, o) :- VarintAt(data, offset);
    var o :- SkipBytes(data, o, ToInt(size));
    var (_, o) :- VarintAt(data, o);
    var (_, o) :- VarintAt(data, o);
    SkipBytes(data, o, 1)
  }

  function SkipProtocolOutputs(data: Bytes, offset: int, count: nat): Outcome<int>
    decreases count
  {
    if count == 0 then Ok(offset) else
    var (_, o) :- VarintAt(data, offset);
    var o :- SkipBytes(data, o, 33);
    SkipProtocolOutputs(data, o, count - 1)
  }

  /** The part of a protocol transaction that identifies it, up to its height. */
  function ProtocolHeadEnd(data: Bytes, offset: int): Outcome<int> {
    var (version, o) :- VarintAt(data, offset);
    if version != 4 then Failed else
    var (unlockTime, o) :- VarintAt(data, o);
    if unlockTime != 60 then Failed else
    var (vinSize, o) :- VarintAt(data, o);
    if vinSize != 1 then Failed else
    var (txinType, o) :- ReadByte(data, o);
    if txinType != 0xff then Failed else
    var (_, o) :- VarintAt(data, o);
    Ok(o)
  }

  function ProtocolBodyEnd(data: Bytes, offset: int): Outcome<int> {
    var (voutSize, o) :- VarintAt(data, offset);
    var o :- SkipProtocolOutputs(data, o, voutSize);
    var (extraSize, o) :- VarintAt(data, o);
    var o :- SkipBytes(data, o, ToInt(extraSize));
    var (_, o) :- VarintAt(data, o);
    SkipBytes(data, o, 1)
  }

  /** Where a protocol transaction starting at `offset` ends, if the bytes parse as one. */
  function ProtocolTxEnd(data: Bytes, offset: int): Outcome<int> {
    var o :- ProtocolHeadEnd(data, offset);
    ProtocolBodyEnd(data, o)
  }

  /** The optional section: skipped when it parses, left alone when it does not. */
  function Lookahead(data: Bytes, offset: int): Outcome<int> {
    if ToInt(offset + 2) >= |data| then Ok(offset)
    else match ProtocolTxEnd(data, offset)
      case Ok(o) => Ok(o)
      case Failed => Ok(offset)
      case Panicked => Panicked
  }

  function SkipTransactions(data: Bytes, offset: int): Outcome<int> {
    var (count, o) :- VarintAt(data, offset);
    SkipBytes(data, o, ToInt(ToInt(count) * 32))
  }

  /** The mainchain fields and the offset at which the sidechain part begins. */
  function ParseMainchain(data: Bytes): Outcome<(Mainchain, int)> {
    var (fields, o) :- Header(data);
    var o :- SkipOutputs(data, o);
    var o :- SkipExtra(data, o);
    var o :- if fields.majorVersion >= 10 && ToInt(o + 2) < |data| then Lookahead(data, o) else Ok(o);
    var o :- SkipTransactions(data, o);
    Ok((fields, o))
  }

  function ReadHashes(data: Bytes, offset: int, count: nat): Outcome<(seq<Hash>, int)>
    decreases count
  {
    if count == 0 then Ok(([], offset)) else
    var (hashes, o) :- ReadHashes(data, offset, count - 1);
    var (h, o) :- ReadHash(data, o);
    Ok((hashes + [h], o))
  }

  /** `make([]byte, n)` and the copy that follows it; a length beyond the address space panics. */
  function ReadBlob(data: Bytes, offset: int, n: uint64): Outcome<(Bytes, int)> {
    var stop := ToInt(offset + ToInt(n));
    if stop > |data| then Failed
    else if !(0 <= offset <= stop) || ToInt(n) < 0 then Panicked
    else Ok((data[offset..stop], stop))
  }

  function MergeMiningEntry(data: Bytes, offset: int): Outcome<((Hash, Bytes), int)> {
    var (chainId, o) :- ReadHash(data, offset);
    var (size, o) :- VarintAt(data, o);
    var (blob, o) :- ReadBlob(data, o, size);
    Ok(((chainId, blob), o))
  }

  function ReadMergeMining(data: Bytes, offset: int, count: nat): Outcome<(map<Hash, Bytes>, int)>
    decreases count
  {
    if count == 0 then Ok((map[], offset)) else
    var (extra, o) :- ReadMergeMining(data, offset, count - 1);
    var ((chainId, blob), o) :- MergeMiningEntry(data, o);
    Ok((extra[chainId := blob], o))
  }

  function ReadDifficulty(data: Bytes, offset: int): Outcome<(Difficulty, int)> {
    var (lo, o) :- VarintAt(data, offset);
    var (hi, o) :- VarintAt(data, o);
    Ok((Difficulty(lo, hi), o))
  }

  function ReadExtraBuf(data: Bytes, offset: int): Outcome<seq<uint32>> {
    if ToInt(offset + 16) > |data| then Failed else
    var (w0, _) :- ReadUint32LE(data, offset);
    var (w1, _) :- ReadUint32LE(data, offset + 4);
    var (w2, _) :- ReadUint32LE(data, offset + 8);
    var (w3, _) :- ReadUint32LE(data, offset + 12);
    Ok([w0, w1, w2, w3])
  }

  function ReadIdentity(data: Bytes, share: Share): (r: Outcome<(Share, int)>)
    ensures r.Ok? ==> var s := r.value.0;
      s == share.(minerWallet := s.minerWallet, txkeySecSeed := s.txkeySecSeed, parent := s.parent, uncles := s.uncles)
  {
    var (spend, o) :- ReadHash(data, 0);
    var (view, o) :- ReadHash(data, o);
    var (seed, o) :- ReadHash(data, o);
    var (parent, o) :- ReadHash(data, o);
    var (uncleCount, o) :- VarintAt(data, o);
    if uncleCount > 10 then Failed else
    var (uncles, o) :- ReadHashes(data, o, uncleCount);
    Ok((share.(minerWallet := Address(spend, view), txkeySecSeed := seed, parent := parent, uncles := uncles), o))
  }

  function ReadWork(data: Bytes, offset: int, share: Share): (r: Outcome<(Share, int)>)
    ensures r.Ok? ==> var s := r.value.0;
      s == share.(sidechainHeight := s.sidechainHeight, difficulty := s.difficulty,
                  cumulativeDifficulty := s.cumulativeDifficulty)
  {
    var (height, o) :- VarintAt(data, offset);
    var (difficulty, o) :- ReadDifficulty(data, o);
    var (cumulative, o) :- ReadDifficulty(data, o);
    Ok((share.(sidechainHeight := height, difficulty := difficulty, cumulativeDifficulty := cumulative), o))
  }

  function ReadProofs(data: Bytes, offset: int, share: Share): (r: Outcome<Share>)
    ensures r.Ok? ==> var s := r.value;
      s == share.(merkleProof := s.merkleProof, mergeMiningExtra := s.mergeMiningExtra,
                  sidechainExtraBuf := s.sidechainExtraBuf)
  {
    var (merkleCount, o) :- ReadByte(data, offset);
    var (proof, o) :- ReadHashes(data, o, merkleCount);
    var (mmCount, o) :- VarintAt(data, o);
    var (extra, o) :- ReadMergeMining(data, o, mmCount);
    var extraBuf :- ReadExtraBuf(data, o);
    Ok(share.(merkleProof := proof, mergeMiningExtra := extra, sidechainExtraBuf := extraBuf))
  }

  /** The share with the sidechain fields filled in. */
  function ParseSidechain(data: Bytes, share: Share): Outcome<Share> {
    if |data| < 128 then Failed else
    var (share, o) :- ReadIdentity(data, share);
    var (share, o) :- ReadWork(data, o, share);
    ReadProofs(data, o, share)
  }

  /** The share before its sidechain fields are read. */
  function Fresh(id: Hash, m: Mainchain): Share {
    Share(id, m.majorVersion, m.minorVersion, m.timestamp, m.prevId, m.nonce, m.height,
          Address(ZeroHash(), ZeroHash()), ZeroHash(), ZeroHash(), [], 0,
          Difficulty(0, 0), Difficulty(0, 0), [], map[], [0, 0, 0, 0])
  }

  /** Formatting the version error reads the first byte, which an empty block lacks. */
  function ParseBlock(id: Hash, block: Bytes): Outcome<Share> {
    if |block| == 0 then Panicked
    else if |block| < 2 || block[0] < 1 || block[0] > 20 then Failed
    else
      var (m, offset) :- ParseMainchain(block);
      if offset < 0 || offset >= |block| then Failed
      else ParseSidechain(block[offset..], Fresh(id, m))
  }

  /** The whole entry. */
  function ParseEntry(data: Bytes): Outcome<Share> {
    if |data| < 36 then Failed else
    var (totalLen, _) :- ReadUint32LE(data, 32);
    var expectedEnd := 36 + totalLen as int;
    if |data| < expectedEnd then Failed
    else ParseBlock(data[..32], data[36..expectedEnd])
  }

  // The sequencing operators of the three functions above, spelled out.

  lemma SectionsChain(data: Bytes, before: Share)
    ensures ParseSidechain(data, before) ==
      if |data| < 128 then Failed
      else match ReadIdentity(data, before)
        case Failed => Failed
        case Panicked => Panicked
        case Ok((identified, o)) =>
          match ReadWork(data, o, identified)
          case Failed => Failed
          case Panicked => Panicked
          case Ok((worked, o)) => ReadProofs(data, o, worked)
  {
  }

  lemma EntryChain(data: Bytes)
    ensures ParseEntry(data) ==
      if |data| < 36 then Failed
      else match ReadUint32LE(data, 32)
        case Failed => Failed
        case Panicked => Panicked
        case Ok((totalLen, _)) =>
          if |data| < 36 + totalLen then Failed else ParseBlock(data[..32], data[36..36 + totalLen])
  {
  }

  lemma BlockChain(id: Hash, block: Bytes)
    ensures ParseBlock(id, block) ==
      if |block| == 0 then Panicked
      else if |block| < 2 || block[0] < 1 || block[0] > 20 then Failed
      else match ParseMainchain(block)
        case Failed => Failed
        case Panicked => Panicked
        case Ok((m, o)) =>
          if o < 0 || o >= |block| then Failed else ParseSidechain(block[o..], Fresh(id, m))
  {
  }
}
