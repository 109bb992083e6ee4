/** What the bytes of an entry hold whenever its parser accepts them. */
module Accepted {
  import opened GoInt
  import opened Wire
  import opened Shares
  import opened Parsing
  import opened Layout
  import opened Panics

  /** The documented header, with its three constant bytes, up to `o`; numbers in any spelling. */
  ghost predicate HeaderReads(data: Bytes, m: Mainchain, o: int) {
    && |data| >= 40 && data[0] == m.majorVersion && data[1] == m.minorVersion
    && exists t: nat, u: nat ::
         && VarintAt(data, 2) == Ok((m.timestamp, t))
         && At(data, t, m.prevId) && At(data, t + 32, LittleEndian32(m.nonce)) && At(data, t + 36, [4])
         && VarintAt(data, t + 37).Ok? && VarintAt(data, t + 37).value.1 == u
         && At(data, u, [1]) && At(data, u + 1, [0xff])
         && VarintAt(data, u + 2) == Ok((m.height, o))
  }

  lemma CoinbaseExact(data: Bytes, offset: nat, height: uint64, o: int)
    ensures CoinbaseInput(data, offset) == Ok((height, o))
            <==> && At(data, offset, [4])
                 && VarintAt(data, offset + 1).Ok?
                 && var u := VarintAt(data, offset + 1).value.1;
                    && At(data, u, [1]) && At(data, u + 1, [0xff])
                    && VarintAt(data, u + 2) == Ok((height, o))
  {
    hide VarintAt;
    ByteExact(data, offset, 4);
    if VarintAt(data, offset + 1).Ok? {
      VarintConsumes(data, offset + 1);
      var u := VarintAt(data, offset + 1).value.1;
      ByteExact(data, u, 1);
      ByteExact(data, u + 1, 0xff);
    }
  }

  lemma ByteExact(data: Bytes, o: nat, b: uint8)
    ensures ReadByte(data, o) == Ok((b, o + 1)) <==> At(data, o, [b])
    ensures ReadByte(data, o).Ok? ==> ReadByte(data, o).value.1 == o + 1
  {
    if o < |data| {
      assert data[o..o + 1] == [data[o]];
    }
  }

  /** A header is accepted exactly if it reads so. */
  lemma HeaderExact(data: Bytes, m: Mainchain, o: int)
    requires |data| < TWO63
    ensures Header(data) == Ok((m, o)) <==> HeaderReads(data, m, o)
  {
    hide VarintAt, At, ReadHash, ReadUint32LE, CoinbaseInput, LittleEndian32;
    if Header(data) == Ok((m, o)) {
      var t := VarintAt(data, 2).value.1;
      Positive(data, 2);
      var (prevId, p) := ReadHash(data, t).value;
      assert prevId == m.prevId && p == t + 32;
      var (nonce, q) := ReadUint32LE(data, p).value;
      assert nonce == m.nonce && q == t + 36;
      var coinbase := CoinbaseInput(data, q);
      assert coinbase.Ok?;
      assert coinbase.value.0 == m.height;
      assert coinbase.value.1 == o;
      CoinbaseExact(data, t + 36, m.height, o);
      Positive(data, t + 37);
      var u := VarintAt(data, t + 37).value.1;
      assert VarintAt(data, 2) == Ok((m.timestamp, t)) && At(data, t, m.prevId);
      assert At(data, t + 32, LittleEndian32(m.nonce)) && At(data, t + 36, [4]);
      assert At(data, u, [1]) && At(data, u + 1, [0xff]) && VarintAt(data, u + 2) == Ok((m.height, o));
    }
    if HeaderReads(data, m, o) {
      var t: nat, u: nat :|
         && VarintAt(data, 2) == Ok((m.timestamp, t))
         && At(data, t, m.prevId) && At(data, t + 32, LittleEndian32(m.nonce)) && At(data, t + 36, [4])
         && VarintAt(data, t + 37).Ok? && VarintAt(data, t + 37).value.1 == u
         && At(data, u, [1]) && At(data, u + 1, [0xff])
         && VarintAt(data, u + 2) == Ok((m.height, o));
      HashReadsBack(data, t, m.prevId);
      Uint32ReadsBack(data, t + 32, m.nonce);
      CoinbaseExact(data, t + 36, m.height, o);
    }
  }

  lemma Positive(data: Bytes, o: nat)
    ensures VarintAt(data, o).Ok? ==> 0 < VarintAt(data, o).value.1 <= |data|
  {
    if VarintAt(data, o).Ok? {
      VarintConsumes(data, o);
    }
  }

  lemma {:induction false} HashesStand(data: Bytes, offset: nat, count: nat)
    requires ReadHashes(data, offset, count).Ok? && offset <= |data|
    ensures var (hashes, o) := ReadHashes(data, offset, count).value;
            && |hashes| == count && o == offset + 32 * count && At(data, offset, SerializeHashes(hashes))
    decreases count
  {
    hide ReadHash;
    if count > 0 {
      HashesStand(data, offset, count - 1);
      var (before, o) := ReadHashes(data, offset, count - 1).value;
      var h := ReadHash(data, o).value.0;
      assert (before + [h])[..|before|] == before;
      JoinAt(data, offset, SerializeHashes(before), h);
    }
  }

  lemma JoinAt(data: Bytes, offset: nat, first: Bytes, second: Bytes)
    requires At(data, offset, first) && At(data, offset + |first|, second)
    ensures At(data, offset, first + second)
  {
    assert data[offset..offset + |first| + |second|]
        == data[offset..offset + |first|] + data[offset + |first|..offset + |first| + |second|];
  }

  /** At most ten uncles are accepted, and they stand after their number, which stands after the keys. */
  lemma UnclesStand(data: Bytes, share: Share, s: Share)
    requires ParseSidechain(data, share) == Ok(s)
    ensures |s.uncles| <= 10
    ensures exists p: nat :: VarintAt(data, 128) == Ok((|s.uncles|, p)) && At(data, p, SerializeHashes(s.uncles))
  {
    hide VarintAt, ReadHashes, ReadWork, ReadProofs, SerializeHashes, At, ReadHash, ParseSidechain;
    SectionsChain(data, share);
    UnclesRead(data, share);
    var identified := ReadIdentity(data, share).value.0;
    assert s.uncles == identified.uncles;
    var (count, p) := VarintAt(data, 128).value;
    Positive(data, 128);
    HashesStand(data, p, count);
  }

  lemma UnclesRead(data: Bytes, share: Share)
    requires ReadIdentity(data, share).Ok?
    ensures VarintAt(data, 128).Ok?
    ensures var (count, p) := VarintAt(data, 128).value;
            && count <= 10 && ReadHashes(data, p, count).Ok?
            && ReadIdentity(data, share).value.0.uncles == ReadHashes(data, p, count).value.0
  {
    hide VarintAt, ReadHashes, At;
  }

  /**
   * Whatever entry is accepted: it announces a block that is there and of a known version, the share is filed under
   * the prepended id, the block begins with the header of the share, and the share has at most ten uncles.
   */
  lemma EntryAccepted(data: Bytes, s: Share)
    requires |data| < TWO63 && ParseEntry(data) == Ok(s)
    ensures Announced(data).Some? && |Announced(data).value| >= 40
    ensures 1 <= Announced(data).value[0] <= 20
    ensures s.sidechainId == data[..32] && |s.uncles| <= 10
    ensures exists o: int :: HeaderReads(Announced(data).value,
              Mainchain(s.majorVersion, s.minorVersion, s.timestamp, s.prevId, s.nonce, s.mainchainHeight), o)
  {
    hide ParseBlock, ParseEntry, ParseMainchain, ParseSidechain, FromLittleEndian32, HeaderReads, Header;
    EntryChain(data);
    var block := Announced(data).value;
    BlockChain(data[..32], block);
    var (m, o) := ParseMainchain(block).value;
    UnclesStand(block[o..], Fresh(data[..32], m), s);
    SidechainKeeps(block[o..], Fresh(data[..32], m), s);
    MainchainHeader(block);
    HeaderExact(block, m, Header(block).value.1);
    HeaderLong(block, m, Header(block).value.1);
  }

  lemma HeaderLong(block: Bytes, m: Mainchain, o: int)
    requires HeaderReads(block, m, o)
    ensures |block| >= 40
  {
  }

  lemma MainchainHeader(block: Bytes)
    requires ParseMainchain(block).Ok?
    ensures Header(block).Ok? && ParseMainchain(block).value.0 == Header(block).value.0
  {
    hide Header, SkipOutputs, SkipExtra, Lookahead, SkipTransactions, ToInt;
  }

  /** The sidechain part sets no field that the mainchain part has set. */
  lemma SidechainKeeps(data: Bytes, share: Share, s: Share)
    requires ParseSidechain(data, share) == Ok(s)
    ensures s.sidechainId == share.sidechainId && s.majorVersion == share.majorVersion
    ensures s.minorVersion == share.minorVersion && s.timestamp == share.timestamp && s.prevId == share.prevId
    ensures s.nonce == share.nonce && s.mainchainHeight == share.mainchainHeight
  {
    hide ReadIdentity, ReadWork, ReadProofs, ParseSidechain;
    SectionsChain(data, share);
  }
}
