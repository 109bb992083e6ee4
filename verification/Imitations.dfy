/** Which blocks the lookahead cannot mistake, said of the bytes of one transaction hash. */
module Imitations {
  import opened GoInt
  import opened Wire
  import opened Parsing
  import opened Layout
  import opened RoundTrip
  import opened Panics

  // ---------------------------------------------------------------------------------------------
  // Spellings of a small number
  // ---------------------------------------------------------------------------------------------

  /**
   * The bytes are a varint of `n`: `n` itself, or `n` with the continuation bit, more bytes `80`, and an end. The
   * end is a zero, or in the tenth place, where all but one bit fall off, any even byte.
   */
  predicate Spells(bytes: Bytes, n: nat) {
    || bytes == [n]
    || (&& 2 <= |bytes| <= 10 && bytes[0] == n + 0x80
        && (forall i :: 1 <= i < |bytes| - 1 ==> bytes[i] == 0x80)
        && if |bytes| < 10 then bytes[|bytes| - 1] == 0
           else bytes[|bytes| - 1] < 0x80 && bytes[|bytes| - 1] % 2 == 0)
  }

  lemma {:induction false} ZeroDigits(bytes: Bytes)
    ensures DigitSum(bytes) == 0 <==> forall i :: 0 <= i < |bytes| ==> bytes[i] % 0x80 == 0
  {
    if bytes != [] {
      ZeroDigits(bytes[1..]);
      if forall i :: 0 <= i < |bytes[1..]| ==> bytes[1..][i] % 0x80 == 0 {
        forall i | 1 <= i < |bytes|
          ensures bytes[i] % 0x80 == 0
        {
          assert bytes[i] == bytes[1..][i - 1];
        }
      }
    }
  }

  lemma SmallSum(bytes: Bytes, n: nat)
    requires bytes != [] && n < 0x80
    ensures DigitSum(bytes) == n
            <==> bytes[0] % 0x80 == n && forall i :: 1 <= i < |bytes| ==> bytes[i] % 0x80 == 0
  {
    ZeroDigits(bytes[1..]);
    if forall i :: 0 <= i < |bytes[1..]| ==> bytes[1..][i] % 0x80 == 0 {
      forall i | 1 <= i < |bytes|
        ensures bytes[i] % 0x80 == 0
      {
        assert bytes[i] == bytes[1..][i - 1];
      }
    }
  }

  lemma TopBit(low: nat, b: uint8)
    requires low < TWO63
    ensures (low + b % 0x80 * TWO63) % TWO64 == low + b % 2 * TWO63
  {
    var d: nat := b % 0x80;
    QuotientUnique(low + d * TWO63, TWO64, d / 2, low + d % 2 * TWO63);
  }

  lemma SumBelow(bytes: Bytes)
    requires |bytes| <= 9
    ensures DigitSum(bytes) < TWO63 && DigitSum(bytes) % TWO64 == DigitSum(bytes)
  {
    hide DigitSum, Pow2;
    DigitSumAppend(bytes, 0);
    Pow2Monotone(7 * |bytes|, 63);
    Pow2Of63();
    QuotientUnique(DigitSum(bytes), TWO64, 0, DigitSum(bytes));
  }

  /** The value of ten bytes in a 64-bit register: of the tenth only the lowest bit counts. */
  lemma RegisterSum(bytes: Bytes)
    requires |bytes| == 10
    ensures DigitSum(bytes) % TWO64 == DigitSum(bytes[..9]) + bytes[9] % 2 * TWO63
  {
    hide DigitSum, Pow2;
    SumBelow(bytes[..9]);
    DigitSumAppend(bytes[..9], bytes[9]);
    assert bytes[..9] + [bytes[9]] == bytes;
    Pow2Of63();
    TopBit(DigitSum(bytes[..9]), bytes[9]);
  }

  lemma SpelledSum(bytes: Bytes, n: nat)
    requires 1 <= |bytes| <= 10 && n < 0x80
    requires bytes[|bytes| - 1] < 0x80 && forall i :: 0 <= i < |bytes| - 1 ==> bytes[i] >= 0x80
    ensures DigitSum(bytes) % TWO64 == n <==> Spells(bytes, n)
  {
    hide DigitSum;
    if |bytes| < 10 {
      SumBelow(bytes);
      SmallSum(bytes, n);
      PlainDigits(bytes, n);
    } else {
      RegisterSum(bytes);
      SumBelow(bytes[..9]);
      SmallSum(bytes[..9], n);
      PlainDigits(bytes, n);
    }
  }

  /** Under the continuation bits stand `n`, then nothing. */
  lemma PlainDigits(bytes: Bytes, n: nat)
    requires 1 <= |bytes| <= 10 && n < 0x80
    requires bytes[|bytes| - 1] < 0x80 && forall i :: 0 <= i < |bytes| - 1 ==> bytes[i] >= 0x80
    ensures |bytes| < 10 ==>
      (Spells(bytes, n) <==> bytes[0] % 0x80 == n && forall i :: 1 <= i < |bytes| ==> bytes[i] % 0x80 == 0)
    ensures |bytes| == 10 ==>
      (Spells(bytes, n) <==> && bytes[0] % 0x80 == n && bytes[9] % 2 == 0
                             && forall i :: 1 <= i < 9 ==> bytes[..9][i] % 0x80 == 0)
  {
    forall i | 1 <= i < |bytes| - 1
      ensures bytes[i] % 0x80 == 0 <==> bytes[i] == 0x80
    {
    }
    assert |bytes| == 10 ==> forall i :: 1 <= i < 9 ==> bytes[..9][i] == bytes[i];
  }

  lemma SpellingShape(bytes: Bytes, n: nat)
    requires Spells(bytes, n) && n < 0x80
    ensures 1 <= |bytes| <= 10 && bytes[|bytes| - 1] < 0x80
    ensures forall i :: 0 <= i < |bytes| - 1 ==> bytes[i] >= 0x80
  {
  }

  /** Reading a small number is finding one of its spellings. */
  lemma SmallExact(data: Bytes, o: nat, n: nat, stop: int)
    requires n < 0x80
    ensures VarintAt(data, o) == Ok((n, stop)) <==> o < stop <= |data| && Spells(data[o..stop], n)
  {
    hide DigitSum, VarintAt;
    VarintExact(data, o, n, stop);
    if o < stop <= |data| {
      var bytes := data[o..stop];
      assert forall i :: o <= i < stop ==> data[i] == bytes[i - o];
      if Spells(bytes, n) {
        SpellingShape(bytes, n);
        SpelledSum(bytes, n);
      } else if VarintAt(data, o) == Ok((n, stop)) {
        SpelledSum(bytes, n);
      }
    }
  }

  // ---------------------------------------------------------------------------------------------
  // The head of a protocol transaction
  // ---------------------------------------------------------------------------------------------

  /** From `o` to `p`, `q` and `r` stand spellings of 4, 60 and 1, then the byte `ff`. */
  predicate HeadAt(data: Bytes, o: nat, p: nat, q: nat, r: nat) {
    && o < p < q < r < |data|
    && Spells(data[o..p], 4) && Spells(data[p..q], 60) && Spells(data[q..r], 1)
    && data[r] == 0xff
  }

  /** The lookahead accepts a head exactly if it is one, and a number follows it. */
  lemma ProtocolHeadExact(data: Bytes, o: nat, stop: int)
    ensures ProtocolHeadEnd(data, o) == Ok(stop)
            <==> exists p: nat, q: nat, r: nat ::
                   HeadAt(data, o, p, q, r) && VarintAt(data, r + 1).Ok? && VarintAt(data, r + 1).value.1 == stop
  {
    hide VarintAt, Spells;
    if ProtocolHeadEnd(data, o) == Ok(stop) {
      var p := VarintAt(data, o).value.1;
      SmallExact(data, o, 4, p);
      var q := VarintAt(data, p).value.1;
      SmallExact(data, p, 60, q);
      var r := VarintAt(data, q).value.1;
      SmallExact(data, q, 1, r);
      assert HeadAt(data, o, p, q, r);
    }
    if p: nat, q: nat, r: nat :|
      HeadAt(data, o, p, q, r) && VarintAt(data, r + 1).Ok? && VarintAt(data, r + 1).value.1 == stop
    {
      SmallExact(data, o, 4, p);
      SmallExact(data, p, 60, q);
      SmallExact(data, q, 1, r);
    }
  }

  // ---------------------------------------------------------------------------------------------
  // Blocks without a protocol transaction
  // ---------------------------------------------------------------------------------------------

  /** The hash begins with spellings of 60 and 1 and the byte `ff`. */
  predicate Imitates(h: Hash) {
    exists i, j :: 0 < i < j < 32 && Spells(h[..i], 60) && Spells(h[i..j], 1) && h[j] == 0xff
  }

  /** Only four transactions, the first of which so begins, can pass for a protocol transaction. */
  predicate Mistakable(b: Block) {
    b.protocolTx.None? && b.majorVersion >= 10 && |b.transactions| == 4 && Imitates(b.transactions[0])
  }

  /** Most hashes do not: already the first byte rules all others out. */
  lemma ImitationBegins(h: Hash)
    requires Imitates(h)
    ensures h[0] == 0x3c || h[0] == 0xbc
  {
    var i, j :| 0 < i < j < 32 && Spells(h[..i], 60) && Spells(h[i..j], 1) && h[j] == 0xff;
    assert h[..i][0] == h[0];
  }

  lemma HeadInHash(data: Bytes, o: nat, h: Hash, p: nat, q: nat, r: nat)
    requires HeadAt(data, o, p, q, r) && data[o] == 4
    requires o + 33 <= |data| && forall i :: 0 <= i < 32 ==> data[o + 1 + i] == h[i]
    ensures Imitates(h)
  {
    assert data[o..p][0] == 4;
    assert p == o + 1;
    var i, j := q - o - 1, r - o - 1;
    assert |data[p..q]| <= 10 && |data[q..r]| <= 10;
    hide Spells;
    SameSlice(data, o + 1, h, 0, i);
    SameSlice(data, o + 1, h, i, j);
    assert h[0..i] == h[..i];
    assert h[j] == data[o + 1 + j];
  }

  lemma SameSlice(data: Bytes, start: nat, h: Bytes, i: nat, j: nat)
    requires i <= j <= |h| && start + |h| <= |data|
    requires forall k :: 0 <= k < |h| ==> data[start + k] == h[k]
    ensures h[i..j] == data[start + i..start + j]
  {
    assert forall k :: i <= k < j ==> h[k] == data[start + k];
  }

  lemma LookaheadFails(b: Block)
    requires ValidBlock(b) && Guessing(b) && !Mistakable(b)
    ensures ProtocolTxEnd(SerializeBlock(b), OptionalAt(b)).Failed?
  {
    var data, main, side, o := SerializeBlock(b), SerializeMainchain(b), SerializeSidechain(b.side), OptionalAt(b);
    hide At, SerializeMainchain, SerializeSidechain, SerializeHeader, SerializeOutputs, SerializeExtra, SerializeHashes,
         ProtocolTxEnd, Imitates;
    WholeIsAt(data, 0, main + side);
    AtSplit(data, 0, main, side);
    if |b.transactions| != 4 {
      FourTransactionsNeeded(data, b);
    } else {
      SectionsPresent(data, b);
      FirstHashAt(data, o, b.transactions);
      NoHead(data, o, b.transactions[0]);
    }
  }

  lemma NoHead(data: Bytes, o: nat, h: Hash)
    requires o + 33 <= |data| < TWO32 && data[o] == 4 && forall i :: 0 <= i < 32 ==> data[o + 1 + i] == h[i]
    requires !Imitates(h)
    ensures ProtocolTxEnd(data, o).Failed?
  {
    hide ProtocolHeadEnd, ProtocolBodyEnd, VarintAt, HeadAt, Imitates;
    AllReadersStay(data);
    ProtocolHeadStays(data, o);
    if ProtocolHeadEnd(data, o).Ok? {
      var stop := ProtocolHeadEnd(data, o).value;
      ProtocolHeadExact(data, o, stop);
      var p: nat, q: nat, r: nat :|
        HeadAt(data, o, p, q, r) && VarintAt(data, r + 1).Ok? && VarintAt(data, r + 1).value.1 == stop;
      HeadInHash(data, o, h, p, q, r);
    }
  }

  /**
   * The round trip of cache entries, with a condition on the bytes of a single hash: with a protocol transaction, in
   * an older version, with other than four transactions, or with a first hash that does not begin like one, a block
   * keeps its boundary, and its entry gives back all kept fields.
   */
  lemma EntryRecovered(id: Hash, b: Block, rest: Bytes)
    requires ValidBlock(b) && !Mistakable(b) && |SerializeEntry(id, b, rest)| < TWO63
    ensures ParseMainchain(SerializeBlock(b)) == Ok((HeaderFields(b), |SerializeMainchain(b)|))
    ensures ParseEntry(SerializeEntry(id, b, rest)) == Ok(Kept(id, b))
  {
    var data, main, side := SerializeBlock(b), SerializeMainchain(b), SerializeSidechain(b.side);
    SidechainLength(b.side);
    hide At, SerializeMainchain, SerializeSidechain, ParseMainchain, ParseEntry, ProtocolTxEnd, Kept, Imitates,
         ReadsAlike, KeysRecur;
    WholeIsAt(data, 0, main + side);
    AtSplit(data, 0, main, side);
    if Guessing(b) {
      LookaheadFails(b);
    }
    BoundaryExact(data, b);
    EntryReadsBack(id, b, rest);
  }
}
