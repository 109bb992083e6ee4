/** Block-based base58, its decoder, and the address strings built from it. */
module Base58 {
  import opened GoInt
  import opened Options
  import opened Wire
  import opened Shares

  /** Monero's alphabet, split at the letters it leaves out. */
  const ALPHABET: string :=
    "123456789" + ("ABCDEFGH" + ("JKLMN" + ("PQRSTUVWXYZ" + ("abcdefghijk" + "mnopqrstuvwxyz"))))

  /** Encoded length of a block of `n` bytes. */
  function EncodedSize(n: nat): nat
    requires n <= 8
  {
    [0, 2, 3, 5, 6, 7, 9, 10, 11][n]
  }

  // ---------------------------------------------------------------------------------------------
  // Encoding
  // ---------------------------------------------------------------------------------------------

  /** The 64-bit word a block is folded into, most significant byte first. */
  function Word(block: Bytes): uint64 {
    if block == [] then 0
    else
      var last := |block| - 1;
      Wrap(Word(block[..last]) * 256 + block[last] as int)
  }

  function EncodeDigits(num: nat, size: nat): (s: string)
    ensures |s| == size
  {
    if size == 0 then "" else EncodeDigits(num / 58, size - 1) + [ALPHABET[num % 58]]
  }

  function EncodeMonero(data: Bytes): string {
    if |data| < 8 then EncodeDigits(Word(data), EncodedSize(|data|))
    else EncodeDigits(Word(data[..8]), 11) + EncodeMonero(data[8..])
  }

  lemma WordAppend(block: Bytes, k: nat)
    requires k < |block|
    ensures Word(block[..k + 1]) == Wrap(Wrap(Word(block[..k]) * 256) + block[k] as int)
  {
    assert block[..k + 1][..k] == block[..k];
    WrapInner(Word(block[..k]) * 256, block[k]);
  }

  method EncodeBlock(block: Bytes, encodedSize: nat) returns (encoded: string)
    ensures encoded == EncodeDigits(Word(block), encodedSize)
  {
    hide Word;
    var num: uint64 := 0;
    assert Word(block[..0]) == 0 by {
      EmptyWord(block[..0]);
    }
    for k := 0 to |block|
      invariant num == Word(block[..k])
    {
      WordAppend(block, k);
      num := Wrap(Wrap(num * 256) + block[k] as int);
    }
    assert block[..|block|] == block;
    var result := new char[encodedSize];
    var i := encodedSize - 1;
    while i >= 0
      invariant -1 <= i < encodedSize
      invariant EncodeDigits(num, i + 1) + result[i + 1..] == EncodeDigits(Word(block), encodedSize)
    {
      result[i] := ALPHABET[num % 58];
      assert result[i..] == [result[i]] + result[i + 1..];
      DivAtMost(num, 58);
      num := num / 58;
      i := i - 1;
    }
    return result[..];
  }

  lemma EmptyWord(block: Bytes)
    requires block == []
    ensures Word(block) == 0
  {
  }

  lemma WrapInner(n: nat, b: nat)
    ensures Wrap(Wrap(n) + b) == Wrap(n + b)
  {
    QuotientFacts(n, TWO64);
    var m := n % TWO64 + b;
    QuotientFacts(m, TWO64);
    QuotientUnique(n + b, TWO64, n / TWO64 + m / TWO64, m % TWO64);
  }

  /** Encoding what is left at block `i`: one full block and what is left at the next. */
  lemma FullBlockFirst(data: Bytes, i: nat)
    requires 8 * (i + 1) <= |data|
    ensures EncodeMonero(data[8 * i..])
         == EncodeDigits(Word(data[8 * i..8 * (i + 1)]), 11) + EncodeMonero(data[8 * (i + 1)..])
  {
    var rest := data[8 * i..];
    assert rest[..8] == data[8 * i..8 * (i + 1)] && rest[8..] == data[8 * (i + 1)..];
  }

  method EncodeMoneroBase58(data: Bytes) returns (encoded: string)
    ensures encoded == EncodeMonero(data)
  {
    hide EncodeDigits, Word, EncodeMonero;
    var numFullBlocks, lastBlockSize := |data| / 8, |data| % 8;
    encoded := "";
    assert data[8 * 0..] == data;
    var i := 0;
    while i < numFullBlocks
      invariant 0 <= i <= numFullBlocks
      invariant encoded + EncodeMonero(data[8 * i..]) == EncodeMonero(data)
    {
      var block := EncodeBlock(data[8 * i..8 * (i + 1)], 11);
      FullBlockFirst(data, i);
      encoded := encoded + block;
      i := i + 1;
    }
    ShortEncoding(data[8 * numFullBlocks..]);
    if lastBlockSize > 0 {
      var block := EncodeBlock(data[8 * numFullBlocks..], EncodedSize(lastBlockSize));
      encoded := encoded + block;
    }
  }

  lemma ShortEncoding(data: Bytes)
    requires |data| < 8
    ensures EncodeMonero(data) == EncodeDigits(Word(data), EncodedSize(|data|))
    ensures data == [] ==> EncodeMonero(data) == ""
  {
  }

  // ---------------------------------------------------------------------------------------------
  // Decoding
  // ---------------------------------------------------------------------------------------------

  /** The digit a character stands for; characters outside the alphabet stand for none. */
  function Digit(c: char): Option<nat> {
    if '1' <= c <= '9' then Some(c as int - '1' as int)
    else if 'A' <= c <= 'H' then Some(c as int - 'A' as int + 9)
    else if 'J' <= c <= 'N' then Some(c as int - 'J' as int + 17)
    else if 'P' <= c <= 'Z' then Some(c as int - 'P' as int + 22)
    else if 'a' <= c <= 'k' then Some(c as int - 'a' as int + 33)
    else if 'm' <= c <= 'z' then Some(c as int - 'm' as int + 44)
    else None
  }

  function DecodeDigits(s: string): Option<nat> {
    if s == "" then Some(0)
    else
      var last := |s| - 1;
      match (DecodeDigits(s[..last]), Digit(s[last]))
      case (Some(n), Some(d)) => Some(n * 58 + d)
      case _ => None
  }

  function ToBytes(n: nat, size: nat): Bytes {
    if size == 0 then [] else ToBytes(n / 256, size - 1) + [n % 256]
  }

  function DecodedSize(n: nat): Option<nat> {
    if n == 0 then Some(0) else if n == 2 then Some(1) else if n == 3 then Some(2) else if n == 5 then Some(3)
    else if n == 6 then Some(4) else if n == 7 then Some(5) else if n == 9 then Some(6)
    else if n == 10 then Some(7) else if n == 11 then Some(8) else None
  }

  function DecodeBlock(s: string): Option<Bytes> {
    match (DecodedSize(|s|), DecodeDigits(s))
    case (Some(size), Some(n)) => Some(ToBytes(n, size))
    case _ => None
  }

  function Decode(s: string): Option<Bytes> {
    if |s| < 11 then DecodeBlock(s)
    else
      match (DecodeBlock(s[..11]), Decode(s[11..]))
      case (Some(first), Some(rest)) => Some(first + rest)
      case _ => None
  }

  /** The character for digit `d`: the alphabet is six runs of consecutive characters. */
  function Symbol(d: nat): char
    requires d < 58
  {
    if d < 9 then '1' + d as char
    else if d < 17 then 'A' + (d - 9) as char
    else if d < 22 then 'J' + (d - 17) as char
    else if d < 33 then 'P' + (d - 22) as char
    else if d < 44 then 'a' + (d - 33) as char
    else 'm' + (d - 44) as char
  }

  lemma SymbolDigit(d: nat)
    requires d < 58
    ensures Digit(Symbol(d)) == Some(d) && Symbol(d) != ':'
  {
  }

  lemma LowRuns(d: nat)
    requires d < 22
    ensures ALPHABET[d] == Symbol(d)
  {
    if d < 9 {
      assert "123456789"[d] == Symbol(d);
    } else if d < 17 {
      assert "ABCDEFGH"[d - 9] == Symbol(d);
    } else {
      assert "JKLMN"[d - 17] == Symbol(d);
    }
  }

  lemma HighRuns(d: nat)
    requires 22 <= d < 58
    ensures ALPHABET[d] == Symbol(d)
  {
    if d < 33 {
      assert "PQRSTUVWXYZ"[d - 22] == Symbol(d);
    } else if d < 44 {
      assert "abcdefghijk"[d - 33] == Symbol(d);
    } else {
      assert "mnopqrstuvwxyz"[d - 44] == Symbol(d);
    }
  }

  lemma AlphabetDigit(d: nat)
    requires d < 58
    ensures Digit(ALPHABET[d]) == Some(d) && ALPHABET[d] != ':'
  {
    SymbolDigit(d);
    if d < 22 {
      LowRuns(d);
    } else {
      HighRuns(d);
    }
  }

  // ---------------------------------------------------------------------------------------------
  // Decoding inverts encoding
  // ---------------------------------------------------------------------------------------------

  function Power(base: nat, n: nat): nat {
    if n == 0 then 1 else base * Power(base, n - 1)
  }

  /** The number a block stands for, most significant byte first. */
  function BlockValue(block: Bytes): nat {
    if block == [] then 0
    else
      var last := |block| - 1;
      BlockValue(block[..last]) * 256 + block[last]
  }

  lemma {:induction false} BlockValueBound(block: Bytes)
    ensures BlockValue(block) < Power(256, |block|)
  {
    if block != [] {
      BlockValueBound(block[..|block| - 1]);
    }
  }

  lemma {:induction false} PowerMonotone(base: nat, a: nat, b: nat)
    requires base >= 1 && a <= b
    ensures 1 <= Power(base, a) <= Power(base, b)
  {
    if b > 0 {
      PowerMonotone(base, 0, b - 1);
      if a < b {
        PowerMonotone(base, a, b - 1);
      }
      MulMono(1, base, Power(base, b - 1));
    }
  }

  lemma Power256Of8()
    ensures Power(256, 8) == TWO64
  {
    assert Power(256, 4) == TWO32;
    assert Power(256, 8) == 256 * (256 * (256 * (256 * Power(256, 4))));
  }

  /** Blocks of at most eight bytes fold without overflow. */
  lemma {:induction false} WordExact(block: Bytes)
    requires |block| <= 8
    ensures Word(block) == BlockValue(block)
  {
    if block != [] {
      WordExact(block[..|block| - 1]);
      BlockValueBound(block);
      PowerMonotone(256, |block|, 8);
      Power256Of8();
      QuotientUnique(BlockValue(block), TWO64, 0, BlockValue(block));
    }
  }

  lemma {:induction false} DigitsReadBack(num: nat, size: nat)
    requires num < Power(58, size)
    ensures DecodeDigits(EncodeDigits(num, size)) == Some(num)
  {
    if size > 0 {
      var rest := EncodeDigits(num / 58, size - 1);
      assert num / 58 < Power(58, size - 1) by {
        QuotientFacts(num, 58);
      }
      DigitsReadBack(num / 58, size - 1);
      AlphabetDigit(num % 58);
      assert EncodeDigits(num, size)[..size - 1] == rest;
    }
  }

  lemma {:induction false} BytesReadBack(block: Bytes)
    ensures ToBytes(BlockValue(block), |block|) == block
  {
    if block != [] {
      var last := |block| - 1;
      BytesReadBack(block[..last]);
      QuotientUnique(BlockValue(block), 256, BlockValue(block[..last]), block[last]);
    }
  }

  /** Every encoded size has room for its block. */
  lemma SizesSuffice(n: nat)
    requires n <= 8
    ensures Power(256, n) <= Power(58, EncodedSize(n))
    ensures DecodedSize(EncodedSize(n)) == Some(n)
  {
    var p := Power(58, 2);
    assert p == 3364;
    assert Power(58, 3) == 58 * p;
    assert Power(58, 5) == 58 * (58 * Power(58, 3));
    assert Power(58, 6) == 58 * Power(58, 5);
    assert Power(58, 7) == 58 * Power(58, 6);
    assert Power(58, 9) == 58 * (58 * Power(58, 7));
    assert Power(58, 10) == 58 * Power(58, 9);
    assert Power(58, 11) == 58 * Power(58, 10);
    assert Power(256, 2) == 0x1_0000 && Power(256, 3) == 0x100_0000 && Power(256, 4) == TWO32;
    assert Power(256, 5) == 256 * Power(256, 4);
    assert Power(256, 6) == 256 * Power(256, 5);
    assert Power(256, 7) == 256 * Power(256, 6);
    Power256Of8();
  }

  lemma BlockDecodes(block: Bytes)
    requires |block| <= 8
    ensures DecodeBlock(EncodeDigits(Word(block), EncodedSize(|block|))) == Some(block)
  {
    WordExact(block);
    BlockValueBound(block);
    SizesSuffice(|block|);
    DigitsReadBack(Word(block), EncodedSize(|block|));
    BytesReadBack(block);
  }

  /** The decoder inverts the encoder on every byte string. */
  lemma {:induction false} MoneroDecodes(data: Bytes)
    ensures Decode(EncodeMonero(data)) == Some(data)
    decreases |data|
  {
    hide Word, EncodeDigits, DecodeBlock, Decode;
    if |data| < 8 {
      BlockDecodes(data);
      DecodeLast(EncodeMonero(data));
    } else {
      var first := EncodeDigits(Word(data[..8]), 11);
      BlockDecodes(data[..8]);
      MoneroDecodes(data[8..]);
      DecodeFirst(first, EncodeMonero(data[8..]));
      assert data[..8] + data[8..] == data;
    }
  }

  lemma DecodeLast(s: string)
    requires |s| < 11
    ensures Decode(s) == DecodeBlock(s)
  {
  }

  lemma DecodeFirst(first: string, rest: string)
    requires |first| == 11
    ensures DecodeBlock(first).Some? && Decode(rest).Some? ==>
      Decode(first + rest) == Some(DecodeBlock(first).value + Decode(rest).value)
  {
    hide DecodeBlock;
    assert (first + rest)[..11] == first && (first + rest)[11..] == rest;
  }

  lemma {:induction false} DigitsClean(num: nat, size: nat)
    ensures ':' !in EncodeDigits(num, size)
  {
    if size > 0 {
      DigitsClean(num / 58, size - 1);
      AlphabetDigit(num % 58);
    }
  }

  lemma {:induction false} MoneroLength(data: Bytes)
    ensures |EncodeMonero(data)| == |data| / 8 * 11 + EncodedSize(|data| % 8)
    decreases |data|
  {
    hide EncodedSize, EncodeDigits, Word;
    if |data| >= 8 {
      MoneroLength(data[8..]);
      QuotientUnique(|data|, 8, (|data| - 8) / 8 + 1, (|data| - 8) % 8);
    }
  }

  lemma {:induction false} MoneroClean(data: Bytes)
    ensures ':' !in EncodeMonero(data)
    decreases |data|
  {
    hide EncodedSize, EncodeDigits, Word;
    if |data| < 8 {
      DigitsClean(Word(data), EncodedSize(|data|));
    } else {
      DigitsClean(Word(data[..8]), 11);
      MoneroClean(data[8..]);
    }
  }

  // ---------------------------------------------------------------------------------------------
  // Addresses
  // ---------------------------------------------------------------------------------------------

  /** Keccak-256 is a parameter: nothing below depends on which function it is. */
  type Checksum = Bytes -> Hash

  function Payload(a: Address): Bytes {
    [0x96, 0x99, 0x60] + a.spendPublicKey + a.viewPublicKey
  }

  /** The address string: 98 characters, none of them the separator of store keys. */
  function ToBase58(a: Address, keccak: Checksum): (s: string)
    ensures |s| == 98 && ':' !in s
  {
    var data := Payload(a) + keccak(Payload(a))[..4];
    MoneroLength(data);
    MoneroClean(data);
    EncodeMonero(data)
  }

  /** Distinct key pairs have distinct address strings, whatever the checksum function. */
  lemma ToBase58Injective(a: Address, b: Address, keccak: Checksum)
    requires ToBase58(a, keccak) == ToBase58(b, keccak)
    ensures a == b
  {
    var x, y := Payload(a) + keccak(Payload(a))[..4], Payload(b) + keccak(Payload(b))[..4];
    MoneroDecodes(x);
    MoneroDecodes(y);
    KeysInPayload(a, keccak(Payload(a))[..4]);
    KeysInPayload(b, keccak(Payload(b))[..4]);
  }

  lemma KeysInPayload(a: Address, tail: Bytes)
    ensures var x := Payload(a) + tail;
            |x| >= 67 && x[3..35] == a.spendPublicKey && x[35..67] == a.viewPublicKey
  {
    var prefix: Bytes := [0x96, 0x99, 0x60];
    var first, second := prefix + a.spendPublicKey, a.viewPublicKey + tail;
    assert Payload(a) + tail == first + second;
    assert (first + second)[3..35] == a.spendPublicKey;
    assert (first + second)[35..67] == a.viewPublicKey;
  }

  /** Whoever decodes an address finds the network prefix, the two keys, and the checksum of all that. */
  lemma AddressContents(a: Address, keccak: Checksum)
    ensures var decoded := Decode(ToBase58(a, keccak));
            && decoded.Some? && |decoded.value| == 71
            && decoded.value[..3] == [0x96, 0x99, 0x60]
            && decoded.value[3..35] == a.spendPublicKey && decoded.value[35..67] == a.viewPublicKey
            && decoded.value[67..] == keccak(decoded.value[..67])[..4]
  {
    var tail := keccak(Payload(a))[..4];
    MoneroDecodes(Payload(a) + tail);
    KeysInPayload(a, tail);
    assert (Payload(a) + tail)[..67] == Payload(a) && (Payload(a) + tail)[67..] == tail;
    assert (Payload(a) + tail)[..3] == Payload(a)[..3] == [0x96, 0x99, 0x60];
  }

  lemma {:induction false} BlockValueOfTwo(x: Bytes, y: Bytes)
    ensures BlockValue(x + y) == BlockValue(x) * Power(256, |y|) + BlockValue(y)
    decreases |y|
  {
    if y == [] {
      assert x + y == x;
    } else {
      var init := y[..|y| - 1];
      BlockValueOfTwo(x, init);
      assert (x + y)[..|x + y| - 1] == x + init;
      Regroup(BlockValue(x), Power(256, |init|));
    }
  }

  lemma Regroup(n: nat, p: nat)
    ensures n * p * 256 == n * (256 * p)
  {
  }

  /** The leading digits of a number are those of its leading part. */
  lemma {:induction false} TopDigits(num: nat, top: nat, size: nat, k: nat)
    requires top * Power(58, k) <= num < (top + 1) * Power(58, k)
    ensures EncodeDigits(num, size + k)[..size] == EncodeDigits(top, size)
  {
    if k > 0 {
      var p := Power(58, k - 1);
      QuotientFacts(num, 58);
      Narrower(num, top, p);
      TopDigits(num / 58, top, size, k - 1);
      var rest := EncodeDigits(num / 58, size + k - 1);
      assert EncodeDigits(num, size + k) == rest + [ALPHABET[num % 58]];
      assert (rest + [ALPHABET[num % 58]])[..size] == rest[..size];
    }
  }

  lemma Narrower(num: nat, top: nat, p: nat)
    requires top * (58 * p) <= num < (top + 1) * (58 * p)
    ensures top * p <= num / 58 < (top + 1) * p
  {
    var low, high := top * p, (top + 1) * p;
    assert 58 * low <= num < 58 * high;
    QuotientFacts(num, 58);
  }

  lemma NetworkBlock(rest: Bytes)
    requires |rest| == 5
    ensures EncodeDigits(Word([0x96, 0x99, 0x60] + rest), 11)[..3] == "SC1"
  {
    hide EncodeDigits, Power, BlockValue, Word;
    var prefix: Bytes := [0x96, 0x99, 0x60];
    WordExact(prefix + rest);
    BlockValueOfTwo(prefix, rest);
    PrefixValue();
    BlockValueBound(rest);
    Powers();
    TopDigits(Word(prefix + rest), 84738, 3, 8);
    NetworkLetters();
  }

  /** Every address begins with the letters of the network. */
  lemma AddressBegins(a: Address, keccak: Checksum)
    ensures ToBase58(a, keccak)[..3] == "SC1"
  {
    hide EncodeDigits, Word;
    var data := Payload(a) + keccak(Payload(a))[..4];
    assert data[..8] == [0x96, 0x99, 0x60] + a.spendPublicKey[..5];
    NetworkBlock(a.spendPublicKey[..5]);
    var first := EncodeDigits(Word(data[..8]), 11);
    assert (first + EncodeMonero(data[8..]))[..3] == first[..3];
  }

  lemma PrefixValue()
    ensures BlockValue([0x96, 0x99, 0x60]) == 0x969960
  {
    var p: Bytes := [0x96, 0x99, 0x60];
    assert p[..2][..1] == p[..1] && p[..1][..0] == [];
    assert BlockValue(p[..1]) == 0x96 && BlockValue(p[..2]) == 0x9699;
  }

  lemma Powers()
    ensures Power(256, 5) == 0x100_0000_0000 && Power(58, 8) == 128063081718016
  {
    assert Power(256, 2) == 0x1_0000 && Power(256, 4) == 0x1_0000 * 0x1_0000;
    assert Power(58, 2) == 3364 && Power(58, 4) == 3364 * 3364;
    assert Power(58, 6) == 3364 * Power(58, 4) && Power(58, 8) == 3364 * Power(58, 6);
  }

  lemma NetworkLetters()
    ensures EncodeDigits(84738, 3) == "SC1"
  {
    HighRuns(25);
    LowRuns(11);
    LowRuns(0);
    assert EncodeDigits(25, 1) == [ALPHABET[25]] by {
      assert EncodeDigits(0, 0) == "";
    }
    assert EncodeDigits(1461, 2) == EncodeDigits(25, 1) + [ALPHABET[11]];
    assert EncodeDigits(84738, 3) == EncodeDigits(1461, 2) + [ALPHABET[0]];
  }
}
