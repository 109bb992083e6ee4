/** Reading varints, hashes and fixed-width integers out of a byte slice at an offset. */
module Wire {
  import opened GoInt

  /** How a Go parsing step ends: a value, an error return, or a run-time panic. */
  datatype Outcome<+T> = Ok(value: T) | Failed | Panicked
  {
    predicate IsFailure() {
      !Ok?
    }

    function PropagateFailure<U>(): Outcome<U>
      requires IsFailure()
    {
      if Failed? then Failed else Panicked
    }

    function Extract(): T
      requires Ok?
    {
      value
    }
  }

  type Bytes = seq<uint8>
  type Hash = h: seq<uint8> | |h| == 32 witness seq(32, _ => 0)

  function ZeroHash(): Hash {
    seq(32, _ => 0)
  }

  /** `part` stands in `data` at `offset`. */
  predicate At(data: Bytes, offset: int, part: Bytes) {
    0 <= offset && offset + |part| <= |data| && data[offset..offset + |part|] == part
  }

  lemma AtSplit(data: Bytes, offset: int, first: Bytes, second: Bytes)
    requires At(data, offset, first + second)
    ensures At(data, offset, first)
    ensures At(data, offset + |first|, second)
  {
    var whole := data[offset..offset + |first + second|];
    assert data[offset..offset + |first|] == whole[..|first|] == first;
    assert data[offset + |first|..offset + |first| + |second|] == whole[|first|..] == second;
  }

  // ---------------------------------------------------------------------------------------------
  // Unsigned LEB128, section 7.6 of DWARF Version 5
  // ---------------------------------------------------------------------------------------------

  /** How many bytes with the continuation bit follow each other from `offset` on. */
  function Continuations(data: Bytes, offset: nat): (k: nat)
    requires offset <= |data|
    ensures offset + k <= |data|
    ensures forall i :: offset <= i < offset + k ==> data[i] >= 0x80
    ensures offset + k < |data| ==> data[offset + k] < 0x80
    decreases |data| - offset
  {
    if offset < |data| && data[offset] >= 0x80 then 1 + Continuations(data, offset + 1) else 0
  }

  /** The number whose base-128 digits, least significant first, are the low 7 bits of the bytes. */
  function DigitSum(bytes: Bytes): nat {
    if bytes == [] then 0 else bytes[0] % 0x80 + 0x80 * DigitSum(bytes[1..])
  }

  /** What reading a varint means: at most ten bytes, and their digit sum modulo 2^64. */
  function VarintAt(data: Bytes, offset: int): Outcome<(uint64, int)> {
    if offset >= |data| then Failed
    else if offset < 0 then Panicked
    else
      var k := Continuations(data, offset);
      if k >= 10 || offset + k >= |data| then Failed
      else Ok((Wrap(DigitSum(data[offset..offset + k + 1])), offset + k + 1))
  }

  lemma {:induction false} DigitSumAppend(bytes: Bytes, b: uint8)
    ensures DigitSum(bytes + [b]) == DigitSum(bytes) + b % 0x80 * Pow2(7 * |bytes|)
    ensures DigitSum(bytes) < Pow2(7 * |bytes|)
  {
    if bytes == [] {
      assert [b][1..] == [];
      assert DigitSum([b]) == b % 0x80;
    } else {
      var rest := bytes[1..];
      DigitSumAppend(rest, b);
      assert (bytes + [b])[1..] == rest + [b];
      Pow2Sum(7, 7 * |rest|);
      assert 7 + 7 * |rest| == 7 * |bytes|;
      assert Pow2(7) == 0x80;
      ScaleDigit(b % 0x80, Pow2(7 * |rest|));
    }
  }

  lemma ScaleDigit(d: nat, p: nat)
    ensures 0x80 * (d * p) == d * (0x80 * p)
  {
  }

  /** A shifted 7-bit digit leaves room below it, also after its top bits fall off at bit 64. */
  lemma ShiftedDigit(d: nat, shift: nat)
    requires shift < 64
    ensures Wrap(d * Pow2(shift)) + Pow2(shift) <= TWO64
  {
    var p, q := Pow2(shift), 2 * Pow2(63 - shift);
    PowersMeet(shift);
    assert q * p == TWO64;
    QuotientFacts(d, q);
    ShiftedDigitValue(d, p, q, d / q, d % q);
    QuotientUnique(d * p, TWO64, d / q, (d % q) * p);
    MulMono(d % q + 1, q, p);
    assert (d % q + 1) * p == (d % q) * p + p;
  }

  lemma ShiftedDigitValue(d: nat, p: nat, q: nat, h: nat, r: nat)
    requires q * p == TWO64 && d == h * q + r && r < q
    ensures d * p == h * TWO64 + r * p && r * p < TWO64
  {
    assert (h * q + r) * p == h * (q * p) + r * p;
    MulMono(r + 1, q, p);
    assert (r + 1) * p == r * p + p;
  }

  /** `x | d << shift` for an `x` with no bit at `shift` or above: the bits are disjoint and add up. */
  function OrShifted(x: uint64, d: uint8, shift: nat): uint64
    requires shift < 64 && x < Pow2(shift)
  {
    ShiftedDigit(d, shift);
    x + Wrap(d * Pow2(shift))
  }

  lemma OrShiftedAdds(x: uint64, d: uint8, shift: nat)
    requires shift < 64 && x < Pow2(shift)
    ensures OrShifted(x, d, shift) == Wrap(x + d * Pow2(shift))
  {
    ShiftedDigit(d, shift);
    var n := d * Pow2(shift);
    QuotientFacts(n, TWO64);
    QuotientUnique(x + n, TWO64, n / TWO64, x + n % TWO64);
  }

  lemma ContinuationsFrom(data: Bytes, start: nat, stop: nat)
    requires start <= stop <= |data|
    requires forall i :: start <= i < stop ==> data[i] >= 0x80
    ensures Continuations(data, start) == stop - start + Continuations(data, stop)
    decreases stop - start
  {
    if start < stop {
      ContinuationsFrom(data, start + 1, stop);
    }
  }

  /** The loop's state before it reads the byte at `at`: nine continuation bytes at most are behind. */
  ghost predicate Reading(data: Bytes, offset: nat, at: nat, result: uint64, shift: nat) {
    && offset <= at <= |data| && at - offset <= 9
    && shift == 7 * (at - offset)
    && (forall i :: offset <= i < at ==> data[i] >= 0x80)
    && result == DigitSum(data[offset..at]) < Pow2(shift)
  }

  lemma ReadByteAdds(data: Bytes, offset: nat, at: nat, result: uint64, shift: nat)
    requires Reading(data, offset, at, result, shift) && at < |data|
    ensures Continuations(data, offset) == at - offset + Continuations(data, at)
    ensures shift < 64
    ensures var sum := DigitSum(data[offset..at + 1]);
            && sum == result + data[at] % 0x80 * Pow2(shift)
            && sum < Pow2(shift + 7)
            && OrShifted(result, data[at] % 0x80, shift) == Wrap(sum)
  {
    var b := data[at];
    ContinuationsFrom(data, offset, at);
    assert data[offset..at] + [b] == data[offset..at + 1];
    DigitSumAppend(data[offset..at], b);
    DigitSumAppend(data[offset..at + 1], 0);
    OrShiftedAdds(result, b % 0x80, shift);
  }

  lemma BelowWord(n: nat, shift: nat)
    requires shift <= 63 && n < Pow2(shift)
    ensures Wrap(n) == n
  {
    Pow2Monotone(shift, 63);
    Pow2Of63();
    QuotientUnique(n, TWO64, 0, n);
  }

  method ReadVarint(data: Bytes, offset: int) returns (r: Outcome<(uint64, int)>)
    ensures r == VarintAt(data, offset)
  {
    if offset >= |data| {
      return Failed;
    }
    if offset < 0 {
      return Panicked;
    }
    var result: uint64, shift, at := 0, 0, offset;
    while true
      invariant Reading(data, offset, at, result, shift)
      decreases 10 - (at - offset)
    {
      if at >= |data| {
        ContinuationsFrom(data, offset, at);
        return Failed;
      }
      var b := data[at];
      ReadByteAdds(data, offset, at, result, shift);
      result := OrShifted(result, b % 0x80, shift);
      at := at + 1;
      if b < 0x80 {
        return Ok((result, at));
      }
      shift := shift + 7;
      if shift > 63 {
        return Failed;
      }
      BelowWord(DigitSum(data[offset..at]), shift);
    }
  }

  function EncodeVarint(n: nat): (bytes: Bytes)
    ensures |bytes| >= 1
  {
    if n < 0x80 then [n] else [n % 0x80 + 0x80] + EncodeVarint(n / 0x80)
  }

  lemma LowDigit(n: nat)
    ensures (n % 0x80 + 0x80) % 0x80 == n % 0x80
    ensures n == n % 0x80 + 0x80 * (n / 0x80)
  {
  }

  lemma DigitSumFirst(b: uint8, rest: Bytes)
    ensures DigitSum([b] + rest) == b % 0x80 + 0x80 * DigitSum(rest)
  {
    assert ([b] + rest)[1..] == rest;
  }

  lemma {:induction false} EncodingSum(n: nat)
    ensures DigitSum(EncodeVarint(n)) == n
  {
    if n >= 0x80 {
      EncodingSum(n / 0x80);
      LowDigit(n);
      DigitSumFirst(n % 0x80 + 0x80, EncodeVarint(n / 0x80));
    } else {
      DigitSumFirst(n, []);
      assert [n] + [] == [n];
    }
  }

  /** The continuation bit is on all bytes of an encoding but the last. */
  lemma {:induction false} EncodingShape(n: nat)
    ensures forall i :: 0 <= i < |EncodeVarint(n)| - 1 ==> EncodeVarint(n)[i] >= 0x80
    ensures EncodeVarint(n)[|EncodeVarint(n)| - 1] < 0x80
  {
    if n >= 0x80 {
      EncodingShape(n / 0x80);
    }
  }

  lemma {:induction false} EncodingLength(n: nat, k: nat)
    requires 1 <= k && n < Pow2(7 * k)
    ensures |EncodeVarint(n)| <= k
  {
    if n >= 0x80 {
      assert Pow2(7) == 0x80;
      if k == 1 {
        assert false;
      }
      Pow2Sum(7, 7 * (k - 1));
      assert 7 + 7 * (k - 1) == 7 * k;
      EncodingLength(n / 0x80, k - 1);
    }
  }

  lemma EncodingAtMostTen(n: uint64)
    ensures |EncodeVarint(n)| <= 10
  {
    Pow2Of64();
    Pow2Sum(64, 6);
    EncodingLength(n, 10);
  }

  /** An encoding found in the data is a maximal run of continuation bytes and its end. */
  lemma EncodingEnds(data: Bytes, offset: int, n: nat)
    requires At(data, offset, EncodeVarint(n))
    ensures Continuations(data, offset) == |EncodeVarint(n)| - 1
  {
    var e := EncodeVarint(n);
    EncodingShape(n);
    var last := offset + |e| - 1;
    forall i | offset <= i <= last
      ensures data[i] == e[i - offset]
    {
      assert data[offset..offset + |e|][i - offset] == e[i - offset];
    }
    ContinuationsFrom(data, offset, last);
  }

  /** Reading an encoding back, whatever stands before and after it in the slice. */
  lemma VarintReadsBack(data: Bytes, offset: int, n: uint64)
    requires At(data, offset, EncodeVarint(n))
    ensures VarintAt(data, offset) == Ok((n, offset + |EncodeVarint(n)|))
    ensures |EncodeVarint(n)| <= 10
  {
    EncodingAtMostTen(n);
    EncodingEnds(data, offset, n);
    EncodingSum(n);
    QuotientUnique(n, TWO64, 0, n);
  }

  /** Every successful read: between one and ten bytes, ending at the first without a continuation bit. */
  lemma VarintConsumes(data: Bytes, offset: int)
    requires VarintAt(data, offset).Ok?
    ensures var (n, stop) := VarintAt(data, offset).value;
            && 0 <= offset < stop <= |data| && stop - offset <= 10
            && data[stop - 1] < 0x80
            && (forall i :: offset <= i < stop - 1 ==> data[i] >= 0x80)
            && n == DigitSum(data[offset..stop]) % TWO64
  {
  }

  /** A read succeeds exactly on one to ten bytes of which the last alone lacks the continuation bit. */
  lemma VarintExact(data: Bytes, offset: int, n: uint64, stop: int)
    ensures VarintAt(data, offset) == Ok((n, stop))
            <==> && 0 <= offset < stop <= |data| && stop - offset <= 10
                 && data[stop - 1] < 0x80
                 && (forall i :: offset <= i < stop - 1 ==> data[i] >= 0x80)
                 && n == DigitSum(data[offset..stop]) % TWO64
  {
    if && 0 <= offset < stop <= |data| && data[stop - 1] < 0x80
       && (forall i :: offset <= i < stop - 1 ==> data[i] >= 0x80)
    {
      ContinuationsFrom(data, offset, stop - 1);
    }
  }

  // ---------------------------------------------------------------------------------------------
  // Fixed-width reads
  // ---------------------------------------------------------------------------------------------

  function ReadHash(data: Bytes, offset: int): (r: Outcome<(Hash, int)>)
    ensures r.Ok? ==> At(data, offset, r.value.0) && r.value.1 == offset + 32
    ensures 0 <= offset && offset + 32 <= |data| < TWO63 ==> r.Ok?
  {
    if ToInt(offset + 32) > |data| then Failed
    else if offset < 0 || offset + 32 > |data| then Panicked
    else Ok((data[offset..offset + 32], offset + 32))
  }

  function LittleEndian32(v: uint32): (bytes: Bytes)
    ensures |bytes| == 4
  {
    var w, x := v / 0x100, v / 0x100 / 0x100;
    [v % 0x100, w % 0x100, x % 0x100, x / 0x100]
  }

  function FromLittleEndian32(b0: nat, b1: nat, b2: nat, b3: nat): nat {
    b0 + 0x100 * (b1 + 0x100 * (b2 + 0x100 * b3))
  }

  lemma LittleEndianInverse(b0: uint8, b1: uint8, b2: uint8, b3: uint8)
    ensures var v := FromLittleEndian32(b0, b1, b2, b3);
            v < TWO32 && LittleEndian32(v) == [b0, b1, b2, b3]
  {
    var x: nat := b2 + 0x100 * b3;
    var w: nat := b1 + 0x100 * x;
    var v: nat := b0 + 0x100 * w;
    QuotientUnique(x, 0x100, b3, b2);
    QuotientUnique(w, 0x100, x, b1);
    QuotientUnique(v, 0x100, w, b0);
  }

  function ReadUint32LE(data: Bytes, offset: int): (r: Outcome<(uint32, int)>)
    ensures r.Ok? ==> At(data, offset, LittleEndian32(r.value.0)) && r.value.1 == offset + 4
    ensures 0 <= offset && offset + 4 <= |data| < TWO63 ==> r.Ok?
  {
    if ToInt(offset + 4) > |data| then Failed
    else if offset < 0 || offset + 4 > |data| then Panicked
    else
      var v := FromLittleEndian32(data[offset], data[offset + 1], data[offset + 2], data[offset + 3]);
      LittleEndianInverse(data[offset], data[offset + 1], data[offset + 2], data[offset + 3]);
      Ok((v, offset + 4))
  }

  function ReadByte(data: Bytes, offset: int): (r: Outcome<(uint8, int)>)
    ensures r.Ok? ==> At(data, offset, [r.value.0]) && r.value.1 == offset + 1
    ensures 0 <= offset < |data| ==> r.Ok?
  {
    if offset >= |data| then Failed
    else if offset < 0 then Panicked
    else Ok((data[offset], offset + 1))
  }

  /** Skips `n` bytes; neither a negative `n` nor a sum beyond 63 bits is refused. */
  function SkipBytes(data: Bytes, offset: int, n: int): (r: Outcome<int>)
    ensures 0 <= offset && 0 <= n && offset + n <= |data| < TWO63 ==> r == Ok(offset + n)
    ensures r.Ok? ==> r.value <= |data| && (offset + n - r.value) % TWO64 == 0
  {
    var stop := ToInt(offset + n);
    if stop > |data| then Failed else Ok(stop)
  }

  lemma HashReadsBack(data: Bytes, offset: int, h: Hash)
    requires At(data, offset, h) && |data| < TWO63
    ensures ReadHash(data, offset) == Ok((h, offset + 32))
  {
  }

  lemma Uint32ReadsBack(data: Bytes, offset: int, v: uint32)
    requires At(data, offset, LittleEndian32(v)) && |data| < TWO63
    ensures ReadUint32LE(data, offset) == Ok((v, offset + 4))
  {
    var part := LittleEndian32(v);
    var at := data[offset..offset + 4];
    assert at[0] == data[offset] && at[1] == data[offset + 1] && at[2] == data[offset + 2] && at[3] == data[offset + 3];
    assert v == FromLittleEndian32(part[0], part[1], part[2], part[3]);
  }

  lemma ByteReadsBack(data: Bytes, offset: int, b: uint8)
    requires At(data, offset, [b])
    ensures ReadByte(data, offset) == Ok((b, offset + 1))
  {
    assert data[offset..offset + 1][0] == data[offset];
  }
}
