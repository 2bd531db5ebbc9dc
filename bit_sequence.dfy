/**
 * A fixed-capacity run of bits stored in a byte array: bit i lives in byte i / 8
 * at position i % 8, least significant bit first. The buffer offers indexed bit
 * and byte access, two independent cursors for sequential access, bulk
 * construction from bytes, a little-endian fold of the low bytes into a uint64,
 * and a most-significant-first rendering.
 *
 * Every Go panic of the source becomes an error value; a call that fails
 * changes nothing.
 */
module BitStructs {

  /** Go's uint64. */
  newtype uint64 = x: int | 0 <= x < 0x1_0000_0000_0000_0000

  const BYTE_LENGTH: nat := 8
  const TWO_TO_64: nat := 0x1_0000_0000_0000_0000

  /** The reasons a call can fail (each is a panic in the Go code). */
  datatype Error =
    | OutOfRange        // an index outside the buffer, or a write past the last bit or byte
    | CursorExhausted   // a sequential read with the cursor already at the end

  datatype Outcome = Pass | Fail(error: Error)

  datatype Result<T> = Ok(value: T) | Err(error: Error)

  function Min(a: int, b: int): int { if a <= b then a else b }

  /* ---------- Byte count ---------- */

  /** Bytes allocated for numBits bits: the quotient, plus one for a remainder. */
  function BytesFor(numBits: nat): (n: nat)
    ensures 8 * n >= numBits
    ensures n == 0 || 8 * (n - 1) < numBits
  {
    var n := numBits / BYTE_LENGTH;
    if numBits % BYTE_LENGTH != 0 then n + 1 else n
  }

  /* ---------- Conversions between numbers and bits ---------- */

  /** numToBool: a byte counts as true exactly when one of its eight bits is set. */
  function NumToBool(n: bv8): (r: bool)
    ensures !r <==> forall p :: 0 <= p < 8 ==> !ByteBits(n)[p]
  {
    if n == 0 then false
    else
      assert ByteBits(n) != ByteBits(0) by {
        if ByteBits(n) == ByteBits(0) { ByteBitsInjective(n, 0); }
      }
      true
  }

  function BoolToInt(b: bool): (r: int)
    ensures 0 <= r <= 1
    ensures NumToBool(r as bv8) == b
  {
    if b then 1 else 0
  }

  /** The eight bits of a byte, least significant first, read off with fixed masks. */
  function ByteBits(b: bv8): (r: seq<bool>)
    ensures |r| == 8
  {
    [b & 0x01 != 0, b & 0x02 != 0, b & 0x04 != 0, b & 0x08 != 0,
     b & 0x10 != 0, b & 0x20 != 0, b & 0x40 != 0, b & 0x80 != 0]
  }

  /** Bit q of a byte, tested with a shifted mask. */
  predicate TestBit(b: bv8, q: nat)
    requires q < 8
  {
    b & (1 << q) != 0
  }

  lemma ByteBitsAt(b: bv8, q: nat)
    requires q < 8
    ensures ByteBits(b)[q] == TestBit(b, q)
  {
    if q == 0 {
    } else if q == 1 {
    } else if q == 2 {
    } else if q == 3 {
    } else if q == 4 {
    } else if q == 5 {
    } else if q == 6 {
    } else {
    }
  }

  /** A byte is determined by its eight bits. */
  lemma ByteBitsInjective(a: bv8, b: bv8)
    requires ByteBits(a) == ByteBits(b)
    ensures a == b
  {
    assert forall p :: 0 <= p < 8 ==> ByteBits(a)[p] == ByteBits(b)[p];
  }

  /** Reading bit p with a shift and a mask, as GetBit does, gives bit p of the byte. */
  lemma ShiftedBit(b: bv8, p: nat)
    requires p < 8
    ensures NumToBool((b >> p) & 0x1) == ByteBits(b)[p]
  {
    ByteBitsAt(b, p);
  }

  lemma MaskedBit(b: bv8, p: nat, q: nat, v: bool)
    requires p < 8 && q < 8
    ensures TestBit(if v then b | (1 << p) else b & !(1 << p), q) == if p == q then v else TestBit(b, q)
  {
    if v {
      assert TestBit(b | (1 << p), q) == if p == q then v else TestBit(b, q);
    } else {
      assert TestBit(b & !(1 << p), q) == if p == q then v else TestBit(b, q);
    }
  }

  lemma MaskedBits(b: bv8, p: nat, v: bool, nb: bv8)
    requires p < 8
    requires nb == if v then b | (1 << p) else b & !(1 << p)
    ensures ByteBits(nb) == ByteBits(b)[p := v]
  {
    forall q | 0 <= q < 8
      ensures ByteBits(nb)[q] == ByteBits(b)[p := v][q]
    {
      ByteBitsAt(nb, q);
      ByteBitsAt(b, q);
      MaskedBit(b, p, q, v);
    }
  }

  /** The byte SetBit stores: b with bit p set (OR with the mask) or cleared (AND with its complement). */
  function MaskedByte(b: bv8, p: nat, v: bool): (nb: bv8)
    requires p < 8
    ensures ByteBits(nb) == ByteBits(b)[p := v]
  {
    var nb := if v then b | (1 << p) else b & !(1 << p);
    MaskedBits(b, p, v, nb);
    nb
  }

  /** The bits of a byte sequence: the bits of each byte in turn. */
  function BytesToBits(bs: seq<bv8>): (r: seq<bool>)
    ensures |r| == 8 * |bs|
  {
    if bs == [] then [] else ByteBits(bs[0]) + BytesToBits(bs[1..])
  }

  lemma {:induction false} BytesToBitsAppend(a: seq<bv8>, b: seq<bv8>)
    ensures BytesToBits(a + b) == BytesToBits(a) + BytesToBits(b)
  {
    if a == [] {
      assert a + b == b;
    } else {
      assert (a + b)[1..] == a[1..] + b;
      BytesToBitsAppend(a[1..], b);
    }
  }

  lemma SplitAt(bs: seq<bv8>, j: nat)
    requires j < |bs|
    ensures bs == bs[..j] + [bs[j]] + bs[j + 1..]
  {
  }

  lemma BytesToBitsSingleton(b: bv8)
    ensures BytesToBits([b]) == ByteBits(b)
  {
    assert BytesToBits([b]) == ByteBits(b) + BytesToBits([]);
  }

  /** Byte j holds bits 8 * j to 8 * j + 7. */
  lemma BytesToBitsSplit(bs: seq<bv8>, j: nat)
    requires j < |bs|
    ensures BytesToBits(bs) == BytesToBits(bs[..j]) + ByteBits(bs[j]) + BytesToBits(bs[j + 1..])
  {
    var pre, mid, post := bs[..j], [bs[j]], bs[j + 1..];
    SplitAt(bs, j);
    BytesToBitsAppend(pre + mid, post);
    BytesToBitsAppend(pre, mid);
    BytesToBitsSingleton(bs[j]);
  }

  /** Bit i of a byte sequence is bit i % 8 of byte i / 8. */
  lemma BytesToBitsAt(bs: seq<bv8>, i: nat)
    requires i < 8 * |bs|
    ensures BytesToBits(bs)[i] == ByteBits(bs[i / 8])[i % 8]
  {
    var j := i / 8;
    BytesToBitsSplit(bs, j);
    var pre, mid := BytesToBits(bs[..j]), ByteBits(bs[j]);
    assert |pre| == 8 * j && i == |pre| + i % 8;
    assert (pre + mid + BytesToBits(bs[j + 1..]))[i] == mid[i % 8];
  }

  /** The eight bits of byte j, as a slice of the bit view. */
  lemma BytesToBitsSlice(bs: seq<bv8>, j: nat)
    requires j < |bs|
    ensures BytesToBits(bs)[8 * j .. 8 * j + 8] == ByteBits(bs[j])
  {
    BytesToBitsSplit(bs, j);
  }

  /**
   * The bit view loses nothing: byte sequences of one length with the same bits
   * are equal, so a byte is fixed by the eight bits GetByte promises.
   */
  lemma BitsDetermineBytes(bs: seq<bv8>, cs: seq<bv8>)
    requires |bs| == |cs| && BytesToBits(bs) == BytesToBits(cs)
    ensures bs == cs
  {
    forall j | 0 <= j < |bs|
      ensures bs[j] == cs[j]
    {
      BytesToBitsSlice(bs, j);
      BytesToBitsSlice(cs, j);
      ByteBitsInjective(bs[j], cs[j]);
    }
  }

  lemma UpdateMiddle(pre: seq<bool>, mid: seq<bool>, post: seq<bool>, p: nat, v: bool)
    requires p < |mid|
    ensures (pre + mid + post)[|pre| + p := v] == pre + mid[p := v] + post
  {
  }

  /** Changing bit p of byte j changes bit 8 * j + p of the bit view and nothing else. */
  lemma BytesToBitsUpdateBit(bs: seq<bv8>, j: nat, p: nat, b: bv8, v: bool)
    requires j < |bs| && p < 8
    requires ByteBits(b) == ByteBits(bs[j])[p := v]
    ensures BytesToBits(bs[j := b]) == BytesToBits(bs)[8 * j + p := v]
  {
    var nbs := bs[j := b];
    var pre, post := BytesToBits(bs[..j]), BytesToBits(bs[j + 1..]);
    BytesToBitsSplit(bs, j);
    BytesToBitsSplit(nbs, j);
    assert nbs[..j] == bs[..j];
    assert nbs[j + 1..] == bs[j + 1..];
    UpdateMiddle(pre, ByteBits(bs[j]), post, p, v);
  }

  lemma ZeroBytesHaveZeroBits(n: nat, i: nat)
    requires i < 8 * n
    ensures !BytesToBits(Zeros(n))[i]
  {
    BytesToBitsAt(Zeros(n), i);
  }

  /** n zero bytes, as Go's make([]uint8, n) provides them. */
  function Zeros(n: nat): (z: seq<bv8>)
    ensures |z| == n
    ensures forall j :: 0 <= j < n ==> z[j] == 0
  {
    seq(n, _ => 0)
  }

  /* ---------- Little-endian fold ---------- */

  function Pow256(k: nat): (r: nat)
    ensures r >= 1
  {
    if k == 0 then 1 else 256 * Pow256(k - 1)
  }

  /** The numeric value of a byte. */
  function ByteValue(b: bv8): (v: nat)
    ensures v < 256
  {
    b as nat
  }

  /** v * 256^k, written as k multiplications by 256. */
  function ByteShift(v: nat, k: nat): nat
  {
    if k == 0 then v else 256 * ByteShift(v, k - 1)
  }

  /** A byte shifted up by k byte positions stays below 256^(k + 1). */
  lemma {:induction false} ByteShiftBound(v: nat, k: nat)
    requires v < 256
    ensures ByteShift(v, k) <= 255 * Pow256(k)
  {
    if k > 0 {
      ByteShiftBound(v, k - 1);
    }
  }

  /** The sum over j of bs[j] * 256^j: byte 0 is the least significant. */
  function LittleEndian(bs: seq<bv8>): (r: nat)
    ensures r < Pow256(|bs|)
  {
    if bs == [] then 0
    else
      var n := |bs| - 1;
      ByteShiftBound(ByteValue(bs[n]), n);
      LittleEndian(bs[..n]) + ByteShift(ByteValue(bs[n]), n)
  }

  /** Horner's step: prepending a byte shifts the rest up by one byte. */
  lemma {:induction false} LittleEndianCons(b: bv8, t: seq<bv8>)
    ensures LittleEndian([b] + t) == ByteValue(b) + 256 * LittleEndian(t)
  {
    if t == [] {
      assert [b] + t == [b];
      assert [b][..0] == [];
    } else {
      var n := |t| - 1;
      var bt := [b] + t;
      assert bt[..n + 1] == [b] + t[..n];
      assert bt[n + 1] == t[n];
      LittleEndianCons(b, t[..n]);
    }
  }

  lemma {:induction false} Pow256Monotone(j: nat, k: nat)
    requires j <= k
    ensures Pow256(j) <= Pow256(k)
  {
    if j < k {
      Pow256Monotone(j, k - 1);
    }
  }

  /** Up to eight bytes fit in a uint64, so the fold then loses nothing. */
  lemma LittleEndianFits(bs: seq<bv8>)
    requires |bs| <= 8
    ensures LittleEndian(bs) < TWO_TO_64
  {
    Pow256Monotone(|bs|, 8);
    assert Pow256(8) == TWO_TO_64;
  }

  /** `res <<= 8` on a uint64 drops the top byte; `res |= b` then fills the vacated low byte. */
  lemma ShiftInByte(x: nat, b: bv8)
    ensures (x % TWO_TO_64) % 0x100_0000_0000_0000 * 256 + ByteValue(b) == (ByteValue(b) + 256 * x) % TWO_TO_64
  {
    var v, a, r := ByteValue(b), x / 0x100_0000_0000_0000, x % 0x100_0000_0000_0000;
    var y := 0x100_0000_0000_0000 * (a % 256) + r;
    ModUnique(x, TWO_TO_64, a / 256, y);
    ModUnique(y, 0x100_0000_0000_0000, a % 256, r);
    ModUnique(v + 256 * x, TWO_TO_64, a, 256 * r + v);
  }

  lemma ModUnique(x: int, k: int, q: int, r: int)
    requires 0 <= r < k && x == q * k + r
    ensures x % k == r
  {
    var q2 := x / k;
    if q > q2 {
      MulMonotone(q2 + 1, q, k);
      assert false;
    } else if q < q2 {
      MulMonotone(q + 1, q2, k);
      assert false;
    }
  }

  lemma MulMonotone(a: int, b: int, k: int)
    requires a <= b && 0 < k
    ensures a * k <= b * k
    ensures (a + 1) * k == a * k + k
  {
  }

  /** One step of GetXBytes: shifting in byte n - 1 extends the fold of bytes n .. top down by one. */
  lemma FoldStep(bs: seq<bv8>, n: nat, top: nat, res: nat)
    requires 0 < n <= top <= |bs| && res == LittleEndian(bs[n..top]) % TWO_TO_64
    ensures res % 0x100_0000_0000_0000 * 256 + ByteValue(bs[n - 1]) == LittleEndian(bs[n - 1..top]) % TWO_TO_64
  {
    var rest := bs[n..top];
    assert bs[n - 1..top] == [bs[n - 1]] + rest;
    LittleEndianCons(bs[n - 1], rest);
    ShiftInByte(LittleEndian(rest), bs[n - 1]);
  }

  /* ---------- Writing the significant bits of a number ---------- */

  /** x >> t, for unsigned x. */
  function Shr(x: nat, t: nat): nat
  {
    if t == 0 then x else Shr(x / 2, t - 1)
  }

  lemma {:induction false} ShrZero(t: nat)
    ensures Shr(0, t) == 0
  {
    if t > 0 {
      ShrZero(t - 1);
    }
  }

  /**
   * The bits stored by writing x from bit pos on: one bit of x per position, least
   * significant first, until x runs out or the limit is reached.
   */
  function WriteNum(bits: seq<bool>, pos: nat, x: nat, limit: nat): (r: seq<bool>)
    requires limit <= |bits|
    ensures |r| == |bits|
    decreases x
  {
    if x == 0 || pos >= limit then bits
    else WriteNum(bits[pos := x % 2 == 1], pos + 1, x / 2, limit)
  }

  /**
   * Bit pos + t becomes bit t of x when x >> t is not zero and pos + t is below
   * the limit; every other bit keeps its value.
   */
  lemma {:induction false} WriteNumAt(bits: seq<bool>, pos: nat, x: nat, limit: nat, k: nat)
    requires limit <= |bits| && k < |bits|
    ensures WriteNum(bits, pos, x, limit)[k] ==
              if pos <= k < limit && Shr(x, k - pos) != 0 then Shr(x, k - pos) % 2 == 1 else bits[k]
    decreases x
  {
    if x == 0 {
      if pos <= k {
        ShrZero(k - pos);
      }
    } else if pos < limit {
      WriteNumAt(bits[pos := x % 2 == 1], pos + 1, x / 2, limit, k);
    }
  }

  /** numToBool(uint8(x & 0x1)) is the lowest bit of x. */
  lemma LowBit(x: nat)
    ensures NumToBool((x % 2) as bv8) == (x % 2 == 1)
  {
    if x % 2 == 0 {
      assert (x % 2) as bv8 == 0;
    } else {
      assert (x % 2) as bv8 == 1;
    }
  }

  /** Writing the lowest bit of x at pos, then the rest of x from pos + 1, is writing x from pos. */
  lemma WriteNumStep(bits: seq<bool>, pos: nat, x: nat, limit: nat)
    requires x != 0 && pos < limit <= |bits|
    ensures WriteNum(bits[pos := x % 2 == 1], pos + 1, x / 2, limit) == WriteNum(bits, pos, x, limit)
  {
  }

  /* ---------- The buffer ---------- */

  class BitSequence {
    const data: array<bv8>
    const numBits: nat
    const bytesAllocated: nat
    var nextBitIdx: nat
    var nextByteIdx: nat

    /** The storage matches the declared size; each cursor stays within its range. */
    ghost predicate Valid()
      reads this
    {
      && data.Length == bytesAllocated == BytesFor(numBits)
      && nextBitIdx <= numBits
      && nextByteIdx <= bytesAllocated
    }

    /** Every stored bit, eight per byte, least significant first (padding included). */
    ghost function Bits(): (r: seq<bool>)
      reads this, data
    {
      BytesToBits(data[..])
    }

    /** NewBitSequence: zeroed storage for numBits bits, both cursors at 0. */
    constructor (numBits: nat)
      ensures Valid() && fresh(data)
      ensures this.numBits == numBits && bytesAllocated == BytesFor(numBits)
      ensures data[..] == Zeros(bytesAllocated)
      ensures forall i :: 0 <= i < |Bits()| ==> !Bits()[i]
      ensures nextBitIdx == 0 && nextByteIdx == 0
    {
      var n := numBits / BYTE_LENGTH;
      if numBits % BYTE_LENGTH != 0 {
        n := n + 1;
      }
      this.numBits := numBits;
      bytesAllocated := n;
      data := new bv8[n](_ => 0);
      nextBitIdx, nextByteIdx := 0, 0;
      new;
      assert data[..] == Zeros(n);
      forall i | 0 <= i < |Bits()|
        ensures !Bits()[i]
      {
        ZeroBytesHaveZeroBits(n, i);
      }
    }

    /**
     * A buffer for bitLen bits whose leading bytes are copied from bytes through the
     * byte cursor. Fails when there is no byte to seek to or more bytes than room.
     */
    static method NewBitSequenceFromByteArray(bytes: seq<bv8>, bitLen: nat) returns (r: Result<BitSequence>)
      ensures r.Ok? <==> 1 <= BytesFor(bitLen) && |bytes| <= BytesFor(bitLen)
      ensures r.Err? ==> r.error == OutOfRange
      ensures r.Ok? ==> fresh(r.value) && fresh(r.value.data) && r.value.Valid()
      ensures r.Ok? ==> r.value.numBits == bitLen
      ensures r.Ok? ==> r.value.data[..] == bytes + Zeros(BytesFor(bitLen) - |bytes|)
      ensures r.Ok? ==> r.value.nextByteIdx == |bytes| && r.value.nextBitIdx == 0
    {
      var bitSeq := new BitSequence(bitLen);
      var o := bitSeq.SetNextByteStart(0);
      if o.Fail? {
        return Err(o.error);
      }
      var i := 0;
      while i < |bytes|
        invariant 0 <= i <= |bytes| && i <= bitSeq.bytesAllocated
        invariant fresh(bitSeq) && fresh(bitSeq.data) && bitSeq.Valid()
        invariant bitSeq.numBits == bitLen && bitSeq.nextBitIdx == 0 && bitSeq.nextByteIdx == i
        invariant bitSeq.data[..] == bytes[..i] + Zeros(bitSeq.bytesAllocated - i)
      {
        var w := bitSeq.SetNextByte(bytes[i]);
        if w.Fail? {
          return Err(w.error);
        }
        assert bytes[..i + 1] == bytes[..i] + [bytes[i]];
        i := i + 1;
      }
      assert bytes[..i] == bytes;
      return Ok(bitSeq);
    }

    /** Sets or clears one bit; an index outside [0, numBits) fails and changes nothing. */
    method SetBit(bitIdx: int, value: bool) returns (o: Outcome)
      requires Valid()
      modifies data
      ensures Valid()
      ensures o == if 0 <= bitIdx < numBits then Pass else Fail(OutOfRange)
      ensures o.Pass? ==> Bits() == old(Bits())[bitIdx := value]
      ensures o.Fail? ==> data[..] == old(data[..])
    {
      if bitIdx < 0 || bitIdx >= numBits {
        return Fail(OutOfRange);
      }
      var byteIdx := bitIdx / BYTE_LENGTH;
      var bitIdxInByte := bitIdx % BYTE_LENGTH;
      var b := MaskedByte(data[byteIdx], bitIdxInByte, value);
      ghost var before := data[..];
      BytesToBitsUpdateBit(before, byteIdx, bitIdxInByte, b, value);
      assert 8 * byteIdx + bitIdxInByte == bitIdx;
      data[byteIdx] := b;
      assert data[..] == before[byteIdx := b];
      return Pass;
    }

    /** Writes the bits of number from startBitIdx on, least significant first, while
        bits of it remain and the buffer has room; higher positions are left alone. */
    method SetBitsFromNum(startBitIdx: int, number: uint64) returns (o: Outcome)
      requires Valid()
      modifies data
      ensures Valid()
      ensures o == if 0 <= startBitIdx < numBits then Pass else Fail(OutOfRange)
      ensures o.Pass? ==> Bits() == WriteNum(old(Bits()), startBitIdx, number as nat, numBits)
      ensures o.Fail? || number == 0 ==> Bits() == old(Bits())
    {
      if startBitIdx < 0 || startBitIdx >= numBits {
        return Fail(OutOfRange);
      }
      var idx: nat := startBitIdx;
      var n := number;
      while n != 0 && idx < numBits
        invariant Valid()
        invariant WriteNum(Bits(), idx, n as nat, numBits) == WriteNum(old(Bits()), startBitIdx, number as nat, numBits)
        invariant n == number ==> Bits() == old(Bits())
        decreases n
      {
        ghost var before := Bits();
        var bit := NumToBool((n % 2) as bv8);
        LowBit(n as nat);
        var w := SetBit(idx, bit);
        WriteNumStep(before, idx, n as nat, numBits);
        n := n / 2;
        idx := idx + 1;
      }
      return Pass;
    }

    /** Reads one bit; an index outside [0, numBits) fails. */
    function GetBit(bitIdx: int): (r: Result<bool>)
      requires Valid()
      reads this, data
      ensures r.Ok? <==> 0 <= bitIdx < numBits
      ensures r.Ok? ==> r.value == Bits()[bitIdx]
      ensures r.Err? ==> r.error == OutOfRange
    {
      if bitIdx < 0 || bitIdx >= numBits then Err(OutOfRange)
      else
        var byteIdx := bitIdx / BYTE_LENGTH;
        var bitIdxInByte := bitIdx % BYTE_LENGTH;
        var zeroOrOne := (data[byteIdx] >> bitIdxInByte) & 0x1;
        BytesToBitsAt(data[..], bitIdx);
        ShiftedBit(data[byteIdx], bitIdxInByte);
        Ok(NumToBool(zeroOrOne))
    }

    /** Reads one byte; an index outside [0, bytesAllocated) fails. */
    function GetByte(byteIdx: int): (r: Result<bv8>)
      requires Valid()
      reads this, data
      ensures r.Ok? <==> 0 <= byteIdx < bytesAllocated
      ensures r.Ok? ==> ByteBits(r.value) == Bits()[8 * byteIdx .. 8 * byteIdx + 8]
      ensures r.Err? ==> r.error == OutOfRange
    {
      if byteIdx < 0 || byteIdx >= bytesAllocated then Err(OutOfRange)
      else
        BytesToBitsSlice(data[..], byteIdx);
        Ok(data[byteIdx])
    }

    /** GetByte's bit-level contract pins down the stored byte itself. */
    lemma GetByteIsStoredByte(byteIdx: int)
      requires Valid() && 0 <= byteIdx < bytesAllocated
      ensures GetByte(byteIdx) == Ok(data[byteIdx])
    {
      var b := GetByte(byteIdx).value;
      BytesToBitsSlice(data[..], byteIdx);
      ByteBitsInjective(b, data[byteIdx]);
    }

    /**
     * Folds the first numBytes bytes (at most all of them) into a uint64, byte 0
     * least significant, wrapping modulo 2^64. A negative count fails.
     */
    method GetXBytes(numBytes: int) returns (r: Result<uint64>)
      requires Valid()
      ensures numBytes < 0 ==> r == Err(OutOfRange)
      ensures numBytes >= 0 ==>
                r == Ok((LittleEndian(data[..Min(numBytes, bytesAllocated)]) % TWO_TO_64) as uint64)
    {
      var n := numBytes;
      if n > bytesAllocated {
        n := bytesAllocated;
      }
      ghost var top := n;
      var res: uint64 := 0;
      while n != 0
        invariant numBytes < 0 ==> n == numBytes && res == 0
        invariant numBytes >= 0 ==> 0 <= n <= top == Min(numBytes, bytesAllocated)
        invariant numBytes >= 0 ==> res as nat == LittleEndian(data[n..top]) % TWO_TO_64
        decreases if n < 0 then 0 else n
      {
        var b := GetByte(n - 1);
        if b.Err? {
          return Err(b.error);
        }
        FoldStep(data[..], n, top, res as nat);
        res := (res as int % 0x100_0000_0000_0000 * 256 + ByteValue(b.value)) as uint64;
        n := n - 1;
      }
      assert numBytes >= 0 ==> data[n..top] == data[..top];
      return Ok(res);
    }

    /** Positions the bit cursor; an index outside [0, numBits) fails and moves nothing. */
    method SetNextBitStart(bitIdx: int) returns (o: Outcome)
      requires Valid()
      modifies this`nextBitIdx
      ensures Valid()
      ensures o == if 0 <= bitIdx < numBits then Pass else Fail(OutOfRange)
      ensures nextBitIdx == if o.Pass? then bitIdx else old(nextBitIdx)
    {
      if bitIdx < 0 || bitIdx >= numBits {
        return Fail(OutOfRange);
      }
      nextBitIdx := bitIdx;
      return Pass;
    }

    /** The reading side's seek: it positions the same, single bit cursor. */
    method GetNextBitStart(bitIdx: int) returns (o: Outcome)
      requires Valid()
      modifies this`nextBitIdx
      ensures Valid()
      ensures o == if 0 <= bitIdx < numBits then Pass else Fail(OutOfRange)
      ensures nextBitIdx == if o.Pass? then bitIdx else old(nextBitIdx)
    {
      o := SetNextBitStart(bitIdx);
    }

    /** Writes the bit at the cursor and advances it; at the end it fails in SetBit. */
    method SetNextBit(value: bool) returns (o: Outcome)
      requires Valid()
      modifies this`nextBitIdx, data
      ensures Valid()
      ensures o == if old(nextBitIdx) < numBits then Pass else Fail(OutOfRange)
      ensures o.Pass? ==> Bits() == old(Bits())[old(nextBitIdx) := value] && nextBitIdx == old(nextBitIdx) + 1
      ensures o.Fail? ==> data[..] == old(data[..]) && nextBitIdx == old(nextBitIdx)
    {
      o := SetBit(nextBitIdx, value);
      if o.Pass? {
        nextBitIdx := nextBitIdx + 1;
      }
    }

    /** Reads the bit at the cursor and advances it; at the end it fails and moves nothing. */
    method GetNextBit() returns (r: Result<bool>)
      requires Valid()
      modifies this`nextBitIdx
      ensures Valid()
      ensures r.Ok? <==> old(nextBitIdx) < numBits
      ensures r.Ok? ==> r.value == Bits()[old(nextBitIdx)] && nextBitIdx == old(nextBitIdx) + 1
      ensures r.Err? ==> r.error == CursorExhausted && nextBitIdx == old(nextBitIdx)
    {
      if nextBitIdx >= numBits {
        return Err(CursorExhausted);
      }
      r := GetBit(nextBitIdx);
      nextBitIdx := nextBitIdx + 1;
    }

    /** Positions the byte cursor; an index outside [0, bytesAllocated) fails and moves nothing. */
    method SetNextByteStart(byteIdx: int) returns (o: Outcome)
      requires Valid()
      modifies this`nextByteIdx
      ensures Valid()
      ensures o == if 0 <= byteIdx < bytesAllocated then Pass else Fail(OutOfRange)
      ensures nextByteIdx == if o.Pass? then byteIdx else old(nextByteIdx)
    {
      if byteIdx < 0 || byteIdx >= bytesAllocated {
        return Fail(OutOfRange);
      }
      nextByteIdx := byteIdx;
      return Pass;
    }

    /** Overwrites the byte at the cursor and advances it; past the end the slice index fails. */
    method SetNextByte(b: bv8) returns (o: Outcome)
      requires Valid()
      modifies this`nextByteIdx, data
      ensures Valid()
      ensures o == if old(nextByteIdx) < bytesAllocated then Pass else Fail(OutOfRange)
      ensures o.Pass? ==> data[..] == old(data[..])[old(nextByteIdx) := b] && nextByteIdx == old(nextByteIdx) + 1
      ensures o.Fail? ==> data[..] == old(data[..]) && nextByteIdx == old(nextByteIdx)
    {
      if nextByteIdx >= data.Length {
        return Fail(OutOfRange);
      }
      data[nextByteIdx] := b;
      nextByteIdx := nextByteIdx + 1;
      return Pass;
    }

    /** Reads the byte at the cursor and advances it; at the end it fails and moves nothing. */
    method GetNextByte() returns (r: Result<bv8>)
      requires Valid()
      modifies this`nextByteIdx
      ensures Valid()
      ensures r.Ok? <==> old(nextByteIdx) < bytesAllocated
      ensures r.Ok? ==> r.value == data[old(nextByteIdx)] && nextByteIdx == old(nextByteIdx) + 1
      ensures r.Err? ==> r.error == CursorExhausted && nextByteIdx == old(nextByteIdx)
    {
      if nextByteIdx >= bytesAllocated {
        return Err(CursorExhausted);
      }
      r := GetByte(nextByteIdx);
      nextByteIdx := nextByteIdx + 1;
    }

    /** A copy of the stored bytes (the Go code hands out the live slice). */
    function GetBitSeq(): (r: seq<bv8>)
      requires Valid()
      reads this, data
      ensures |r| == bytesAllocated && BytesToBits(r) == Bits()
    {
      data[..]
    }

    function GetNumBits(): (r: nat)
      requires Valid()
      reads this
      ensures r <= 8 * GetBytesAllocated()
    {
      numBits
    }

    function GetBytesAllocated(): (r: nat)
      requires Valid()
      reads this
      ensures r == bytesAllocated == BytesFor(numBits)
    {
      data.Length
    }

    function GetNextBitIdx(): (r: nat)
      requires Valid()
      reads this
      ensures r <= numBits
    {
      nextBitIdx
    }

    function GetNextByteIdx(): (r: nat)
      requires Valid()
      reads this
      ensures r <= bytesAllocated
    {
      nextByteIdx
    }

    /** Zeroes every byte; the cursors are not touched. */
    method Clear()
      requires Valid()
      modifies data
      ensures Valid()
      ensures data[..] == Zeros(bytesAllocated)
      ensures forall i :: 0 <= i < |Bits()| ==> !Bits()[i]
    {
      var i := 0;
      while i < data.Length
        invariant 0 <= i <= data.Length
        invariant forall j :: 0 <= j < i ==> data[j] == 0
      {
        data[i] := 0;
        i := i + 1;
      }
      assert data[..] == Zeros(bytesAllocated);
      forall i | 0 <= i < |Bits()|
        ensures !Bits()[i]
      {
        ZeroBytesHaveZeroBits(bytesAllocated, i);
      }
    }

    /** The bits as '0'/'1' text, highest index first. */
    method String() returns (s: string)
      requires Valid()
      ensures |s| == numBits
      ensures forall k :: 0 <= k < numBits ==> s[k] == if Bits()[numBits - 1 - k] then '1' else '0'
    {
      s := "";
      var i: int := numBits - 1;
      while i >= 0
        invariant -1 <= i < numBits
        invariant |s| == numBits - 1 - i
        invariant forall k :: 0 <= k < |s| ==> s[k] == if Bits()[numBits - 1 - k] then '1' else '0'
      {
        var bit := GetBit(i);
        s := s + [('0' as int + BoolToInt(bit.value)) as char];
        i := i - 1;
      }
    }
  }

  /**
   * Seeking to 0, writing bits one by one, seeking back to 0 and reading as many
   * gives back the bits written.
   */
  method WriteThenReadBits(bs: BitSequence, bits: seq<bool>) returns (read: seq<bool>)
    requires bs.Valid() && 0 < bs.numBits && |bits| <= bs.numBits
    modifies bs, bs.data
    ensures bs.Valid()
    ensures read == bits
  {
    var o := bs.SetNextBitStart(0);
    var i := 0;
    while i < |bits|
      invariant bs.Valid() && 0 <= i <= |bits| && bs.nextBitIdx == i
      invariant forall k :: 0 <= k < i ==> bs.Bits()[k] == bits[k]
    {
      o := bs.SetNextBit(bits[i]);
      i := i + 1;
    }
    o := bs.GetNextBitStart(0);
    read := [];
    while |read| < |bits|
      invariant bs.Valid() && |read| <= |bits| && bs.nextBitIdx == |read|
      invariant forall k :: 0 <= k < |bits| ==> bs.Bits()[k] == bits[k]
      invariant read == bits[..|read|]
    {
      var r := bs.GetNextBit();
      read := read + [r.value];
    }
  }

  /** Writing 11 (binary 1011) into a fresh 8-bit buffer from bit 0 renders as "00001011". */
  method RenderElevenInEightBits() returns (s: string)
    ensures s == "00001011"
  {
    var bs := new BitSequence(8);
    ghost var zero := bs.Bits();
    var o := bs.SetBitsFromNum(0, 11);
    WriteNumAt(zero, 0, 11, 8, 0);
    WriteNumAt(zero, 0, 11, 8, 1);
    WriteNumAt(zero, 0, 11, 8, 2);
    WriteNumAt(zero, 0, 11, 8, 3);
    WriteNumAt(zero, 0, 11, 8, 4);
    WriteNumAt(zero, 0, 11, 8, 5);
    WriteNumAt(zero, 0, 11, 8, 6);
    WriteNumAt(zero, 0, 11, 8, 7);
    s := bs.String();
    assert s[0] == '0' && s[1] == '0' && s[2] == '0' && s[3] == '0';
    assert s[4] == '1' && s[5] == '0' && s[6] == '1' && s[7] == '1';
  }
}
