# go-containers: BitSequence and the hex utilities, in Dafny

This project models two parts of the Go package set `go-containers`.

**`BitSequence`** (`bit_sequence.dfy`, module `BitStructs`) is a fixed-capacity run of bits
stored in a byte array.
- Bit `i` lives in byte `i / 8`, at position `i % 8`, least significant bit first.
- A buffer for `numBits` bits holds `ceil(numBits / 8)` bytes.
- Bits and bytes are read and written by index, or one after another through two cursors: a bit cursor and a byte cursor.
- Other operations:
  - building a buffer from a byte slice;
  - writing the bits of a `uint64`;
  - folding the low bytes into a little-endian `uint64`;
  - clearing all bytes;
  - rendering the bits as `'0'`/`'1'` text, highest index first.

The class keeps the Go struct's fields:
- the byte storage, as an `array<bv8>` that methods update in place;
- `numBits` and `bytesAllocated`;
- the two cursors, as mutable fields.

The ghost view `Bits()` lists every stored bit, the padding bits of the last byte included. The contracts are stated against that view.

Each Go `panic` is modelled as an error value, `Fail(e)` or `Err(e)`, and a call that fails changes nothing.
- `OutOfRange` covers an index outside the buffer. It also covers a write past the last bit, which fails in `SetBit`, and a write past the last byte, which fails at the slice index.
- `CursorExhausted` covers a sequential read whose cursor is already at the end.

**Hex utilities** (`utils.dfy`, module `Utils`):
- `NumToHexString` renders a natural number in uppercase base 16. It builds the text from the least significant digit up, using the same character arithmetic as the Go code.
- `HexStringToInt` parses text from the last character back to the first. It adds `digit * 16^k` for each character.
  - A Go string is indexed by byte, so the model treats the text as one character per byte.
  - A decimal digit counts as itself. Every other byte counts as `(c - 'A') + 10` in wrapping 8-bit arithmetic.
- Each operation has an independent reference:
  - for the renderer, `Digits`/`ToHex`, defined by `n / 16` and `n % 16`;
  - for the parser, `HexValue`, the positional sum.
- The two are tied together by a round trip in both directions.

Where the code and a reading of its intent differ, the model follows the code:
- There is no "cursor not yet positioned" state. Both cursors start at 0, and every seek rejects negative indices.
- There is no direct byte setter. Bytes are written only through `SetNextByteStart` and `SetNextByte`.
- `String` writes bit `numBits - 1` first. So writing 11 (binary 1011) into a fresh 8-bit buffer renders as `"00001011"`; `RenderElevenInEightBits` states this.
- An overrun of `SetNextByte` is an index error (`OutOfRange`), not an exhausted cursor, because that is how the Go code fails.

## Model

| member | source | states |
|---|---|---|
| BitStructs.BytesFor | bit-structs/bit_sequence.go:19-22 | the byte count is the least n with 8n >= numBits (ceil(numBits / 8)) |
| BitStructs.BitSequence.constructor | bit-structs/bit_sequence.go:17-28 | allocates BytesFor(numBits) bytes, all zero; every bit is clear; both cursors are 0 |
| BitStructs.BitSequence.NewBitSequenceFromByteArray | bit-structs/bit_sequence.go:30-39 | succeeds exactly when there is at least one byte and the input fits; then the storage is the input bytes followed by zeros, the byte cursor equals the input length and the bit cursor is 0; otherwise OutOfRange |
| BitStructs.BitSequence.SetBit | bit-structs/bit_sequence.go:41-53 | succeeds exactly for 0 <= bitIdx < numBits; then the bit view is the old view with bit bitIdx replaced by the value, and no other bit changes; a failure leaves the storage unchanged; the cursors are outside its frame |
| BitStructs.MaskedByte | bit-structs/bit_sequence.go:48-52 | OR with 1 << p sets bit p, AND with its complement clears it; each leaves the other seven bits as they were |
| BitStructs.BytesToBitsUpdateBit | bit-structs/bit_sequence.go:45-52 | replacing byte j by a byte that differs only in bit p changes bit 8j + p of the bit view and nothing else |
| BitStructs.BytesToBitsAt | bit-structs/bit_sequence.go:104-107 | bit i of the view is bit i % 8 of byte i / 8 |
| BitStructs.BitSequence.SetBitsFromNum | bit-structs/bit_sequence.go:55-65 | succeeds exactly for a start index in [0, numBits); then the bits are WriteNum of the old bits; a failure, or number 0, leaves every bit unchanged |
| BitStructs.WriteNumAt | bit-structs/bit_sequence.go:60-64 | after WriteNum from pos, bit pos + t is bit t of x whenever x >> t != 0 and pos + t < numBits; every other bit, including the higher ones left when x runs out, keeps its value |
| BitStructs.WriteNumStep | bit-structs/bit_sequence.go:60-64 | one loop turn (write the low bit, shift x, advance) leaves the remaining write equal to the whole write |
| BitStructs.LowBit | bit-structs/bit_sequence.go:61 | numToBool(uint8(x & 1)) is true exactly when x is odd |
| BitStructs.BitSequence.GetBit | bit-structs/bit_sequence.go:99-111 | succeeds exactly for 0 <= bitIdx < numBits and then returns bit bitIdx of the view; otherwise OutOfRange |
| BitStructs.ShiftedBit | bit-structs/bit_sequence.go:107-109 | shifting right by p and masking with 1 reads bit p of the byte |
| BitStructs.BitSequence.GetByte | bit-structs/bit_sequence.go:113-119 | succeeds exactly for 0 <= byteIdx < bytesAllocated, and the byte's eight bits are bits 8 byteIdx .. 8 byteIdx + 7 of the view; otherwise OutOfRange |
| BitStructs.BitSequence.GetByteIsStoredByte | bit-structs/bit_sequence.go:113-119 | for an index in range, GetByte returns exactly the stored byte |
| BitStructs.BitsDetermineBytes | bit-structs/bit_sequence.go:113-119 | two byte sequences of one length with the same bit view are equal, so the bit-level contracts fix the bytes |
| BitStructs.BitSequence.GetXBytes | bit-structs/bit_sequence.go:121-134 | for a count k >= 0, returns the sum of data[j] * 256^j over j < min(k, bytesAllocated), taken modulo 2^64; a negative count fails with OutOfRange, as the first GetByte would; changes nothing |
| BitStructs.LittleEndianCons | bit-structs/bit_sequence.go:128-132 | prepending a byte to the fold multiplies the rest by 256 and adds the byte (Horner's rule, as the loop computes it) |
| BitStructs.ShiftInByte | bit-structs/bit_sequence.go:129-130 | `res <<= 8; res \|= b` on a uint64 is (b + 256 res) mod 2^64 |
| BitStructs.FoldStep | bit-structs/bit_sequence.go:128-132 | one loop turn extends the fold of bytes n .. top down to byte n - 1, modulo 2^64 |
| BitStructs.LittleEndianFits | bit-structs/bit_sequence.go:121-134 | with at most eight bytes the fold is below 2^64, so no byte is lost |
| BitStructs.BitSequence.SetNextBitStart | bit-structs/bit_sequence.go:67-73 | accepts exactly [0, numBits) and sets the bit cursor there; otherwise OutOfRange and the cursor stays |
| BitStructs.BitSequence.GetNextBitStart | bit-structs/bit_sequence.go:136-141 | the same contract as SetNextBitStart, on the same single bit cursor |
| BitStructs.BitSequence.SetNextBit | bit-structs/bit_sequence.go:75-81 | writes the bit at the cursor and advances the cursor by one; at the end it fails (OutOfRange) before the write and before the advance |
| BitStructs.BitSequence.GetNextBit | bit-structs/bit_sequence.go:143-153 | returns the bit at the cursor and advances the cursor by one; at the end it fails with CursorExhausted and moves nothing |
| BitStructs.BitSequence.SetNextByteStart | bit-structs/bit_sequence.go:83-88 | accepts exactly [0, bytesAllocated) and sets the byte cursor there; otherwise OutOfRange and the cursor stays |
| BitStructs.BitSequence.SetNextByte | bit-structs/bit_sequence.go:90-97 | overwrites the byte at the cursor, changing no other byte, and advances the cursor by one; past the end it fails (OutOfRange) with storage and cursor unchanged |
| BitStructs.BitSequence.GetNextByte | bit-structs/bit_sequence.go:155-165 | returns the byte at the cursor and advances the cursor by one; at the end it fails with CursorExhausted and moves nothing |
| BitStructs.BitSequence.GetBitSeq | bit-structs/bit_sequence.go:167-169 | returns the stored bytes, whose bit view is Bits() |
| BitStructs.BitSequence.GetNumBits | bit-structs/bit_sequence.go:171-173 | the bit count fits in the allocated bytes |
| BitStructs.BitSequence.GetBytesAllocated | bit-structs/bit_sequence.go:174-176 | the length of the storage is the recorded byte count, ceil(numBits / 8) |
| BitStructs.BitSequence.GetNextBitIdx | bit-structs/bit_sequence.go:177-179 | the bit cursor never passes numBits |
| BitStructs.BitSequence.GetNextByteIdx | bit-structs/bit_sequence.go:180-182 | the byte cursor never passes bytesAllocated |
| BitStructs.BitSequence.Clear | bit-structs/bit_sequence.go:184-188 | every byte becomes 0, so every bit is clear; the cursors are outside its frame |
| BitStructs.BitSequence.String | bit-structs/bit_sequence.go:190-200 | the text has numBits characters, and character k is '1' exactly when bit numBits - 1 - k is set, '0' otherwise; changes nothing |
| BitStructs.NumToBool | bit-structs/bit_sequence.go:202-207 | numToBool is false exactly when none of the byte's eight bits is set, i.e. it is n != 0 |
| BitStructs.BoolToInt | bit-structs/bit_sequence.go:202-214 | boolToInt gives 0 or 1, and numToBool of it gives the boolean back |
| BitStructs.WriteThenReadBits | bit-structs/bit_sequence.go:67-81 | seeking to 0, writing bits one by one, seeking back to 0 and reading as many returns exactly the bits written |
| BitStructs.RenderElevenInEightBits | bit-structs/bit_sequence.go:55-65 | writing 11 from bit 0 into a fresh 8-bit buffer renders as "00001011" |
| Utils.NumToHexString | utils/utils.go:8-25 | returns ToHex(num): "0" for zero, otherwise the base-16 digits of num, most significant first |
| Utils.DigitsStep | utils/utils.go:14-21 | the character the loop computes ('0' + r, or 'A' + (r - 10)) is the last digit of n, with the digits of n / 16 before it |
| Utils.HexDigit | utils/utils.go:14-19 | the character written for d is an uppercase hex digit whose value is d |
| Utils.ToHex | utils/utils.go:8-25 | the text is nonempty uppercase hex; it is "0" exactly for zero; for n > 0 it has no leading '0' |
| Utils.ToHexLastDigit | utils/utils.go:13-22 | for n > 0 the last character is digit n % 16, preceded by the rendering of n / 16 (nothing when n < 16) |
| Utils.ToHexLength | utils/utils.go:13-22 | a rendering of length L of n > 0 satisfies 16^(L-1) <= n < 16^L |
| Utils.ToHexCanonical | utils/utils.go:8-25 | any hex text without a leading '0' is the rendering of its own value |
| Utils.DigitsOfValue | utils/utils.go:13-22 | any hex text without a leading '0' is the digit string of its own value |
| Utils.HexStringToInt | utils/utils.go:27-41 | returns HexValue(hexStr), the sum of DigitValue(s[i]) * 16^(len - 1 - i); the empty text gives 0 |
| Utils.DigitValue | utils/utils.go:33-37 | a byte's value is below 256; for a hex digit it is below 16 and is 0 exactly for '0' |
| Utils.ParseStep | utils/utils.go:30-39 | one loop turn adds the byte at idx times 16^(bytes after it) to the value of the suffix |
| Utils.DigitShiftIsProduct | utils/utils.go:34-36 | d shifted k hex places is d * 16^k, the product the loop adds |
| Utils.HexValueBound | utils/utils.go:27-41 | k hex digits give a value below 16^k |
| Utils.HexValueSnoc | utils/utils.go:27-41 | appending a byte multiplies the value so far by 16 and adds the byte's value |
| Utils.LeadingZeros | utils/utils.go:27-41 | leading '0' characters do not change the parsed value ("00A" parses as "A") |
| Utils.DigitsValue | utils/utils.go:8-41 | parsing the digits of n gives n |
| Utils.HexRoundTrip | utils/utils.go:8-41 | parsing the rendering of any n gives n |
| Utils.NumToHexAndBack | utils/utils.go:8-41 | for n below 2^63, HexStringToInt(NumToHexString(n)) == n |

## Left out

- Value receivers with pointer fields: in Go a copied `BitSequence` shares its storage and cursors with the original. The model has one object per buffer and no struct copies.
- `BitStructs.BitSequence.GetBitSeq`: returns the stored bytes as a value. The Go method hands out the live slice, through which a caller could change the buffer.
- The `-1` "never called" checks in `SetNextBit`, `SetNextByte`, `GetNextBit` and `GetNextByte` are not modelled. They cannot fire: the cursors start at 0, and no seek accepts a negative index.
- A negative `numBits` or `bitLen` is not modelled; the model's sizes are natural numbers. Go's `/` and `%` truncate, so for -7..-1 it allocates one byte, and for -15..-9 none, without a panic. On such a buffer every bit operation fails, but the byte cursor, `GetByte` and `GetXBytes` still work. `make` panics only when the truncated count is itself negative (-8, -16, -17, ...).
- Go's `BYTE_LENGTH` is a package-level variable; the model takes it as the constant 8 it is initialised to.
- Panic messages and the panic and recover mechanism: a panic is an error result, and callers in the model inspect it.
- `String` renders each bit with `fmt.Sprintf("%v", …)`. The model appends `'0' + boolToInt(bit)` instead, which is the same character for 0 and 1.
- `Utils.HexStringToInt`: requires the exact value to be below 2^63. Past that, Go's `int` overflows, and `int(math.Pow(16, k))` for k >= 16 is outside what the conversion defines. `math.Pow` is modelled as the exact power 16^k.
- `Utils.HexStringToInt`: requires one character per byte. A Go string holding multi-byte UTF-8 characters would be indexed byte by byte, and the model does not split characters into bytes.
- `Utils.NumToHexString`: takes any natural number. Go's `uint` is at most 2^64 - 1 (32 or 64 bits, depending on the platform), a bound the rendering never relies on.
