# ArithUint256 in Dafny

A model of `common/arith_uint256.go`: `ArithUint256` is a 256-bit unsigned number held as eight
32-bit words, least significant first (`pn [8]uint32`). It is the Go port of Bitcoin's
`arith_uint256`, and it serves proof-of-work code. The code provides:

- construction from a `uint64` or from a 32-byte digest;
- comparison and bit length;
- shifts and word-wise logic;
- addition, negation, subtraction, multiplication and long division;
- the block-header "nBits" compact encoding (`SetCompact` / `GetCompact`);
- the digest conversion (`FromHash` / `GetBytes`).

The model follows the code **as written**. Where the code departs from true 256-bit arithmetic, the
model keeps the departure and proves it as a lemma:

- **`FromUint64`.** It clears words 2 to 6 only, so word 7 keeps its old value.
- **`Add`.** It adds two words in 32 bits before widening them. The carry is therefore always 0,
  and each word becomes the lane sum modulo 2^32.
- **`Add1`.** It skips a word after a wrap, so the carry lands on word i + 2.
- **`Neg`, `Sub` and `Div`.** Because of the above, these are not two's-complement negation,
  subtraction or floor division.

The intended meaning of these operations is true two's-complement arithmetic and floor division.
The model states the code's behaviour instead.

How it is organised:

- `ArithUint256` is a class, in module `Uint256`, holding `const pn: array<u32>`. Each method
  runs the loops of the Go method.
- Each method is proved to leave exactly the words that a pure function over `seq<u32>`
  describes (`ShiftLeft`, `MulWords`, `DivWords`, `CompactOf`, …).
- What those words mean is proved about the functions, against `Val(w) = Σ w[i]·2^(32·i)`:
  - the value modulo 2^256;
  - the lane-wise sums;
  - the compact and digest codecs.
- `Cmp`, `bits` and `getLow64` only read, so they are functions.
- Go's `&`, `|`, `^`, `<<` and `>>` are written out on naturals (module `Unsigned`). Every `uint64`
  intermediate has a subset type, so each assignment is proved not to wrap.

Modules:

| module | contents |
|---|---|
| `MathLemmas` | powers of two and division facts |
| `Unsigned` | word types and bit operators |
| `Limbs` | `Val` and `Weight` |
| `Construct` | `FromUint64` |
| `Queries` | `Cmp`, `bits`, `getLow64` |
| `Shifts` | the two shifts |
| `Wordwise` | `Not`, `And`, `Or`, `Xor` |
| `AddSub` | `Add`, `Add1`, `Neg`, `Sub` |
| `Mul` | the three multiplications |
| `Div` | the long division |
| `Compact` | the nBits codec |
| `HashBytes` | the digest codec and `reverse` |
| `Uint256` | the class |

## Model

| member | source | states |
|---|---|---|
| Uint256.ArithUint256.constructor | common/arith_uint256.go:7-9 | `new(ArithUint256)` is eight zero words |
| Uint256.ArithUint256.FromUint64 | common/arith_uint256.go:12-18 | words 0 and 1 get the low and high halves of v, words 2..6 are cleared, word 7 is kept; the value is v + old word 7 · 2^224 |
| Construct.FromUint64Val | common/arith_uint256.go:12-18 | the value `FromUint64(v)` leaves is v plus the stale word 7 times 2^224 |
| Construct.FromUint64Exact | common/arith_uint256.go:12-18 | with word 7 clear on entry, `FromUint64(v)` leaves exactly v |
| HashBytes.Reverse | common/arith_uint256.go:20-25 | the in-place swap loop leaves the window lo..hi reversed and every other byte as it was |
| HashBytes.ReversedTwice | common/arith_uint256.go:20-25 | reversing twice gives the slice back |
| Uint256.ArithUint256.FromHash | common/arith_uint256.go:28-38 | the words are `FromHashWords(h)` (chunk i, reversed and read little-endian, is word 7 - i); the value is h read big-endian; `GetBytes` of the result gives h back |
| Uint256.ChunkWord | common/arith_uint256.go:34-36 | one iteration of `FromHash`: after `reverse` in place, the four bytes read little-endian are chunk i read big-endian; the bytes after the chunk are untouched |
| HashBytes.LeOfPut | common/arith_uint256.go:36 | `LittleEndian.Uint32` of the bytes `PutUint32` writes is the word |
| HashBytes.PutOfLe | common/arith_uint256.go:77 | `PutUint32` of `Uint32(b)` gives the four bytes back |
| Uint256.PutUint32 | common/arith_uint256.go:77 | the buffer holds the four bytes of v, low byte first |
| Uint256.WordBytes | common/arith_uint256.go:76-78 | one word of `GetBytes`: its four bytes, most significant first |
| Uint256.ArithUint256.GetBytes | common/arith_uint256.go:73-82 | the result is `GetBytesOf(words)`: 32 bytes, word 7 big-endian first down to word 0; `FromHash` of them restores every word; read big-endian it is the value |
| HashBytes.GetBytesChunk | common/arith_uint256.go:73-82 | bytes 4j..4j+4 of `GetBytes` are word 7 - j, most significant byte first |
| HashBytes.FromHashOfBytes | common/arith_uint256.go:28-38 | `FromHash(GetBytes())` restores all eight words |
| HashBytes.BytesOfFromHash | common/arith_uint256.go:73-82 | `GetBytes()` after `FromHash(h)` returns h: the round trip is a bijection on 32-byte digests |
| HashBytes.GetBytesValue | common/arith_uint256.go:73-82 | the bytes of `GetBytes` read big-endian are Val(words) |
| HashBytes.FromHashValue | common/arith_uint256.go:28-38 | the value `FromHash(h)` leaves is h read big-endian |
| Uint256.ArithUint256.SetCompact | common/arith_uint256.go:41-51 | the words are `SetCompactWords(old words, v)`; with word 7 clear on entry the value is `CompactValue(v)` |
| Compact.CompactFields | common/arith_uint256.go:42-43 | `v >> 24` is the top byte and `v & 0x007fffff` the low 23 bits of v |
| Compact.SetCompactVal | common/arith_uint256.go:41-51 | with word 7 clear, the value is m >> 8·(3 - size) for size ≤ 3 and m · 2^(8·(size - 3)) mod 2^256 above, m the 23-bit mantissa |
| Compact.SetCompactStale | common/arith_uint256.go:44-46 | for size ≤ 3 the stale word 7 stays in the value: `CompactValue(v)` + word 7 · 2^224 |
| Uint256.ArithUint256.GetCompact | common/arith_uint256.go:54-70 | the result is `CompactOf(words)`; the number is not changed (no `modifies`) |
| Uint256.ArithUint256.TopBytes | common/arith_uint256.go:55-63 | the three bytes below byte nSize: the low 64 bits moved up for nSize ≤ 3, the low word of a copy shifted right by 8·(nSize - 3) otherwise |
| Uint256.CompactOfSign | common/arith_uint256.go:64-68 | the sign test and the join of the length byte give `CompactOf` in both branches |
| Compact.SignBitTest | common/arith_uint256.go:64 | `c & 0x00800000 != 0` exactly when the 24-bit c is at least 2^23 |
| Compact.JoinCompact | common/arith_uint256.go:68 | `mant \| size << 24` is mant + size · 2^24 when mant < 2^24 |
| Compact.GetCompactSpec | common/arith_uint256.go:54-70 | top byte = ceil(bits/8), plus 1 when the top three bytes have bit 23 set; mantissa = those bytes, moved down one byte in that case; bit 23 of the result is always clear |
| Compact.GetCompactMantissa | common/arith_uint256.go:54-70 | the mantissa is the value scaled to the unit the top byte names: Val·2^(8·(3 - size)) for size ≤ 3, Val / 2^(8·(size - 3)) above |
| Compact.CompactTruncates | common/arith_uint256.go:41-70 | `SetCompact(GetCompact())` gives the value truncated to the unit of its compact form |
| Compact.CompactRoundTrip | common/arith_uint256.go:41-70 | `GetCompact(SetCompact(v))` is v for the words `GetCompact` returns without moving the mantissa at size 3 or more: size 3..32, bit 23 clear, top mantissa byte non-zero |
| Compact.CompactRoundTripMoved | common/arith_uint256.go:41-70 | `GetCompact(SetCompact(v))` is v for the words whose mantissa `GetCompact` moved down one byte: size 4..33, mantissa 0x8000..0xffff (e.g. 0x1d00ffff, 0x21008000) |
| Compact.CompactIdempotent | common/arith_uint256.go:41-70 | for every 256-bit value, `GetCompact(SetCompact(GetCompact()))` equals `GetCompact()`: every word `GetCompact` returns survives the round trip, short and zero ones included |
| Compact.CompactVector | common/arith_uint256_test.go:19-24 | `SetCompact(0x1b0404cb)` then `GetCompact` returns 0x1b0404cb |
| Compact.CompactVectorMoved | common/arith_uint256.go:41-70 | `SetCompact(0x1d00ffff)` then `GetCompact` returns 0x1d00ffff, a word with a moved mantissa |
| Uint256.ArithUint256.Copy | common/arith_uint256.go:88-94 | a fresh number with the same words |
| Uint256.ArithUint256.Cmp | common/arith_uint256.go:212-222 | -1, 0, 1 exactly as the value is less than, equal to, greater than b's (each an if-and-only-if) |
| Queries.CmpWordsVal | common/arith_uint256.go:212-222 | the scan from word n-1 down returns -1/0/1 exactly as Val of the first n words compares |
| Uint256.ArithUint256.Bits | common/arith_uint256.go:197-209 | at most 256; 0 iff the value is 0; otherwise 2^(bits-1) ≤ value < 2^bits |
| Queries.BitsVal | common/arith_uint256.go:197-209 | `bits` is 0 iff Val is 0, and otherwise the length of Val in binary |
| Queries.BitsBelow | common/arith_uint256.go:197-209 | a value below 2^n has at most n bits |
| Uint256.ArithUint256.GetLow64 | common/arith_uint256.go:84-86 | `pn[0] \| pn[1] << 32` is the value modulo 2^64 |
| Queries.Low64Val | common/arith_uint256.go:84-86 | the or of the two low words is w[0] + 2^32·w[1] = Val mod 2^64 |
| Uint256.ArithUint256.LeftShift | common/arith_uint256.go:97-112 | the words are `ShiftLeft(old, shift)`; the value is old · 2^shift mod 2^256, 0 for shift ≥ 256 |
| Shifts.LeftShiftStep | common/arith_uint256.go:104-111 | one iteration of the loop: the guarded spill into word i+k+1 and the or into word i+k extend the partial result by source word i |
| Shifts.ShiftLeftVal | common/arith_uint256.go:97-112 | Val(ShiftLeft(w, s)) = Val(w) · 2^s mod 2^256 |
| Uint256.ArithUint256.RightShift | common/arith_uint256.go:115-130 | the words are `ShiftRight(old, shift)`; the value is floor(old / 2^shift), 0 for shift ≥ 256 |
| Shifts.RightShiftStep | common/arith_uint256.go:122-129 | one iteration of the loop: the guarded spill into word i-k-1 and the or into word i-k extend the partial result by source word i |
| Shifts.ShiftRightVal | common/arith_uint256.go:115-130 | Val(ShiftRight(w, s)) = floor(Val(w) / 2^s) |
| Shifts.ShiftOutAll | common/arith_uint256.go:97-130 | either shift by 256 or more leaves 0 |
| Uint256.ArithUint256.MulU32 | common/arith_uint256.go:133-140 | the words are `MulU32Words(old, b)`, the 64-bit intermediate never wraps, the value is old · b mod 2^256 |
| Mul.MulU32Val | common/arith_uint256.go:133-140 | Val(MulU32Words(w, b)) = Val(w) · b mod 2^256 |
| Mul.MulU32AsMul | common/arith_uint256.go:133-161 | `MulU32(b)` leaves the same words as `Mul` by a number set to b |
| Uint256.ArithUint256.Mul | common/arith_uint256.go:150-161 | the words are `MulWords(old a, old b)` (rows j, columns i with i + j < 8 only, carries in 64 bits that never wrap); the value is Val(a)·Val(b) mod 2^256; `a.Mul(a)` is covered |
| Mul.MulVal | common/arith_uint256.go:150-161 | Val(MulWords(a, b)) = Val(a) · Val(b) mod 2^256 |
| Mul.MulCommutes | common/arith_uint256.go:150-161 | `Mul` leaves the same words whichever operand is the receiver |
| Uint256.ArithUint256.MulU64 | common/arith_uint256.go:143-147 | the words are `MulU64Words(old, v)`; the value is old · v mod 2^256 |
| Mul.MulU64Val | common/arith_uint256.go:143-147 | multiplying by a fresh number set to v gives Val · v mod 2^256 |
| Uint256.ArithUint256.Div | common/arith_uint256.go:171-195 | the words are `DivWords(old a, old b)`: 0 when b has more bits, else the loop over positions bits(a) - bits(b) down to 0; only `pn` is modified, so b is not, unless b is the receiver |
| Uint256.ArithUint256.LongDivide | common/arith_uint256.go:187-194 | the loop of `Div` leaves `DivLoop` of the state it starts from |
| Uint256.ArithUint256.DivRound | common/arith_uint256.go:188-193 | one pass: when num ≥ div, num becomes the as-written `Sub` and bit shift of the quotient is set; div is shifted right by 1 |
| Div.SetBitVal | common/arith_uint256.go:190 | or-ing bit s into the quotient raises it by at most 2^s |
| Div.DivWordsCases | common/arith_uint256.go:182-186 | a divisor with more bits gives 0 words; otherwise the loop starts from the divisor shifted left by bits(a) - bits(b) |
| Div.DivBound | common/arith_uint256.go:185-194 | when bits(b) ≤ bits(a), the quotient is below 2^(bits(a) - bits(b) + 1): only bits 0..bits(a)-bits(b) can be set |
| Uint256.DivWordsBound | common/arith_uint256.go:171-195 | `Div` leaves 0 when bits(b) > bits(a), and a value below 2^(bits(a) - bits(b) + 1) otherwise |
| Div.DivByLonger | common/arith_uint256.go:182-184 | when b has more bits than a, floor(Val(a)/Val(b)) is 0, so the early return is exact |
| Div.DivNarrow | common/arith_uint256.go:171-195 | with bits(a) ≤ bits(b), `Div` is the floor division (a single comparison) |
| Div.DivEightByThree | common/arith_uint256.go:171-195 | as written, `DivU64(3)` on 8 leaves 3, not 8 / 3 = 2 |
| Uint256.ArithUint256.DivU64 | common/arith_uint256.go:164-168 | the words are `DivU64Words(old, v)`, the division by a fresh number set to v |
| Uint256.ArithUint256.Add | common/arith_uint256.go:230-237 | the words are `AddWords(old a, old b)`: each word (a[i] + b[i]) mod 2^32, the carry staying 0; `a.Add(a)` is covered |
| AddSub.AddVal | common/arith_uint256.go:230-237 | the lane sums plus 2^32 times the dropped lane carries are Val(a) + Val(b) |
| AddSub.AddExact | common/arith_uint256.go:230-237 | when no lane overflows, `Add` is the true sum |
| AddSub.AddDropsCarry | common/arith_uint256.go:233 | 0xffffffff + 1 gives 0 words although the true sum is 2^32 |
| AddSub.AddCommutes | common/arith_uint256.go:230-237 | `Add` leaves the same words with the operands swapped |
| Uint256.ArithUint256.Add1 | common/arith_uint256.go:240-249 | the words are `Add1Words(old)`; words 1, 3, 5, 7 are never changed; the value grows by 1 when word 0 does not wrap |
| AddSub.Add1Spec | common/arith_uint256.go:240-249 | with words 0, 2, …, k-2 at 0xffffffff and word k below it, `Add1` clears those words and increments word k |
| AddSub.Add1KeepsOddWords | common/arith_uint256.go:240-249 | `Add1` never changes an odd word |
| AddSub.Add1Exact | common/arith_uint256.go:240-249 | when word 0 is below 0xffffffff, `Add1` adds 1 to the value |
| AddSub.Add1SkipsWord | common/arith_uint256.go:243-244 | from 0xffffffff the carry lands on word 2, not word 1 |
| Uint256.ArithUint256.Not | common/arith_uint256.go:252-258 | a fresh number with every word complemented, value 2^256 - 1 - Val(a); a is not changed |
| Wordwise.NotWordsVal | common/arith_uint256.go:252-258 | Val(Not a) = 2^256 - 1 - Val(a) |
| Wordwise.NotNot | common/arith_uint256.go:252-258 | `Not` twice gives the words back |
| Uint256.ArithUint256.Neg | common/arith_uint256.go:261-268 | a fresh number with the words `NegWords(a)` (complement, then the as-written `Add1`); 2^256 - Val(a) when word 0 is non-zero; a is not changed |
| AddSub.NegExact | common/arith_uint256.go:261-268 | when word 0 is non-zero, `Neg` is the two's complement 2^256 - Val(a) |
| AddSub.NegZero | common/arith_uint256.go:261-268 | `Neg(0)` is words 0, 0xffffffff, 0, … and is not 0 |
| Uint256.ArithUint256.Sub | common/arith_uint256.go:225-227 | the words are `SubWords(old a, old b)` = `Add(a, Neg(b))` |
| AddSub.SubLanes | common/arith_uint256.go:225-227 | with b[0] ≠ 0, word 0 is a[0] - b[0] mod 2^32 and every other word a[i] + 0xffffffff - b[i] mod 2^32 |
| AddSub.SubVal | common/arith_uint256.go:225-227 | with b[0] ≠ 0, the result plus the dropped lane carries is Val(a) + 2^256 - Val(b) |
| Uint256.ArithUint256.And | common/arith_uint256.go:271-275 | the words are the lane-wise and; the value is at most either operand's |
| Uint256.ArithUint256.Or | common/arith_uint256.go:278-282 | the words are the lane-wise or; the value is at least either operand's |
| Wordwise.AndOrBounds | common/arith_uint256.go:271-282 | Val(a & b) ≤ Val(a), Val(b) ≤ Val(a \| b) |
| Wordwise.AndOrIdempotent | common/arith_uint256.go:271-282 | a & a = a \| a = a |
| Uint256.ArithUint256.Xor | common/arith_uint256.go:285-289 | the words are the lane-wise xor; the result is 0 exactly when the operands had the same words |
| Wordwise.XorInverse | common/arith_uint256.go:285-289 | xor with b twice gives a back |
| Wordwise.XorZero | common/arith_uint256.go:285-289 | a ^ b is all zero words iff a = b |

## Left out

- The `Hash` type and `h.Bytes()` are not part of this model. `FromHash` takes the 32 digest
  bytes as a sequence and reverses a private copy of them. Whether Go's `reverse` writes
  through into the caller's hash depends on `Hash.Bytes()`, which cannot be seen.
- `encoding/binary`'s `LittleEndian.Uint32` and `PutUint32` are written out as byte packing
  (`LeUint32`, `PutUint32`), not called.
- Uint256.ArithUint256.RightShift: takes a natural shift. Go's parameter is a signed `int`, and a
  negative shift would index out of range or clear words. No caller passes one (`Div` passes 1,
  `GetCompact` 8·(nSize - 3) with nSize > 3).
- Uint256.ArithUint256.Div: the zero-divisor panic is a precondition, as is the zero-divisor case
  of `DivU64`. Go zeroes the receiver before it panics; that state is not modelled.
- Uint256.ArithUint256.Div: states the words as `DivWords` rather than floor division. The value
  facts are the separate lemmas `Div.DivBound`, `Uint256.DivWordsBound` and `Div.DivNarrow`.
- Uint256.ArithUint256.GetCompact: states the result as `CompactOf`. The top-byte and mantissa
  facts are the separate lemmas `Compact.GetCompactSpec` and `Compact.GetCompactMantissa`.
- The model does not prove true-arithmetic identities for `Add`, `Sub`, `Neg` and `Div`, such as
  a + (-a) = 0, carry-propagating addition, or `Div` = floor(a / b): they are false for the code
  as written. The lane-wise behaviour and concrete counterexamples (`AddDropsCarry`,
  `Add1SkipsWord`, `NegZero`, `DivEightByThree`) are proved instead.
- `common/arith_uint256_test.go` prints and asserts nothing. Only its vector 0x1b0404cb is used
  (`CompactVector`).
- Performance, allocation and constant-time behaviour are not modelled.
