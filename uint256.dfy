/**
 * `ArithUint256` of common/arith_uint256.go: a 256-bit unsigned number held as a fixed array
 * of eight 32-bit words, least significant first, whose methods update the words in place.
 * Each method runs the loops of the Go code and is proved to leave the words that the
 * matching function of the other modules describes; what those words mean (the value
 * modulo 2^256, the lane-wise sums of `Add`, the compact and digest codecs) is proved
 * about the functions.
 */
module Uint256 {
  import opened MathLemmas
  import opened Unsigned
  import opened Limbs
  import opened Construct
  import opened Queries
  import opened Shifts
  import opened Wordwise
  import opened AddSub
  import opened Mul
  import opened Div
  import opened Compact
  import opened HashBytes

  class ArithUint256 {
    /** `pn [8]uint32`; Go stores the array inline, so the array itself never changes. */
    const pn: array<u32>

    ghost predicate Valid()
      reads this
    {
      pn.Length == WIDTH
    }

    /** The number the words stand for. */
    ghost function Value(): nat
      reads this, pn
      requires Valid()
    {
      Val(pn[..])
    }

    /** `new(ArithUint256)`: the zero value, all eight words 0. */
    constructor ()
      ensures Valid() && fresh(pn) && pn[..] == Zeros()
    {
      pn := new u32[WIDTH](_ => 0);
    }

    // ------------------------------------------------------------ construction

    /** `FromUint64(v)`: words 0 and 1 get v, words 2 to 6 are cleared, word 7 is kept. */
    method FromUint64(v: u64)
      requires Valid()
      modifies pn
      ensures pn[..] == FromUint64Words(old(pn[..]), v)
      ensures Value() == v + old(pn[WIDTH - 1]) * Weight(WIDTH - 1)
    {
      pn[0] := v % BASE;
      pn[1] := Shr(v, 32) % BASE;
      for i := 2 to 7
        invariant forall j :: 2 <= j < i ==> pn[j] == 0
        invariant pn[0] == v % BASE && pn[1] == Shr(v, 32) % BASE
        invariant pn[WIDTH - 1] == old(pn[WIDTH - 1])
      {
        pn[i] := 0;
      }
      FromUint64Val(old(pn[..]), v);
    }

    /** `FromHash(h)`: every four bytes of the digest, turned around in place and read
        little-endian, become a word, the first four bytes word 7. */
    method FromHash(h: seq<u8>)
      requires Valid() && |h| == HASH_LEN
      modifies pn
      ensures pn[..] == FromHashWords(h)
      ensures Value() == BeValue(h)
      ensures GetBytesOf(pn[..]) == h
    {
      forall j | 0 <= j < WIDTH {
        pn[j] := 0;
      }
      var hBytes := new u8[HASH_LEN](j requires 0 <= j < HASH_LEN => h[j]);
      for i := 0 to WIDTH
        invariant hBytes[4 * i..] == h[4 * i..]
        invariant forall k :: 0 <= k < i ==> pn[WIDTH - 1 - k] == HashWord(h, k)
      {
        var x := ChunkWord(hBytes, h, i);
        pn[WIDTH - 1 - i] := x;
      }
      WordsOfHash(pn[..], h);
      FromHashValue(h);
      BytesOfFromHash(h);
    }

    /** `SetCompact(v)`: the 23-bit mantissa of v placed at the byte length in its top
        byte. */
    method SetCompact(v: u32)
      requires Valid()
      modifies pn
      ensures pn[..] == SetCompactWords(old(pn[..]), v)
      ensures old(pn[WIDTH - 1]) == 0 ==> Value() == CompactValue(v)
    {
      ghost var w := pn[..];
      var nSize := Shr(v, 24);
      var nWord: u32 := And32(v, MANTISSA_MASK);
      ghost var mant := nWord;
      CompactFields(v, nSize, mant);
      assert nSize < 0x100;
      if nSize <= 3 {
        nWord := Shr(nWord, 8 * (3 - nSize));
        FromUint64(nWord);
        assert pn[..] == Placed(w, nSize, mant);
      } else {
        FromUint64(nWord);
        ghost var u := pn[..];
        LeftShift(8 * (nSize - 3));
        PlacedLong(w, nSize, mant, u, pn[..]);
      }
      if w[WIDTH - 1] == 0 {
        SetCompactVal(w, v);
      }
    }

    /** `Copy()`: a new number with the same words. */
    method Copy() returns (b: ArithUint256)
      requires Valid()
      ensures fresh(b) && fresh(b.pn) && b.Valid() && b.pn[..] == pn[..]
    {
      b := new ArithUint256();
      forall i | 0 <= i < WIDTH {
        b.pn[i] := pn[i];
      }
    }

    // ------------------------------------------------------------ queries

    /** `Cmp(b)`: -1, 0 or 1 as this number is below, equal to or above b. */
    function Cmp(b: ArithUint256): (r: int)
      reads this, pn, b, b.pn
      requires Valid() && b.Valid()
      ensures r == -1 <==> Value() < b.Value()
      ensures r == 0 <==> Value() == b.Value()
      ensures r == 1 <==> Value() > b.Value()
    {
      CmpWordsVal(pn[..], b.pn[..], WIDTH);
      assert pn[..][..WIDTH] == pn[..] && b.pn[..][..WIDTH] == b.pn[..];
      CmpWords(pn[..], b.pn[..], WIDTH)
    }

    /** `bits()`: the length of the number in bits, 0 for zero. */
    function Bits(): (r: nat)
      reads this, pn
      requires Valid()
      ensures r <= 256
      ensures r == 0 <==> Value() == 0
      ensures r > 0 ==> Pow2(r - 1) <= Value() < Pow2(r)
    {
      BitsVal(pn[..]);
      Queries.Bits(pn[..])
    }

    /** `getLow64()`: words 0 and 1 joined, the number modulo 2^64. */
    function GetLow64(): (r: u64)
      reads this, pn
      requires Valid()
      ensures r == Value() % BASE64
    {
      Low64Val(pn[..]);
      Low64(pn[..])
    }

    // ------------------------------------------------------------ shifts

    /** `LeftShift(shift)`: every word of a saved copy is or-ed into its place k = shift / 32
        words up, moved by shift % 32 bits, its top bits spilling into the next word. */
    method LeftShift(shift: u32)
      requires Valid()
      modifies pn
      ensures pn[..] == ShiftLeft(old(pn[..]), shift)
      ensures Value() == (old(Value()) * Pow2(shift)) % Weight(WIDTH)
      ensures shift >= 256 ==> Value() == 0
    {
      var pnBak := pn[..];
      forall j | 0 <= j < WIDTH {
        pn[j] := 0;
      }
      var k, r := shift / 32, shift % 32;
      PartialStart(pnBak, k, r);
      for i := 0 to WIDTH
        invariant pn[..] == LeftShiftPartial(pnBak, k, r, i)
      {
        LeftShiftStep(pnBak, k, r, i);
        if i + k + 1 < WIDTH && r != 0 {
          pn[i + k + 1] := Or32(pn[i + k + 1], Shr(pnBak[i], 32 - r));
        }
        if i + k < WIDTH {
          pn[i + k] := Or32(pn[i + k], Shl32(pnBak[i], r));
        }
      }
      ShiftLeftVal(pnBak, shift);
      if shift >= 256 {
        ShiftOutAll(pnBak, shift);
      }
    }

    /** `RightShift(shift)`: every word of a saved copy is or-ed into its place k words down,
        moved by shift % 32 bits, its low bits spilling into the word below. */
    method RightShift(shift: nat)
      requires Valid()
      modifies pn
      ensures pn[..] == ShiftRight(old(pn[..]), shift)
      ensures Value() == old(Value()) / Pow2(shift)
      ensures shift >= 256 ==> Value() == 0
    {
      var pnBak := pn[..];
      forall j | 0 <= j < WIDTH {
        pn[j] := 0;
      }
      var k, r := shift / 32, shift % 32;
      PartialStart(pnBak, k, r);
      for i := 0 to WIDTH
        invariant pn[..] == RightShiftPartial(pnBak, k, r, i)
      {
        RightShiftStep(pnBak, k, r, i);
        if i >= k + 1 && r != 0 {
          pn[i - k - 1] := Or32(pn[i - k - 1], Shl32(pnBak[i], 32 - r));
        }
        if i >= k {
          pn[i - k] := Or32(pn[i - k], Shr(pnBak[i], r));
        }
      }
      ShiftRightVal(pnBak, shift);
      if shift >= 256 {
        ShiftOutAll(pnBak, shift);
      }
    }

    // ------------------------------------------------------------ multiplication

    /** `MulU32(b)`: each word times b plus the carry from the word below, in 64 bits; the
        low half is kept and the high half carried on; the carry out of word 7 is lost. */
    method MulU32(b: u32)
      requires Valid()
      modifies pn
      ensures pn[..] == MulU32Words(old(pn[..]), b)
      ensures Value() == (old(Value()) * b) % Weight(WIDTH)
    {
      var carry: u64 := 0;
      for i := 0 to WIDTH
        invariant carry < BASE
        invariant MulU32From(pn[..], b, i, carry) == MulU32Words(old(pn[..]), b)
      {
        var x: int, y: int := b, pn[i];
        ProductFits(carry, 0, x, y);
        var n: u64 := carry + x * y;
        LowHigh(n);
        pn[i] := BitAnd(n, MAX32);
        carry := Shr(n, 32);
      }
      MulU32Val(old(pn[..]), b);
    }

    /** `MulU64(v)`: multiply by a fresh number set to v. */
    method MulU64(v: u64)
      requires Valid()
      modifies pn
      ensures pn[..] == MulU64Words(old(pn[..]), v)
      ensures Value() == (old(Value()) * v) % Weight(WIDTH)
    {
      var b := new ArithUint256();
      b.FromUint64(v);
      Mul(b);
      MulU64Val(old(pn[..]), v);
    }

    /** `Mul(b)`: schoolbook multiplication into a zeroed `tmp`, row j adding a.pn[j] times
        the words of b that land below word 8; `tmp` is copied into a at the end, so
        `a.Mul(a)` reads its own words unchanged throughout. */
    method Mul(b: ArithUint256)
      requires Valid() && b.Valid()
      modifies pn
      ensures pn[..] == MulWords(old(pn[..]), old(b.pn[..]))
      ensures Value() == (old(Value()) * old(b.Value())) % Weight(WIDTH)
    {
      ghost var a0, b0 := pn[..], b.pn[..];
      ghost var want := MulWords(a0, b0);
      var tmp := new ArithUint256();
      for j := 0 to WIDTH
        invariant MulRows(tmp.pn[..], a0, b0, j) == want
        modifies tmp.pn
      {
        var carry: u64 := 0;
        for i := 0 to WIDTH - j
          invariant carry < BASE
          invariant MulRows(MulRow(tmp.pn[..], a0[j], b0, j, i, carry), a0, b0, j + 1) == want
          modifies tmp.pn
        {
          var t: int, x: int, y: int := tmp.pn[i + j], pn[j], b.pn[i];
          ProductFits(carry, t, x, y);
          var n: u64 := carry + t + x * y;
          LowHigh(n);
          var lo: u32, hi: u32 := BitAnd(n, MAX32), Shr(n, 32);
          MulRowNext(tmp.pn[..], x, b0, j, i, carry, n, lo, hi);
          tmp.pn[i + j] := lo;
          carry := hi;
        }
      }
      forall i | 0 <= i < WIDTH {
        pn[i] := tmp.pn[i];
      }
      assert pn[..] == want;
      MulVal(a0, b0);
    }

    // ------------------------------------------------------------ division

    /** `DivU64(v)`: divide by a fresh number set to v; v == 0 panics in the source. */
    method DivU64(v: u64)
      requires Valid() && v > 0
      modifies pn
      ensures pn[..] == DivU64Words(old(pn[..]), v)
    {
      var b := new ArithUint256();
      b.FromUint64(v);
      FromUint64Exact(Zeros(), v);
      Div(b);
    }

    /** `Div(b)`: long division on copies of both operands, setting one quotient bit per
        position from Bits(a) - Bits(b) down to 0; a zero divisor panics in the source. */
    method Div(b: ArithUint256)
      requires Valid() && b.Valid() && b.Bits() != 0
      modifies pn
      ensures pn[..] == DivWords(old(pn[..]), old(b.pn[..]))
    {
      ghost var a0, b0 := pn[..], b.pn[..];
      var div := b.Copy();
      var num := Copy();
      forall i | 0 <= i < WIDTH {
        pn[i] := 0;
      }
      var numBits := num.Bits();
      var divBits := div.Bits();
      assert numBits == Queries.Bits(a0) && divBits == Queries.Bits(b0);
      DivWordsCases(a0, b0, DivWords(a0, b0));
      if divBits > numBits {
        assert pn[..] == Zeros();
        return;
      }
      var shift := numBits - divBits;
      div.LeftShift(shift as u32);
      assert num.pn[..] == a0 && pn[..] == Zeros() && div.pn[..] == ShiftLeft(b0, shift);
      LongDivide(num, div, shift);
    }

    /** The loop of `Div`: from bit position shift down to 0, each pass is `DivRound`. */
    method LongDivide(num: ArithUint256, div: ArithUint256, shift: nat)
      requires Valid() && num.Valid() && div.Valid() && shift < 256
      requires pn != num.pn && pn != div.pn && num.pn != div.pn
      modifies pn, num.pn, div.pn
      ensures pn[..] == DivLoop(old(num.pn[..]), old(div.pn[..]), old(pn[..]), shift)
    {
      ghost var want := DivLoop(num.pn[..], div.pn[..], pn[..], shift);
      var s: int := shift;
      while s >= 0
        invariant -1 <= s < 256
        invariant DivLoop(num.pn[..], div.pn[..], pn[..], s) == want
        decreases s
      {
        DivLoopNext(num.pn[..], div.pn[..], pn[..], s, want);
        DivRound(num, div, s);
        s := s - 1;
      }
    }

    /** One pass of the loop of `Div` at bit position shift: subtract the shifted divisor
        and set the quotient bit when it fits, then halve the divisor. */
    method DivRound(num: ArithUint256, div: ArithUint256, shift: nat)
      requires Valid() && num.Valid() && div.Valid() && shift < 256
      requires pn != num.pn && pn != div.pn && num.pn != div.pn
      modifies pn, num.pn, div.pn
      ensures var geq := CmpWords(old(num.pn[..]), old(div.pn[..]), WIDTH) >= 0;
              && num.pn[..] == (if geq then SubWords(old(num.pn[..]), old(div.pn[..]))
                                else old(num.pn[..]))
              && pn[..] == (if geq then SetBit(old(pn[..]), shift) else old(pn[..]))
              && div.pn[..] == ShiftRight(old(div.pn[..]), 1)
    {
      ghost var n0, d0, r0 := num.pn[..], div.pn[..], pn[..];
      ghost var geq := CmpWords(n0, d0, WIDTH) >= 0;
      if num.Cmp(div) >= 0 {
        num.Sub(div);
        pn[shift / 32] := Or32(pn[shift / 32], Shl32(1, BitAnd(shift, 31)));
      }
      assert num.pn[..] == (if geq then SubWords(n0, d0) else n0);
      assert pn[..] == (if geq then SetBit(r0, shift) else r0);
      div.RightShift(1);
    }

    // ------------------------------------------------------------ additive operations

    /** `Sub(b)`: `Add(b.Neg())`. */
    method Sub(b: ArithUint256)
      requires Valid() && b.Valid()
      modifies pn
      ensures pn[..] == SubWords(old(pn[..]), old(b.pn[..]))
    {
      var nb := b.Neg();
      Add(nb);
    }

    /** `Add(b)`: the two words are summed in 32 bits before they are widened, so the
        carry the loop computes is always 0 and each word is the sum modulo 2^32. */
    method Add(b: ArithUint256)
      requires Valid() && b.Valid()
      modifies pn
      ensures pn[..] == AddWords(old(pn[..]), old(b.pn[..]))
    {
      ghost var a0, b0 := pn[..], b.pn[..];
      var carry: u64 := 0;
      for i := 0 to WIDTH
        invariant carry == 0
        invariant forall k :: 0 <= k < i ==> pn[k] == (a0[k] + b0[k]) % BASE
        invariant forall k :: i <= k < WIDTH ==> pn[k] == a0[k] && b.pn[k] == b0[k]
      {
        var n: u64 := carry + (pn[i] + b.pn[i]) % BASE;
        LowHigh(n);
        pn[i] := BitAnd(n, MAX32);
        carry := Shr(n, 32);
      }
      assert pn[..] == AddWords(a0, b0);
    }

    /** `Add1()`: increment word i; when it wraps to 0 the body's own `i++` and the loop's
        move on to word i + 2. */
    method Add1()
      requires Valid()
      modifies pn
      ensures pn[..] == Add1Words(old(pn[..]))
      ensures forall j :: 0 <= j < WIDTH && j % 2 == 1 ==> pn[j] == old(pn[j])
      ensures old(pn[0]) < MAX32 ==> Value() == old(Value()) + 1
    {
      var i := 0;
      while i < WIDTH
        invariant 0 <= i <= WIDTH + 1
        invariant Add1From(pn[..], i) == Add1Words(old(pn[..]))
        decreases WIDTH - i
      {
        pn[i] := (pn[i] + 1) % BASE;
        if pn[i] == 0 {
          i := i + 1;
        } else {
          break;
        }
        i := i + 1;
      }
      Add1KeepsOddWords(old(pn[..]));
      if old(pn[0]) < MAX32 {
        Add1Exact(old(pn[..]));
      }
    }

    /** `Not()`: a new number holding the complement of every word. */
    method Not() returns (b: ArithUint256)
      requires Valid()
      ensures fresh(b) && fresh(b.pn) && b.Valid() && b.pn[..] == NotWords(pn[..])
      ensures b.Value() == Weight(WIDTH) - 1 - Value()
    {
      b := new ArithUint256();
      for i := 0 to WIDTH
        invariant forall k :: 0 <= k < i ==> b.pn[k] == Not32(pn[k])
        modifies b.pn
      {
        b.pn[i] := Not32(pn[i]);
      }
      assert b.pn[..] == NotWords(pn[..]);
      NotWordsVal(pn[..]);
    }

    /** `Neg()`: a new number holding the complement of every word, then `Add1`. */
    method Neg() returns (b: ArithUint256)
      requires Valid()
      ensures fresh(b) && fresh(b.pn) && b.Valid() && b.pn[..] == NegWords(pn[..])
      ensures pn[0] != 0 ==> b.Value() == Weight(WIDTH) - Value()
    {
      b := new ArithUint256();
      for i := 0 to WIDTH
        invariant forall k :: 0 <= k < i ==> b.pn[k] == Not32(pn[k])
        modifies b.pn
      {
        b.pn[i] := Not32(pn[i]);
      }
      assert b.pn[..] == NotWords(pn[..]);
      b.Add1();
      if pn[0] != 0 {
        NegExact(pn[..]);
      }
    }

    // ------------------------------------------------------------ word-wise logic

    /** `And(b)`: `a.pn[i] &= b.pn[i]` for every word. */
    method And(b: ArithUint256)
      requires Valid() && b.Valid()
      modifies pn
      ensures pn[..] == AndWords(old(pn[..]), old(b.pn[..]))
      ensures Value() <= old(Value()) && Value() <= old(b.Value())
    {
      ghost var a0, b0 := pn[..], b.pn[..];
      for i := 0 to WIDTH
        invariant forall k :: 0 <= k < i ==> pn[k] == And32(a0[k], b0[k])
        invariant forall k :: i <= k < WIDTH ==> pn[k] == a0[k] && b.pn[k] == b0[k]
      {
        pn[i] := And32(pn[i], b.pn[i]);
      }
      assert pn[..] == AndWords(a0, b0);
      AndOrBounds(a0, b0);
    }

    /** `Or(b)`: `a.pn[i] |= b.pn[i]` for every word. */
    method Or(b: ArithUint256)
      requires Valid() && b.Valid()
      modifies pn
      ensures pn[..] == OrWords(old(pn[..]), old(b.pn[..]))
      ensures old(Value()) <= Value() && old(b.Value()) <= Value()
    {
      ghost var a0, b0 := pn[..], b.pn[..];
      for i := 0 to WIDTH
        invariant forall k :: 0 <= k < i ==> pn[k] == Or32(a0[k], b0[k])
        invariant forall k :: i <= k < WIDTH ==> pn[k] == a0[k] && b.pn[k] == b0[k]
      {
        pn[i] := Or32(pn[i], b.pn[i]);
      }
      assert pn[..] == OrWords(a0, b0);
      AndOrBounds(a0, b0);
    }

    /** `Xor(b)`: `a.pn[i] ^= b.pn[i]` for every word. */
    method Xor(b: ArithUint256)
      requires Valid() && b.Valid()
      modifies pn
      ensures pn[..] == XorWords(old(pn[..]), old(b.pn[..]))
      ensures Value() == 0 <==> old(pn[..]) == old(b.pn[..])
    {
      ghost var a0, b0 := pn[..], b.pn[..];
      for i := 0 to WIDTH
        invariant forall k :: 0 <= k < i ==> pn[k] == Xor32(a0[k], b0[k])
        invariant forall k :: i <= k < WIDTH ==> pn[k] == a0[k] && b.pn[k] == b0[k]
      {
        pn[i] := Xor32(pn[i], b.pn[i]);
      }
      assert pn[..] == XorWords(a0, b0);
      XorZero(a0, b0);
      ValZero(pn[..]);
    }

    // ------------------------------------------------------------ conversions

    /** `GetCompact()`: the byte length of the number and its top three bytes, moved down
        one byte, with the length one more, when their bit 23 is set. */
    method GetCompact() returns (r: u32)
      requires Valid()
      ensures r == CompactOf(pn[..])
    {
      var nSize := (Bits() + 7) / 8;
      assert nSize <= 32 && nSize == (Queries.Bits(pn[..]) + 7) / 8;
      var nCompact := TopBytes(nSize);
      CompactOfSign(pn[..], nSize, nCompact);
      if And32(nCompact, SIGN_BIT) != 0 {
        nCompact := Shr(nCompact, 8);
        nSize := nSize + 1;
      }
      r := Or32(nCompact, Shl32(nSize, 24));
    }

    /** The three bytes of `GetCompact()` below byte nSize: the low word moved up when the
        number has at most three bytes, else the low word of a copy shifted down. */
    method TopBytes(nSize: nat) returns (c: u32)
      requires Valid()
      ensures c == CompactWord(pn[..], nSize)
    {
      var aBak := Copy();
      if nSize <= 3 {
        c := Shl64(GetLow64(), 8 * (3 - nSize)) % BASE;
      } else {
        aBak.RightShift(8 * (nSize - 3));
        c := aBak.GetLow64() % BASE;
      }
    }

    /** `GetBytes()`: each word, from word 0 up, written little-endian, turned around and
        put in front of the bytes so far, so word 7 comes first. */
    method GetBytes() returns (res: seq<u8>)
      requires Valid()
      ensures res == GetBytesOf(pn[..])
      ensures |res| == HASH_LEN && FromHashWords(res) == pn[..]
      ensures BeValue(res) == Value()
    {
      res := [];
      for i := 0 to WIDTH
        invariant res == GetBytesOf(pn[..i])
      {
        var chunk := WordBytes(pn[i]);
        ghost var w := pn[..i + 1];
        assert w[..i] == pn[..i] && w[i] == pn[i];
        res := chunk + res;
      }
      assert pn[..WIDTH] == pn[..];
      FromHashOfBytes(pn[..]);
      GetBytesValue(pn[..]);
    }
  }

  /** What `Div` leaves: zero when the divisor has more bits, and otherwise a quotient with
      at most Bits(a) - Bits(b) + 1 bits. */
  lemma DivWordsBound(a: seq<u32>, b: seq<u32>, r: seq<u32>)
    requires |a| == WIDTH && |b| == WIDTH && Queries.Bits(b) > 0 && r == DivWords(a, b)
    ensures Queries.Bits(b) > Queries.Bits(a) ==> Val(r) == 0
    ensures Queries.Bits(b) <= Queries.Bits(a) ==>
              Val(r) < Pow2(Queries.Bits(a) - Queries.Bits(b) + 1)
  {
    if Queries.Bits(b) > Queries.Bits(a) {
      ValZeros(r);
    } else {
      DivBound(a, b);
    }
  }

  /** `binary.LittleEndian.PutUint32(buf, v)`: the four bytes of v, low byte first. */
  method PutUint32(buf: array<u8>, v: u32)
    requires buf.Length == 4
    modifies buf
    ensures buf[..] == PutLe(v)
  {
    buf[0] := v % 0x100;
    buf[1] := v / 0x100 % 0x100;
    buf[2] := v / 0x1_0000 % 0x100;
    buf[3] := v / 0x100_0000 % 0x100;
  }

  /** One word of `GetBytes()`: `PutUint32` into a fresh four-byte buffer, then `reverse`. */
  method WordBytes(v: u32) returns (b: seq<u8>)
    ensures b == Reversed(PutLe(v))
  {
    var buf := new u8[4];
    PutUint32(buf, v);
    ghost var put := buf[..];
    Reverse(buf, 0, 4);
    assert put[..0] == [] && put[0..4] == put && put[4..] == [];
    b := buf[..];
  }


  /** The sign test of `GetCompact()` on the three bytes c of w, as `CompactOf`. */
  lemma CompactOfSign(w: seq<u32>, n: nat, c: u32)
    requires |w| == WIDTH && n == (Queries.Bits(w) + 7) / 8 && c == CompactWord(w, n)
    ensures And32(c, SIGN_BIT) != 0 ==> CompactOf(w) == Or32(Shr(c, 8), Shl32(n + 1, 24))
    ensures And32(c, SIGN_BIT) == 0 ==> CompactOf(w) == Or32(c, Shl32(n, 24))
  {
    CompactOfJoin(w, n, c);
    CompactJoinSteps(c, n);
  }

  /** `CompactOf` split at the three bytes `GetCompact()` reads. */
  lemma CompactOfJoin(w: seq<u32>, n: int, c: u32)
    requires |w| == WIDTH && n == (Queries.Bits(w) + 7) / 8 && c == CompactWord(w, n)
    ensures n <= 32 && CompactOf(w) == CompactJoin(c, n)
  {
  }

  /** `CompactJoin` as the two branches of the sign test in `GetCompact()`. */
  lemma CompactJoinSteps(c: u32, nSize: nat)
    requires nSize <= 32
    ensures And32(c, SIGN_BIT) != 0 ==> CompactJoin(c, nSize) == Or32(Shr(c, 8), Shl32(nSize + 1, 24))
    ensures And32(c, SIGN_BIT) == 0 ==> CompactJoin(c, nSize) == Or32(c, Shl32(nSize, 24))
  {
  }

  /** The branch of `GetCompact` for a byte length above 3, as `CompactWord`. */
  lemma GetCompactLong(w: seq<u32>, nSize: nat, low: u64)
    requires |w| == WIDTH && nSize > 3 && low == Low64(ShiftRight(w, 8 * (nSize - 3)))
    ensures low % BASE == CompactWord(w, nSize)
  {
  }

  /** The branch of `SetCompact` for a length byte above 3, as the words it leaves. */
  lemma PlacedLong(w: seq<u32>, nSize: nat, mant: u64, u: seq<u32>, r: seq<u32>)
    requires |w| == WIDTH && nSize > 3 && u == FromUint64Words(w, mant)
    requires r == ShiftLeft(u, 8 * (nSize - 3))
    ensures r == Placed(w, nSize, mant)
  {
  }

  /** Words holding chunk k of the digest at index 7 - k are `FromHash`'s words. */
  lemma WordsOfHash(w: seq<u32>, h: seq<u8>)
    requires |w| == WIDTH && |h| == HASH_LEN
    requires forall k :: 0 <= k < WIDTH ==> w[WIDTH - 1 - k] == HashWord(h, k)
    ensures w == FromHashWords(h)
  {
    forall j | 0 <= j < WIDTH
      ensures w[j] == FromHashWords(h)[j]
    {
      assert w[WIDTH - 1 - (WIDTH - 1 - j)] == HashWord(h, WIDTH - 1 - j);
    }
  }

  /** One iteration of `FromHash`'s loop on the digest's bytes: `reverse` turns bytes
      4i .. 4i+4 around in place and `binary.LittleEndian.Uint32` reads them. */
  method ChunkWord(hBytes: array<u8>, h: seq<u8>, i: nat) returns (x: u32)
    requires hBytes.Length == HASH_LEN && |h| == HASH_LEN && i < WIDTH
    requires hBytes[4 * i..] == h[4 * i..]
    modifies hBytes
    ensures x == HashWord(h, i)
    ensures hBytes[4 * (i + 1)..] == h[4 * (i + 1)..]
  {
    ghost var before := hBytes[..];
    Reverse(hBytes, 4 * i, 4 * i + 4);
    ChunkAfterReverse(before, hBytes[..], h, i);
    var buf := hBytes[4 * i .. 4 * i + 4];
    x := LeUint32(buf);
  }

  /** After `reverse` turned bytes 4i .. 4i+4 around, they are the digest's chunk i reversed
      and the bytes after them are still the digest's. */
  lemma ChunkAfterReverse(before: seq<u8>, after: seq<u8>, h: seq<u8>, i: nat)
    requires |h| == HASH_LEN && |before| == HASH_LEN && i < WIDTH
    requires before[4 * i..] == h[4 * i..]
    requires after == before[..4 * i] + Reversed(before[4 * i .. 4 * i + 4]) + before[4 * i + 4..]
    ensures after[4 * i .. 4 * i + 4] == Reversed(h[4 * i .. 4 * i + 4])
    ensures after[4 * (i + 1)..] == h[4 * (i + 1)..]
  {
    assert before[4 * i .. 4 * i + 4] == h[4 * i .. 4 * i + 4];
    assert before[4 * i + 4..] == h[4 * i + 4..];
  }
}
