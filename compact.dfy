/**
 * The block-header "nBits" compact encoding of a 256-bit target (common/arith_uint256.go,
 * `SetCompact` and `GetCompact`). The top byte of the 32-bit word is the length of the
 * number in bytes and the low 23 bits are its top three bytes; bit 23 is a sign bit that
 * `SetCompact` ignores and `GetCompact` keeps clear by moving to one more byte of length.
 */
module Compact {
  import opened MathLemmas
  import opened Unsigned
  import opened Limbs
  import opened Shifts
  import opened Queries
  import opened Construct

  /** `0x007fffff`: the mantissa bits of a compact word. */
  const MANTISSA_MASK: nat := 0x007f_ffff

  /** `0x00800000`: the sign bit of a compact word. */
  const SIGN_BIT: nat := 0x0080_0000

  /** The words `SetCompact(v)` leaves in a number whose words were w. */
  function SetCompactWords(w: seq<u32>, v: u32): (r: seq<u32>)
    requires |w| == WIDTH
    ensures |r| == WIDTH
  {
    Placed(w, Shr(v, 24), BitAnd(v, MANTISSA_MASK))
  }

  /** The branch of `SetCompact` on the length byte nSize: the mantissa nWord moved right
      by 3 - nSize bytes, or set and shifted left by nSize - 3 bytes. */
  function Placed(w: seq<u32>, nSize: nat, nWord: u64): (r: seq<u32>)
    requires |w| == WIDTH
    ensures |r| == WIDTH
  {
    if nSize <= 3 then FromUint64Words(w, Shr(nWord, 8 * (3 - nSize)))
    else ShiftLeft(FromUint64Words(w, nWord), 8 * (nSize - 3))
  }

  /** The first step of `GetCompact`: the number moved so that its top nSize bytes (at most
      three of them) sit in the low three bytes, cut to a uint32. */
  function CompactWord(w: seq<u32>, nSize: nat): u32
    requires |w| == WIDTH
  {
    if nSize <= 3 then Shl64(Low64(w), 8 * (3 - nSize)) % BASE
    else Low64(ShiftRight(w, 8 * (nSize - 3))) % BASE
  }

  /** The compact word `GetCompact()` returns. */
  function CompactOf(w: seq<u32>): u32
    requires |w| == WIDTH
  {
    var nSize := (Bits(w) + 7) / 8;
    CompactJoin(CompactWord(w, nSize), nSize)
  }

  /** The end of `GetCompact()`: when bit 23 of the three bytes c is set they move down a
      byte and the length nSize grows by one; the length then goes in the top byte. */
  function CompactJoin(c: u32, nSize: nat): u32
    requires nSize <= 32
  {
    var sign := BitAnd(c, SIGN_BIT) != 0;
    var mant := if sign then Shr(c, 8) else c;
    var size := if sign then nSize + 1 else nSize;
    Or32(mant, Shl32(size, 24))
  }

  /** The number a compact word stands for, as `SetCompact` builds it in 256 bits: the low
      23 bits scaled by 256 to the power (top byte - 3), bits below 2^0 and above 2^255
      dropped. */
  ghost function CompactValue(v: u32): int
  {
    var size, m := v / 0x100_0000, v % 0x80_0000;
    if size <= 3 then m / Pow2(8 * (3 - size)) else (m * Pow2(8 * (size - 3))) % Weight(WIDTH)
  }

  /** The top three bytes of x when x is n bytes long. */
  ghost function Window(x: nat, n: nat): int
  {
    if n <= 3 then x * Pow2(8 * (3 - n)) else x / Pow2(8 * (n - 3))
  }

  /** The place value of the lowest byte a compact word with this length byte keeps. */
  ghost function Unit(size: nat): nat
  {
    if size <= 3 then 1 else Pow2(8 * (size - 3))
  }

  // ---------------------------------------------------------------- SetCompact

  /** With word 7 clear on entry, `SetCompact(v)` leaves the number v stands for. */
  lemma SetCompactVal(w: seq<u32>, v: u32)
    requires |w| == WIDTH && w[WIDTH - 1] == 0
    ensures Val(SetCompactWords(w, v)) == CompactValue(v)
  {
    var nSize, nWord := Shr(v, 24), BitAnd(v, MANTISSA_MASK);
    CompactFields(v, nSize, nWord);
    PlacedVal(w, nSize, nWord);
  }

  lemma PlacedVal(w: seq<u32>, nSize: nat, nWord: u64)
    requires |w| == WIDTH && w[WIDTH - 1] == 0
    ensures nSize <= 3 ==> Val(Placed(w, nSize, nWord)) == nWord / Pow2(8 * (3 - nSize))
    ensures nSize > 3 ==>
              Val(Placed(w, nSize, nWord)) == (nWord * Pow2(8 * (nSize - 3))) % Weight(WIDTH)
  {
    if nSize <= 3 {
      SetCompactShort(w, nWord, 8 * (3 - nSize));
    } else {
      SetCompactLong(w, nWord, 8 * (nSize - 3));
    }
  }

  lemma SetCompactShort(w: seq<u32>, m: u64, s: nat)
    requires |w| == WIDTH && w[WIDTH - 1] == 0
    ensures Val(FromUint64Words(w, Shr(m, s))) == m / Pow2(s)
  {
    FromUint64Exact(w, Shr(m, s));
  }

  lemma SetCompactLong(w: seq<u32>, m: u64, s: nat)
    requires |w| == WIDTH && w[WIDTH - 1] == 0
    ensures Val(ShiftLeft(FromUint64Words(w, m), s)) == (m * Pow2(s)) % Weight(WIDTH)
  {
    var u := FromUint64Words(w, m);
    FromUint64Exact(w, m);
    ShiftLeftVal(u, s);
  }

  /** The length byte and the mantissa as numbers. */
  lemma CompactFields(v: u32, nSize: nat, nWord: nat)
    requires nSize == Shr(v, 24) && nWord == BitAnd(v, MANTISSA_MASK)
    ensures nSize == v / 0x100_0000 && nWord == v % 0x80_0000
  {
    Pow2Small();
    AndLowMask(v, 23);
  }

  /** With a length byte of at most 3, a stale word 7 stays in the number: `SetCompact`
      inherits it from `FromUint64`. */
  lemma SetCompactStale(w: seq<u32>, v: u32)
    requires |w| == WIDTH && v / 0x100_0000 <= 3
    ensures Val(SetCompactWords(w, v)) == CompactValue(v) + w[WIDTH - 1] * Weight(WIDTH - 1)
  {
    var nSize, nWord := Shr(v, 24), BitAnd(v, MANTISSA_MASK);
    CompactFields(v, nSize, nWord);
    FromUint64Val(w, Shr(nWord, 8 * (3 - nSize)));
  }

  // ---------------------------------------------------------------- GetCompact

  /** A number of n bytes is below 2^(8n). */
  lemma ValBelowBytes(w: seq<u32>, n: nat)
    requires |w| == WIDTH && n == (Bits(w) + 7) / 8
    ensures Val(w) < Pow2(8 * n)
  {
    BitsVal(w);
    if Bits(w) > 0 {
      Pow2Le(Bits(w), 8 * n);
    }
  }

  /** The first step of `GetCompact` yields the top three bytes of the number. */
  lemma CompactWordVal(w: seq<u32>, n: nat, c: nat)
    requires |w| == WIDTH && n == (Bits(w) + 7) / 8 && c == CompactWord(w, n)
    ensures c == Window(Val(w), n) && c < Pow2(24)
  {
    ValBelowBytes(w, n);
    if n <= 3 {
      CompactWordShort(w, n, c);
    } else {
      CompactWordLong(w, n, c);
    }
  }

  /** A number of at most three bytes, moved up to fill three bytes. */
  lemma CompactWordShort(w: seq<u32>, n: nat, c: nat)
    requires |w| == WIDTH && Val(w) < Pow2(8 * n) && n <= 3 && c == CompactWord(w, n)
    ensures c == Window(Val(w), n) && c < Pow2(24)
  {
    Low64Val(w);
    BytesMovedUp(Val(w), n, 8 * (3 - n));
  }

  lemma BytesMovedUp(v: nat, n: nat, s: nat)
    requires v < Pow2(8 * n) && n <= 3 && s == 8 * (3 - n)
    ensures v % BASE64 == v && Shl64(v, s) % BASE == v * Pow2(s) < Pow2(24)
  {
    Pow2Small();
    Pow2Words();
    assert v < BASE64 by {
      Pow2Le(8 * n, 24);
    }
    ModUnique(v, BASE64, 0, v);
    var p := Pow2(s);
    var x := v * p;
    ScaledBelow(v, 8 * n, s, 24);
    MulLeMul(p, 0, v);
    assert 0 <= x < BASE64;
    ModUnique(x, BASE64, 0, x);
    ModUnique(x, BASE, 0, x);
  }

  /** A number of more than three bytes, moved down to its top three. */
  lemma CompactWordLong(w: seq<u32>, n: nat, c: nat)
    requires |w| == WIDTH && Val(w) < Pow2(8 * n) && n > 3 && c == CompactWord(w, n)
    ensures c == Window(Val(w), n) && c < Pow2(24)
  {
    var s := 8 * (n - 3);
    var u := ShiftRight(w, s);
    ShiftRightVal(w, s);
    Low64Val(u);
    BytesMovedDown(Val(w), Val(u), n, s);
  }

  lemma BytesMovedDown(x: nat, q: nat, n: nat, s: nat)
    requires x < Pow2(8 * n) && n > 3 && s == 8 * (n - 3) && q == x / Pow2(s)
    ensures q < Pow2(24) && (q % BASE64) % BASE == q
  {
    assert s + 24 == 8 * n;
    Pow2Small();
    Pow2Words();
    DivBelow(x, s, 24);
    ModUnique(q, BASE64, 0, q);
    ModUnique(q, BASE, 0, q);
  }

  lemma ScaledBelow(x: nat, a: nat, b: nat, c: nat)
    requires x < Pow2(a) && a + b == c
    ensures x * Pow2(b) < Pow2(c)
  {
    var p, q := Pow2(b), Pow2(a);
    Pow2AddTo(a, b, c);
    MulLtMul(p, x, q);
    assert x * p == p * x && q * p == p * q;
  }

  /** `c & 0x00800000` tests bit 23. */
  lemma SignBitTest(c: nat)
    requires c < 0x100_0000
    ensures BitAnd(c, SIGN_BIT) != 0 <==> c >= 0x80_0000
  {
    Pow2Small();
    AndBit(c, 23);
    if c >= 0x80_0000 {
      ModUnique(c, 0x80_0000, 1, c - 0x80_0000);
    } else {
      ModUnique(c, 0x80_0000, 0, c);
    }
  }

  /** `mant | uint32(size) << 24` puts the length byte above a 24-bit mantissa. */
  lemma JoinCompact(mant: nat, size: nat)
    requires mant < 0x100_0000 && size < 0x100
    ensures Or32(mant, Shl32(size, 24)) == mant + size * 0x100_0000
  {
    Pow2Small();
    Pow2Words();
    ModUnique(size * 0x100_0000, BASE, 0, size * 0x100_0000);
    ModMultiple(size, Pow2(24));
    OrDisjoint(size * 0x100_0000, mant, 24);
  }

  /** `GetCompact()`: the length byte is the byte length of the number, plus one when the
      top three bytes have bit 23 set; the mantissa is those three bytes, moved down one
      byte in that case, so bit 23 of the result is always clear. */
  lemma GetCompactSpec(w: seq<u32>)
    requires |w| == WIDTH
    ensures var r, n := CompactOf(w), (Bits(w) + 7) / 8;
            var win := Window(Val(w), n);
            && r / 0x100_0000 == (if win >= 0x80_0000 then n + 1 else n)
            && r % 0x100_0000 == (if win >= 0x80_0000 then win / 0x100 else win)
            && r % 0x100_0000 < 0x80_0000
  {
    var n := (Bits(w) + 7) / 8;
    var c := CompactWord(w, n);
    CompactWordVal(w, n, c);
    Pow2Small();
    SignBitTest(c);
    var sign := BitAnd(c, SIGN_BIT) != 0;
    var mant := if sign then Shr(c, 8) else c;
    var size := if sign then n + 1 else n;
    JoinCompact(mant, size);
    DivOfSplit(mant + size * 0x100_0000, mant, size, 0x100_0000);
  }

  /** The mantissa `GetCompact` returns is the number seen at the unit its length byte
      names: the number scaled up when it is shorter than three bytes, its top bytes when
      it is longer. */
  lemma GetCompactMantissa(w: seq<u32>)
    requires |w| == WIDTH
    ensures var r := CompactOf(w);
            var size, mant := r / 0x100_0000, r % 0x100_0000;
            && (size <= 3 ==> mant == Val(w) * Pow2(8 * (3 - size)))
            && (size > 3 ==> mant == Val(w) / Pow2(8 * (size - 3)))
  {
    var r := CompactOf(w);
    var n := (Bits(w) + 7) / 8;
    var win := Window(Val(w), n);
    GetCompactSpec(w);
    if win >= 0x80_0000 {
      MantissaMoved(Val(w), n, win);
    }
  }

  /** When the top three bytes have bit 23 set, one byte more of length and one byte less
      of mantissa name the same place values. */
  lemma MantissaMoved(x: nat, n: nat, win: nat)
    requires win == Window(x, n) && win >= 0x80_0000
    ensures n + 1 <= 3 ==> win / 0x100 == x * Pow2(8 * (3 - (n + 1)))
    ensures n + 1 > 3 ==> win / 0x100 == x / Pow2(8 * (n + 1 - 3))
  {
    Pow2Small();
    if n + 1 <= 3 {
      Pow2AddTo(8, 8 * (3 - (n + 1)), 8 * (3 - n));
      MulAssoc(x, Pow2(8 * (3 - (n + 1))), 0x100);
      ModMultiple(x * Pow2(8 * (3 - (n + 1))), 0x100);
    } else if n == 3 {
      assert win == x;
    } else {
      Pow2AddTo(8 * (n - 3), 8, 8 * (n + 1 - 3));
      DivDiv(x, Pow2(8 * (n - 3)), 0x100);
    }
  }

  // ---------------------------------------------------------------- round trips

  /** `SetCompact(GetCompact())` on a fresh number gives the number back with every byte
      below the kept three cleared. */
  lemma CompactTruncates(w: seq<u32>)
    requires |w| == WIDTH
    ensures var t := Unit(CompactOf(w) / 0x100_0000);
            Val(SetCompactWords(Zeros(), CompactOf(w))) == Val(w) / t * t
  {
    var r := CompactOf(w);
    var size, mant := r / 0x100_0000, r % 0x100_0000;
    GetCompactSpec(w);
    GetCompactMantissa(w);
    SetCompactVal(Zeros(), r);
    assert r % 0x80_0000 == mant by {
      ModMod(r, 0x80_0000, 2);
      ModUnique(mant, 0x80_0000, 0, mant);
    }
    ValBound(w);
    if size <= 3 {
      var p := Pow2(8 * (3 - size));
      ModMultiple(Val(w), p);
      ModUnique(Val(w), 1, Val(w), 0);
    } else {
      var p := Pow2(8 * (size - 3));
      DivFloorBelow(Val(w), p, Weight(WIDTH));
    }
  }

  lemma DivFloorBelow(x: nat, p: nat, m: nat)
    requires p > 0 && x < m
    ensures ((x / p) * p) % m == (x / p) * p
  {
    assert (x / p) * p <= x;
    ModUnique((x / p) * p, m, 0, (x / p) * p);
  }

  /** `GetCompact` after `SetCompact` on a fresh number returns the compact word it was
      given, for the words `GetCompact` returns without moving the mantissa, at length
      byte 3 or more: length byte 3 to 32, sign bit clear and a nonzero top mantissa
      byte. `CompactRoundTripMoved` covers the moved mantissas and `CompactIdempotent`
      every word `GetCompact` returns. */
  lemma CompactRoundTrip(v: u32)
    requires 3 <= v / 0x100_0000 <= 32
    requires 0x1_0000 <= v % 0x100_0000 < 0x80_0000
    ensures CompactOf(SetCompactWords(Zeros(), v)) == v
  {
    var size, m := v / 0x100_0000, v % 0x100_0000;
    var w := SetCompactWords(Zeros(), v);
    var k := 8 * (size - 3);
    SetCompactVal(Zeros(), v);
    CompactValueScaled(v, size, m, k);
    BitsOfScaled(w, m, k);
    assert (Bits(w) + 7) / 8 == size;
    GetCompactSpec(w);
    WindowScaled(m, k, size);
  }

  /** A compact word with length byte 3 to 32 and sign bit clear stands for its 24-bit
      mantissa times 2^k, k = 8 * (length - 3), with nothing cut at 2^256. */
  lemma CompactValueScaled(v: u32, size: nat, m: nat, k: nat)
    requires size == v / 0x100_0000 && 3 <= size <= 32 && k == 8 * (size - 3)
    requires m == v % 0x100_0000 && m < 0x80_0000
    ensures CompactValue(v) == m * Pow2(k)
  {
    assert v % 0x80_0000 == m by {
      ModMod(v, 0x80_0000, 2);
      ModUnique(m, 0x80_0000, 0, m);
    }
    if size > 3 {
      Pow2Small();
      ScaledFits(m, 23, k, 32 * WIDTH);
    }
  }

  lemma ScaledFits(m: nat, a: nat, k: nat, n: nat)
    requires m < Pow2(a) && a + k <= n
    ensures (m * Pow2(k)) % Pow2(n) == m * Pow2(k)
  {
    var p, t := Pow2(k), Pow2(n);
    ScaledBelow(m, a, k, a + k);
    Pow2Le(a + k, n);
    MulLeMul(p, 0, m);
    assert 0 <= m * p < t;
    ModBelow(m * p, t);
  }

  /** The top three bytes of a 24-bit mantissa shifted by whole bytes are the mantissa. */
  lemma WindowScaled(m: nat, k: nat, size: nat)
    requires 3 <= size && k == 8 * (size - 3)
    ensures Window(m * Pow2(k), size) == m
  {
    ModMultiple(m, Pow2(k));
  }

  /** A mantissa of three significant bytes scaled by 2^k has 17 + k to 23 + k bits. */
  lemma BitsOfScaled(w: seq<u32>, m: nat, k: nat)
    requires |w| == WIDTH && 0x1_0000 <= m < 0x80_0000 && Val(w) == m * Pow2(k)
    ensures 17 + k <= Bits(w) <= 23 + k
  {
    Pow2Small();
    ScaledAtLeast(m, 16, k, 16 + k);
    ScaledBelow(m, 23, k, 23 + k);
    BitsVal(w);
    TopBitBetween(Bits(w), Val(w), 16 + k, 23 + k);
  }

  lemma ScaledAtLeast(x: nat, a: nat, b: nat, c: nat)
    requires Pow2(a) <= x && a + b == c
    ensures Pow2(c) <= x * Pow2(b)
  {
    var p, q := Pow2(b), Pow2(a);
    Pow2AddTo(a, b, c);
    MulLeMul(p, q, x);
    assert x * p == p * x && q * p == p * q;
  }

  /** A number from 2^lo to below 2^hi has more than lo and at most hi bits. */
  lemma TopBitBetween(e: nat, v: nat, lo: nat, hi: nat)
    requires Pow2(lo) <= v < Pow2(hi)
    requires (e == 0 <==> v == 0) && (e > 0 ==> Pow2(e - 1) <= v < Pow2(e))
    ensures lo < e <= hi
  {
    if e > hi {
      Pow2Le(hi, e - 1);
    }
    if e <= lo {
      Pow2Le(e, lo);
    }
  }

  /** `GetCompact` after `SetCompact` on a fresh number returns the compact word it was
      given, for the words whose mantissa `GetCompact` moved down one byte because bit 23
      was set: length byte 4 to 33, mantissa 0x8000 to 0xffff. */
  lemma CompactRoundTripMoved(v: u32)
    requires 4 <= v / 0x100_0000 <= 33
    requires 0x8000 <= v % 0x100_0000 < 0x1_0000
    ensures CompactOf(SetCompactWords(Zeros(), v)) == v
  {
    var size, m := v / 0x100_0000, v % 0x100_0000;
    var w := SetCompactWords(Zeros(), v);
    var k := 8 * (size - 3);
    SetCompactVal(Zeros(), v);
    CompactValueMoved(v, size, m, k);
    BitsOfMoved(w, m, k);
    assert (Bits(w) + 7) / 8 == size - 1;
    GetCompactSpec(w);
    WindowMoved(m, k, size);
    ModMultiple(m, 0x100);
  }

  /** A compact word with a two-byte mantissa and length byte 4 to 33 stands for its
      mantissa times 2^k, k = 8 * (length - 3), with nothing cut at 2^256. */
  lemma CompactValueMoved(v: u32, size: nat, m: nat, k: nat)
    requires size == v / 0x100_0000 && 4 <= size <= 33 && k == 8 * (size - 3)
    requires m == v % 0x100_0000 && m < 0x1_0000
    ensures CompactValue(v) == m * Pow2(k)
  {
    assert v % 0x80_0000 == m by {
      ModMod(v, 0x80_0000, 2);
      ModUnique(m, 0x80_0000, 0, m);
    }
    Pow2Small();
    ScaledFits(m, 16, k, 32 * WIDTH);
  }

  /** A two-byte mantissa with bit 15 set, scaled by 2^k, has exactly 16 + k bits. */
  lemma BitsOfMoved(w: seq<u32>, m: nat, k: nat)
    requires |w| == WIDTH && 0x8000 <= m < 0x1_0000 && Val(w) == m * Pow2(k)
    ensures Bits(w) == 16 + k
  {
    MovedBetween(m, k);
    BitsVal(w);
    TopBitBetween(Bits(w), Val(w), 15 + k, 16 + k);
  }

  lemma MovedBetween(m: nat, k: nat)
    requires 0x8000 <= m < 0x1_0000
    ensures Pow2(15 + k) <= m * Pow2(k) < Pow2(16 + k)
  {
    assert Pow2(15) == 0x8000 by {
      Pow2AddTo(15, 1, 16);
      Pow2Small();
    }
    assert Pow2(16) == 0x1_0000 by {
      Pow2Small();
    }
    ScaledAtLeast(m, 15, k, 15 + k);
    ScaledBelow(m, 16, k, 16 + k);
  }

  /** The top three bytes of a two-byte mantissa shifted by k bits, read at one byte less
      of length, are the mantissa followed by a zero byte. */
  lemma WindowMoved(m: nat, k: nat, size: nat)
    requires 4 <= size && k == 8 * (size - 3)
    ensures Window(m * Pow2(k), size - 1) == m * 0x100
  {
    Pow2Small();
    Pow2AddTo(8, 8 * (size - 4), k);
    MulAssoc(m, 0x100, Pow2(8 * (size - 4)));
    if size > 4 {
      ModMultiple(m * 0x100, Pow2(8 * (size - 4)));
    }
  }

  /** `GetCompact(SetCompact(GetCompact()))` is `GetCompact()`: every word `GetCompact`
      returns survives the round trip, the short ones (length byte 0 to 3) because they
      lose nothing, the others by `CompactRoundTrip` or `CompactRoundTripMoved`. */
  lemma CompactIdempotent(w: seq<u32>)
    requires |w| == WIDTH
    ensures CompactOf(SetCompactWords(Zeros(), CompactOf(w))) == CompactOf(w)
  {
    var r := CompactOf(w);
    var n := (Bits(w) + 7) / 8;
    var win := Window(Val(w), n);
    GetCompactSpec(w);
    CompactWordVal(w, n, CompactWord(w, n));
    Pow2Small();
    if r / 0x100_0000 <= 3 {
      CompactTruncates(w);
      ValInjective(SetCompactWords(Zeros(), r), w);
    } else if win < 0x80_0000 {
      WindowAtLeast(w, n);
      CompactRoundTrip(r);
    } else {
      CompactRoundTripMoved(r);
    }
  }

  /** A number longer than three bytes has a nonzero top byte among its top three. */
  lemma WindowAtLeast(w: seq<u32>, n: nat)
    requires |w| == WIDTH && n == (Bits(w) + 7) / 8 && n > 3
    ensures Window(Val(w), n) >= 0x1_0000
  {
    var p, e := Pow2(8 * (n - 3)), 8 * n - 8;
    BitsVal(w);
    Pow2Le(e, Bits(w) - 1);
    assert Pow2(e) <= Val(w);
    Pow2AddTo(16, 8 * (n - 3), e);
    Pow2Small();
    assert 0x1_0000 * p <= Val(w);
    DivAtLeast(Val(w), 0x1_0000, p);
  }

  lemma DivAtLeast(x: nat, a: nat, p: nat)
    requires p > 0 && a * p <= x
    ensures a <= x / p
  {
    DivModAddMultiple(a, p, x - a * p);
    DivBounds(x - a * p, p);
  }

  /** The vector of common/arith_uint256_test.go: 0x1b0404cb survives the round trip. */
  lemma CompactVector()
    ensures CompactOf(SetCompactWords(Zeros(), 0x1b04_04cb)) == 0x1b04_04cb
  {
    CompactRoundTrip(0x1b04_04cb);
  }

  /** The proof-of-work limit 0x1d00ffff has a moved mantissa and survives the round
      trip as well. */
  lemma CompactVectorMoved()
    ensures CompactOf(SetCompactWords(Zeros(), 0x1d00_ffff)) == 0x1d00_ffff
  {
    CompactRoundTripMoved(0x1d00_ffff);
  }
}
