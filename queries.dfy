/**
 * The read-only scans of a 256-bit number (common/arith_uint256.go): `Cmp` walks the words
 * from the most significant down and stops at the first difference, `bits` finds the
 * highest set bit, `getLow64` joins the two low words.
 */
module Queries {
  import opened MathLemmas
  import opened Unsigned
  import opened Limbs

  /** The highest bit number of a word, where `bits` starts its inner loop. */
  const TOP_BIT: nat := 31

  /** `Cmp` restricted to the low n words: the loop from word n - 1 down to word 0. */
  function CmpWords(a: seq<u32>, b: seq<u32>, n: nat): (r: int)
    requires n <= |a| && n <= |b|
    ensures -1 <= r <= 1
  {
    if n == 0 then 0
    else if a[n - 1] < b[n - 1] then -1
    else if a[n - 1] > b[n - 1] then 1
    else CmpWords(a, b, n - 1)
  }

  /** The inner loop of `bits`: the highest set bit of x among bits nbits..1, counted from
      1, or 1 when none of them is set (then only bit 0 is left). */
  function HighBit(x: u32, nbits: nat): (r: nat)
    requires nbits < 32
    ensures 1 <= r <= nbits + 1
  {
    if nbits == 0 then 1
    else if BitAnd(x, Shl32(1, nbits)) > 0 then nbits + 1
    else HighBit(x, nbits - 1)
  }

  /** `bits` restricted to the low n words: the outer loop from word n - 1 down. */
  function BitsWords(w: seq<u32>, n: nat): (r: nat)
    requires n <= |w|
    ensures r <= 32 * n
  {
    if n == 0 then 0
    else if w[n - 1] > 0 then 32 * (n - 1) + HighBit(w[n - 1], TOP_BIT)
    else BitsWords(w, n - 1)
  }

  /** `bits()` of a 256-bit number. */
  function Bits(w: seq<u32>): (r: nat)
    requires |w| == WIDTH
    ensures r <= 256
  {
    BitsWords(w, WIDTH)
  }

  /** `getLow64()`: `uint64(pn[0]) | uint64(pn[1]) << 32`. */
  function Low64(w: seq<u32>): (r: u64)
    requires |w| == WIDTH
  {
    Pow2Words();
    OrXorBound(w[0], Shl64(w[1], 32), 64);
    BitOr(w[0], Shl64(w[1], 32))
  }

  /** `Cmp` answers -1, 0 or 1 exactly as the value of a is below, equal to or above that
      of b. */
  lemma {:induction false} CmpWordsVal(a: seq<u32>, b: seq<u32>, n: nat)
    requires n <= |a| && n <= |b|
    ensures CmpWords(a, b, n) == -1 <==> Val(a[..n]) < Val(b[..n])
    ensures CmpWords(a, b, n) == 0 <==> Val(a[..n]) == Val(b[..n])
    ensures CmpWords(a, b, n) == 1 <==> Val(a[..n]) > Val(b[..n])
  {
    if n == 0 {
      assert a[..0] == [] && b[..0] == [];
    } else {
      CmpWordsVal(a, b, n - 1);
      ValPrefixTo(a, n);
      ValPrefixTo(b, n);
      ValBound(a[..n - 1]);
      ValBound(b[..n - 1]);
      TopWordDecides(Val(a[..n - 1]), Val(b[..n - 1]), a[n - 1], b[n - 1], Weight(n - 1),
                     Val(a[..n]), Val(b[..n]));
    }
  }

  /** Two numbers below wt with top words x and y at weight wt: unequal top words decide the
      order, equal ones leave it to the rest. */
  lemma TopWordDecides(va: int, vb: int, x: int, y: int, wt: int, ta: int, tb: int)
    requires 0 <= va < wt && 0 <= vb < wt
    requires ta == va + x * wt && tb == vb + y * wt
    ensures x < y ==> ta < tb
    ensures x > y ==> ta > tb
    ensures x == y ==> (ta < tb <==> va < vb) && (ta == tb <==> va == vb)
  {
    if x < y {
      MulLeMulInt(x + 1, y, wt);
    }
    if x > y {
      MulLeMulInt(y + 1, x, wt);
    }
  }

  lemma MulLeMulInt(x: int, y: int, m: int)
    requires x <= y && m >= 0
    ensures x * m <= y * m
  {
    assert y * m - x * m == (y - x) * m;
  }

  /** The inner loop of `bits` finds the highest set bit: given x > 0 below 2^(nbits + 1),
      2^(r - 1) <= x < 2^r. */
  lemma {:induction false} HighBitBounds(x: u32, nbits: nat)
    requires nbits < 32 && 0 < x < Pow2(nbits + 1)
    ensures Pow2(HighBit(x, nbits) - 1) <= x < Pow2(HighBit(x, nbits))
  {
    if nbits > 0 {
      HighBitTest(x, nbits);
      if BitAnd(x, Shl32(1, nbits)) == 0 {
        HighBitBounds(x, nbits - 1);
      }
    }
  }

  /** The inner loop of `bits` started at bit 31 finds the highest set bit of a nonzero word. */
  lemma HighBitWord(x: u32)
    requires x > 0
    ensures Pow2(HighBit(x, TOP_BIT) - 1) <= x < Pow2(HighBit(x, TOP_BIT))
  {
    Pow2Words();
    HighBitBounds(x, TOP_BIT);
  }

  /** The test `x & (1 << nbits) > 0` of `bits`, for x below 2^(nbits + 1): when it holds
      x >= 2^nbits, and otherwise x < 2^nbits. */
  lemma HighBitTest(x: u32, nbits: nat)
    requires 0 < nbits < 32 && x < Pow2(nbits + 1)
    ensures BitAnd(x, Shl32(1, nbits)) > 0 ==> Pow2(nbits) <= x
    ensures BitAnd(x, Shl32(1, nbits)) == 0 ==> x < Pow2(nbits)
  {
    var p := Pow2(nbits);
    ShlOne(nbits);
    AndBit(x, nbits);
    if BitAnd(x, p) > 0 {
      BitSetAtLeast(x, p);
    } else {
      BitClearBelow(x, p);
    }
  }

  /** Bit k of x set (x / 2^k odd) means x >= 2^k. */
  lemma BitSetAtLeast(x: nat, p: nat)
    requires p > 0 && p * ((x / p) % 2) > 0
    ensures p <= x
  {
    assert x == (x / p) * p + x % p;
    MulAtLeast(x / p, p);
  }

  /** Bit k of x clear and x < 2^(k + 1) means x < 2^k. */
  lemma BitClearBelow(x: nat, p: nat)
    requires p > 0 && p * ((x / p) % 2) == 0 && x < 2 * p
    ensures x < p
  {
    var q := x / p;
    assert x == q * p + x % p;
    if q >= 1 {
      if q == 1 {
        assert false;
      }
      MulAtLeast(q, p);
      MulLeMulInt(2, q, p);
      assert false;
    }
  }

  /** `bits` returns 0 exactly when all words are zero, and otherwise the length of the
      value in bits: 2^(bits - 1) <= Val < 2^bits. */
  lemma {:induction false} BitsWordsVal(w: seq<u32>, n: nat, e: nat)
    requires n <= |w| && e == BitsWords(w, n)
    ensures e == 0 <==> Val(w[..n]) == 0
    ensures e > 0 ==> Pow2(e - 1) <= Val(w[..n]) < Pow2(e)
  {
    if n == 0 {
      assert w[..0] == [];
    } else if w[n - 1] > 0 {
      BitsTopWordLower(w, n, e);
      BitsTopWordUpper(w, n, e);
    } else {
      SkipZeroWord(w, n);
      BitsWordsVal(w, n - 1, e);
    }
  }

  /** A zero top word changes neither `bits` nor the value. */
  lemma SkipZeroWord(w: seq<u32>, n: nat)
    requires 0 < n <= |w| && w[n - 1] == 0
    ensures BitsWords(w, n) == BitsWords(w, n - 1) && Val(w[..n]) == Val(w[..n - 1])
  {
    ValPrefixTo(w, n);
  }

  lemma BitsTopWordLower(w: seq<u32>, n: nat, e: nat)
    requires 0 < n <= |w| && w[n - 1] > 0 && e == BitsWords(w, n)
    ensures e > 0 && Pow2(e - 1) <= Val(w[..n])
  {
    HighBitWord(w[n - 1]);
    TopWordAtLeast(w, n, HighBit(w[n - 1], TOP_BIT), e);
  }

  lemma BitsTopWordUpper(w: seq<u32>, n: nat, e: nat)
    requires 0 < n <= |w| && w[n - 1] > 0 && e == BitsWords(w, n)
    ensures Val(w[..n]) < Pow2(e)
  {
    HighBitWord(w[n - 1]);
    TopWordBelow(w, n, HighBit(w[n - 1], TOP_BIT), e);
  }

  /** A top word at or above 2^(h - 1) puts the number at or above 2^(32 * (n - 1) + h - 1). */
  lemma TopWordAtLeast(w: seq<u32>, n: nat, h: nat, e: nat)
    requires 0 < n <= |w| && 0 < h && Pow2(h - 1) <= w[n - 1] && e == 32 * (n - 1) + h
    ensures Pow2(e - 1) <= Val(w[..n])
  {
    ValPrefixTo(w, n);
    Pow2AddTo(32 * (n - 1), h - 1, e - 1);
    TopWordLower(Val(w[..n - 1]), w[n - 1], Pow2(32 * (n - 1)), Pow2(h - 1), Val(w[..n]),
                 Pow2(e - 1));
  }

  /** A top word below 2^h puts the number below 2^(32 * (n - 1) + h). */
  lemma TopWordBelow(w: seq<u32>, n: nat, h: nat, e: nat)
    requires 0 < n <= |w| && w[n - 1] < Pow2(h) && e == 32 * (n - 1) + h
    ensures Val(w[..n]) < Pow2(e)
  {
    ValPrefixTo(w, n);
    ValBound(w[..n - 1]);
    Pow2AddTo(32 * (n - 1), h, e);
    TopWordUpper(Val(w[..n - 1]), w[n - 1], Pow2(32 * (n - 1)), Pow2(h), Val(w[..n]), Pow2(e));
  }

  /** A top word x >= lo at weight wt puts the number at or above wt * lo. */
  lemma TopWordLower(low: nat, x: nat, wt: nat, lo: nat, v: nat, vlo: nat)
    requires lo <= x && v == low + x * wt && vlo == wt * lo
    ensures vlo <= v
  {
    MulLeMulInt(lo, x, wt);
  }

  /** A top word x < hi at weight wt over a remainder below wt puts the number below wt * hi. */
  lemma TopWordUpper(low: nat, x: nat, wt: nat, hi: nat, v: nat, vhi: nat)
    requires low < wt && x < hi && v == low + x * wt && vhi == wt * hi
    ensures v < vhi
  {
    MulLeMulInt(x + 1, hi, wt);
  }

  /** `bits()` lies in 0..256, with 2^(bits - 1) <= Val < 2^bits when the number is not zero. */
  lemma BitsVal(w: seq<u32>)
    requires |w| == WIDTH
    ensures Bits(w) == 0 <==> Val(w) == 0
    ensures Bits(w) > 0 ==> Pow2(Bits(w) - 1) <= Val(w) < Pow2(Bits(w))
  {
    BitsWordsVal(w, WIDTH, Bits(w));
    assert w[..WIDTH] == w;
  }

  /** A value below 2^n has at most n bits. */
  lemma BitsBelow(w: seq<u32>, n: nat)
    requires |w| == WIDTH && Val(w) < Pow2(n)
    ensures Bits(w) <= n
  {
    BitsVal(w);
    if Bits(w) > n {
      Pow2Le(n, Bits(w) - 1);
    }
  }

  /** `getLow64()` is the value modulo 2^64. */
  lemma Low64Val(w: seq<u32>)
    requires |w| == WIDTH
    ensures Low64(w) == w[0] + BASE * w[1]
    ensures Low64(w) == Val(w) % BASE64
  {
    Join64(w[0], w[1]);
    ValFrom(w, 0);
    ValFrom(w, 1);
    assert w[0..] == w;
    Pow2Words();
    Low64Split(Val(w), w[0], w[1], Val(w[2..]));
  }

  lemma Low64Split(v: nat, x: nat, y: nat, rest: nat)
    requires x < BASE && y < BASE && v == x + BASE * (y + BASE * rest)
    ensures v % BASE64 == x + BASE * y
  {
    assert x + BASE * y < BASE64 by {
      MulLeMulInt(y, BASE - 1, BASE);
    }
    assert v == rest * BASE64 + (x + BASE * y);
    ModUnique(v, BASE64, rest, x + BASE * y);
  }
}
