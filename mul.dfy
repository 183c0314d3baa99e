/**
 * Multiplication of the 256-bit number (common/arith_uint256.go): `MulU32` by one word,
 * `Mul` by another 256-bit number (schoolbook, keeping only the product words below
 * word 8) and `MulU64`, which widens its operand with `FromUint64` and calls `Mul`.
 * Each loop is a recursive function over the same index and carry; the value lemmas
 * show every one computes the product modulo 2^256.
 */
module Mul {
  import opened MathLemmas
  import opened Unsigned
  import opened Limbs
  import opened Construct

  /** A 64-bit intermediate: `n & 0xffffffff` is its low word and `n >> 32` its high word. */
  lemma LowHigh(n: nat)
    requires n < BASE64
    ensures BitAnd(n, MAX32) == n % BASE && Shr(n, 32) == n / BASE
    ensures n / BASE < BASE && n == n % BASE + BASE * (n / BASE)
  {
    Pow2Words();
    AndLowMask(n, 32);
  }

  /** carry + t + x * y never wraps a uint64 when all four are 32-bit words. */
  lemma ProductFits(c: u32, t: u32, x: u32, y: u32)
    ensures c + t + x * y < BASE64
  {
    MulLeMul(x, y, MAX32);
    MulLeMul(MAX32, x, MAX32);
  }

  /** The words `MulU32(b)` leaves, from loop index i with the given carry on. */
  function MulU32From(w: seq<u32>, b: u32, i: nat, carry: u32): (r: seq<u32>)
    requires |w| == WIDTH && i <= WIDTH
    ensures |r| == WIDTH
    decreases |w| - i
  {
    if i == WIDTH then w
    else
      var n := carry + b * w[i];
      ProductFits(carry, 0, b, w[i]);
      LowHigh(n);
      MulU32From(w[i := BitAnd(n, MAX32)], b, i + 1, Shr(n, 32))
  }

  /** The words `MulU32(b)` leaves. */
  function MulU32Words(w: seq<u32>, b: u32): (r: seq<u32>)
    requires |w| == WIDTH
    ensures |r| == WIDTH
  {
    MulU32From(w, b, 0, 0)
  }

  /**
   * From index i on, the loop adds b times the words not yet visited, plus the carry,
   * at weight 2^(32 * i), to the words below i; what exceeds 2^256 (q times it) is lost.
   */
  lemma {:induction false} MulU32FromVal(w: seq<u32>, b: u32, i: nat, c: u32,
                                         low: nat, wt: nat, ahead: nat, r: seq<u32>)
    returns (q: int)
    requires |w| == WIDTH && i <= WIDTH && r == MulU32From(w, b, i, c)
    requires low == Val(w[..i]) && wt == Weight(i) && ahead == Val(w[i..])
    ensures Val(r) + q * Weight(WIDTH) == low + wt * (c + b * ahead)
    decreases WIDTH - i
  {
    if i == WIDTH {
      assert low == Val(r) && ahead == 0 by {
        assert w[..i] == w && w[i..] == [];
      }
      q := c;
      CarryOut(Val(r), Weight(WIDTH), low, wt, c, b * ahead);
    } else {
      var n := c + b * w[i];
      ProductFits(c, 0, b, w[i]);
      LowHigh(n);
      var lo, hi := BitAnd(n, MAX32), Shr(n, 32);
      var w' := w[i := lo];
      var acc, rest, wt1 := Val(w'[..i + 1]), Val(w[i + 1..]), Weight(i + 1);
      assert acc == low + lo * wt by {
        ValPrefixNext(w', i);
        assert w'[..i] == w[..i];
      }
      assert ahead == w[i] + BASE * rest by {
        ValFrom(w, i);
      }
      assert wt1 == BASE * wt by {
        WeightNext(i);
      }
      assert w'[i + 1..] == w[i + 1..];
      MulU32FromNext(w, b, i, c, n, lo, hi);
      q := MulU32FromVal(w', b, i + 1, hi, acc, wt1, rest, r);
      MulU32Step(acc, low, lo, hi, wt, wt1, n, c, b, w[i], rest, ahead);
    }
  }

  /** One iteration of `MulU32`'s loop. */
  lemma MulU32FromNext(w: seq<u32>, b: u32, i: nat, c: u32, n: nat, lo: u32, hi: u32)
    requires |w| == WIDTH && i < WIDTH
    requires n == c + b * w[i] && lo == BitAnd(n, MAX32) && hi == Shr(n, 32)
    ensures MulU32From(w, b, i, c) == MulU32From(w[i := lo], b, i + 1, hi)
  {
  }

  /** Past the last word the carry c lands at weight m and is lost. */
  lemma CarryOut(v: int, m: int, low: int, wt: int, c: int, rest: int)
    requires v == low && wt == m && rest == 0
    ensures v + c * m == low + wt * (c + rest)
  {
  }

  lemma MulU32Step(acc: int, low: int, lo: int, hi: int, wt: int, wt1: int,
                   n: int, c: int, b: int, x: int, rest: int, vw: int)
    requires acc == low + lo * wt && wt1 == BASE * wt
    requires n == c + b * x && n == lo + BASE * hi && vw == x + BASE * rest
    ensures acc + wt1 * (hi + b * rest) == low + wt * (c + b * vw)
  {
    assert wt1 * (hi + b * rest) == wt * (BASE * hi + BASE * (b * rest));
    assert b * vw == b * x + BASE * (b * rest);
  }

  /** `MulU32(b)` multiplies by b modulo 2^256. */
  lemma MulU32Val(w: seq<u32>, b: u32)
    requires |w| == WIDTH
    ensures Val(MulU32Words(w, b)) == (Val(w) * b) % Weight(WIDTH)
  {
    var r := MulU32From(w, b, 0, 0);
    assert MulU32Words(w, b) == r;
    assert Val(w[..0]) == 0 by {
      assert w[..0] == [];
    }
    assert Val(w[0..]) == Val(w) by {
      assert w[0..] == w;
    }
    assert Weight(0) == 1;
    var q := MulU32FromVal(w, b, 0, 0, 0, 1, Val(w), r);
    ValBound(r);
    ProductMod(Val(r), q, Weight(WIDTH), 0 + 1 * (0 + b * Val(w)), Val(w), b);
  }

  /** A value below m that differs from p by a multiple of m is p modulo m. */
  lemma ProductMod(v: int, q: int, m: int, p: int, x: int, y: int)
    requires 0 <= v < m && v + q * m == p && p == x * y
    ensures v == (x * y) % m
  {
    ModUnique(p, m, q, v);
  }

  /**
   * Row j of `Mul`'s outer loop from inner index i on: tmp.pn[i + j] receives
   * carry + tmp.pn[i + j] + x * b.pn[i], for x = a.pn[j].
   */
  function MulRow(t: seq<u32>, x: u32, b: seq<u32>, j: nat, i: nat, carry: u32): (r: seq<u32>)
    requires |t| == WIDTH && |b| == WIDTH && i + j <= WIDTH
    ensures |r| == WIDTH
    decreases |t| - i - j
  {
    if i + j == WIDTH then t
    else
      var n := carry + t[i + j] + x * b[i];
      ProductFits(carry, t[i + j], x, b[i]);
      LowHigh(n);
      MulRow(t[i + j := BitAnd(n, MAX32)], x, b, j, i + 1, Shr(n, 32))
  }

  /** `Mul`'s outer loop from row j on, accumulating into t. */
  function MulRows(t: seq<u32>, a: seq<u32>, b: seq<u32>, j: nat): (r: seq<u32>)
    requires |t| == WIDTH && |a| == WIDTH && |b| == WIDTH && j <= WIDTH
    ensures |r| == WIDTH
    decreases |t| - j
  {
    if j == WIDTH then t else MulRows(MulRow(t, a[j], b, j, 0, 0), a, b, j + 1)
  }

  /** The words `a.Mul(b)` leaves in a: the rows accumulated into a zeroed tmp. */
  function MulWords(a: seq<u32>, b: seq<u32>): (r: seq<u32>)
    requires |a| == WIDTH && |b| == WIDTH
    ensures |r| == WIDTH
  {
    MulRows(Zeros(), a, b, 0)
  }

  /** The words `MulU64(v)` leaves: a times a fresh number set by `FromUint64(v)`. */
  function MulU64Words(a: seq<u32>, v: u64): (r: seq<u32>)
    requires |a| == WIDTH
    ensures |r| == WIDTH
  {
    MulWords(a, FromUint64Words(Zeros(), v))
  }

  /**
   * From inner index i on, row j adds x times the words of b below word 8 - j, plus the
   * carry, at weight 2^(32 * (i + j)), to the words below i + j; what exceeds 2^256
   * (q times it) is lost.
   */
  lemma {:induction false} MulRowVal(t: seq<u32>, x: u32, b: seq<u32>, j: nat, i: nat, c: u32,
                                     low: nat, wt: nat, ahead: nat, bs: nat, r: seq<u32>)
    returns (q: int)
    requires |t| == WIDTH && |b| == WIDTH && i + j <= WIDTH && r == MulRow(t, x, b, j, i, c)
    requires low == Val(t[..i + j]) && wt == Weight(i + j) && ahead == Val(t[i + j..])
    requires bs == Val(b[i..WIDTH - j])
    ensures Val(r) + q * Weight(WIDTH) == low + wt * (ahead + c + x * bs)
    decreases WIDTH - i - j
  {
    var k := i + j;
    if k == WIDTH {
      assert low == Val(r) && ahead == 0 && bs == 0 by {
        assert t[..k] == t && t[k..] == [] && b[i..WIDTH - j] == [];
      }
      q := c;
      RowCarryOut(Val(r), Weight(WIDTH), low, wt, ahead, c, x, bs);
    } else {
      var n := c + t[k] + x * b[i];
      ProductFits(c, t[k], x, b[i]);
      LowHigh(n);
      var lo, hi := BitAnd(n, MAX32), Shr(n, 32);
      var t' := t[k := lo];
      var k1 := i + 1 + j;
      var acc, trest, brest, wt1 := Val(t'[..k1]), Val(t[k1..]), Val(b[i + 1..WIDTH - j]), Weight(k1);
      assert acc == low + lo * wt by {
        ValPrefixNext(t', k);
        assert t'[..k] == t[..k];
      }
      assert ahead == t[k] + BASE * trest by {
        ValFrom(t, k);
      }
      assert bs == b[i] + BASE * brest by {
        var bb := b[..WIDTH - j];
        ValFrom(bb, i);
        assert bb[i..] == b[i..WIDTH - j] && bb[i + 1..] == b[i + 1..WIDTH - j];
      }
      assert wt1 == BASE * wt by {
        WeightNext(k);
      }
      assert t'[k1..] == t[k1..];
      MulRowNext(t, x, b, j, i, c, n, lo, hi);
      q := MulRowVal(t', x, b, j, i + 1, hi, acc, wt1, trest, brest, r);
      RowStep(acc, low, lo, hi, wt, wt1, n, c, t[k], x, b[i], trest, brest, ahead, bs);
    }
  }

  /** One iteration of `Mul`'s inner loop. */
  lemma MulRowNext(t: seq<u32>, x: u32, b: seq<u32>, j: nat, i: nat, c: u32,
                   n: nat, lo: u32, hi: u32)
    requires |t| == WIDTH && |b| == WIDTH && i + j < WIDTH
    requires n == c + t[i + j] + x * b[i] && lo == BitAnd(n, MAX32) && hi == Shr(n, 32)
    ensures MulRow(t, x, b, j, i, c) == MulRow(t[i + j := lo], x, b, j, i + 1, hi)
  {
  }

  /** At the end of a row the carry lands at 2^256 and is lost. */
  lemma RowCarryOut(v: int, m: int, low: int, wt: int, ahead: int, c: int, x: int, bs: int)
    requires v == low && wt == m && ahead == 0 && bs == 0
    ensures v + c * m == low + wt * (ahead + c + x * bs)
  {
  }

  lemma RowStep(acc: int, low: int, lo: int, hi: int, wt: int, wt1: int, n: int, c: int,
                tk: int, x: int, bi: int, trest: int, brest: int, vt: int, vb: int)
    requires acc == low + lo * wt && wt1 == BASE * wt
    requires n == c + tk + x * bi && n == lo + BASE * hi
    requires vt == tk + BASE * trest && vb == bi + BASE * brest
    ensures acc + wt1 * (trest + hi + x * brest) == low + wt * (vt + c + x * vb)
  {
    assert wt1 * (trest + hi + x * brest) == wt * (BASE * trest + BASE * hi + BASE * (x * brest));
    assert x * vb == x * bi + BASE * (x * brest);
  }

  /** Row j, run from its start, adds a.pn[j] times the low 8 - j words of b at weight 2^(32 * j). */
  lemma MulRowStart(t: seq<u32>, x: u32, b: seq<u32>, j: nat, vt: nat, wt: nat, bs: nat,
                    r: seq<u32>)
    returns (q: int)
    requires |t| == WIDTH && |b| == WIDTH && j < WIDTH && r == MulRow(t, x, b, j, 0, 0)
    requires vt == Val(t) && wt == Weight(j) && bs == Val(b[..WIDTH - j])
    ensures Val(r) + q * Weight(WIDTH) == vt + wt * (x * bs)
  {
    var low, ahead := Val(t[..j]), Val(t[j..]);
    assert vt == low + wt * ahead by {
      ValSplit(t, j);
    }
    assert b[0..WIDTH - j] == b[..WIDTH - j];
    q := MulRowVal(t, x, b, j, 0, 0, low, wt, ahead, bs, r);
    RowStartSum(vt, low, wt, ahead, x, bs);
  }

  lemma RowStartSum(vt: int, low: int, wt: int, ahead: int, x: int, bs: int)
    requires vt == low + wt * ahead
    ensures low + wt * (ahead + 0 + x * bs) == vt + wt * (x * bs)
  {
  }

  /**
   * The outer loop from row j on adds the words of a from j on, times b, at weight
   * 2^(32 * j); what exceeds 2^256 (q times it) is lost.
   */
  lemma {:induction false} MulRowsVal(t: seq<u32>, a: seq<u32>, b: seq<u32>, j: nat,
                                      vt: nat, wt: nat, va: nat, vb: nat, r: seq<u32>)
    returns (q: int)
    requires |t| == WIDTH && |a| == WIDTH && |b| == WIDTH && j <= WIDTH
    requires r == MulRows(t, a, b, j) && vt == Val(t) && wt == Weight(j)
    requires va == Val(a[j..]) && vb == Val(b)
    ensures Val(r) + q * Weight(WIDTH) == vt + wt * (va * vb)
    decreases WIDTH - j
  {
    if j == WIDTH {
      assert va == 0 by {
        assert a[j..] == [];
      }
      q := 0;
      RowsDone(Val(r), Weight(WIDTH), vt, wt, va, vb);
    } else {
      var t1 := MulRow(t, a[j], b, j, 0, 0);
      assert r == MulRows(t1, a, b, j + 1);
      var vt1, wt1, va1 := Val(t1), Weight(j + 1), Val(a[j + 1..]);
      var blow: int, bhigh: int := Val(b[..WIDTH - j]), Val(b[WIDTH - j..]);
      var m: int, wr: int := Weight(WIDTH), Weight(WIDTH - j);
      var q1 := MulRowStart(t, a[j], b, j, vt, wt, blow, t1);
      var q2 := MulRowsVal(t1, a, b, j + 1, vt1, wt1, va1, vb, r);
      assert va == a[j] + BASE * va1 by {
        ValFrom(a, j);
      }
      assert wt1 == BASE * wt by {
        WeightNext(j);
      }
      assert vb == blow + wr * bhigh by {
        ValSplit(b, WIDTH - j);
      }
      assert m == wt * wr by {
        Pow2AddTo(32 * j, 32 * (WIDTH - j), 32 * WIDTH);
      }
      var aj: int := a[j];
      q := q1 + q2 + aj * bhigh;
      RowsStep(Val(r), vt1, vt, wt, wt1, wr, m, aj, va1, va, vb, blow, bhigh, q1, q2, q);
    }
  }

  /** After the last row nothing more is added. */
  lemma RowsDone(v: int, m: int, vt: int, wt: int, va: int, vb: int)
    requires v == vt && va == 0
    ensures v + 0 * m == vt + wt * (va * vb)
  {
  }

  lemma RowsStep(v: int, vt1: int, vt: int, wt: int, wt1: int, wr: int, m: int, aj: int,
                 va1: int, va: int, vb: int, blow: int, bhigh: int, q1: int, q2: int, q: int)
    requires q == q1 + q2 + aj * bhigh
    requires vt1 + q1 * m == vt + wt * (aj * blow)
    requires v + q2 * m == vt1 + wt1 * (va1 * vb)
    requires wt1 == BASE * wt && m == wt * wr && va == aj + BASE * va1
    requires vb == blow + wr * bhigh
    ensures v + q * m == vt + wt * (va * vb)
  {
    assert va * vb == aj * vb + BASE * (va1 * vb);
    assert aj * vb == aj * blow + wr * (aj * bhigh);
    assert wt * (wr * (aj * bhigh)) == (aj * bhigh) * m;
    assert wt * (BASE * (va1 * vb)) == wt1 * (va1 * vb);
  }

  /** `Mul` computes the product modulo 2^256. */
  lemma MulVal(a: seq<u32>, b: seq<u32>)
    requires |a| == WIDTH && |b| == WIDTH
    ensures Val(MulWords(a, b)) == (Val(a) * Val(b)) % Weight(WIDTH)
  {
    var r := MulRows(Zeros(), a, b, 0);
    assert MulWords(a, b) == r;
    ValZeros(Zeros());
    assert a[0..] == a;
    assert Weight(0) == 1;
    var q := MulRowsVal(Zeros(), a, b, 0, 0, 1, Val(a), Val(b), r);
    ValBound(r);
    ProductMod(Val(r), q, Weight(WIDTH), 0 + 1 * (Val(a) * Val(b)), Val(a), Val(b));
  }

  /** `a.Mul(b)` and `b.Mul(a)` leave the same words. */
  lemma MulCommutes(a: seq<u32>, b: seq<u32>)
    requires |a| == WIDTH && |b| == WIDTH
    ensures MulWords(a, b) == MulWords(b, a)
  {
    MulVal(a, b);
    MulVal(b, a);
    assert Val(a) * Val(b) == Val(b) * Val(a);
    ValInjective(MulWords(a, b), MulWords(b, a));
  }

  /** `MulU32(b)` leaves the same words as `Mul` by the number b. */
  lemma MulU32AsMul(w: seq<u32>, b: u32)
    requires |w| == WIDTH
    ensures MulU32Words(w, b) == MulWords(w, FromUint64Words(Zeros(), b))
  {
    MulU32Val(w, b);
    MulVal(w, FromUint64Words(Zeros(), b));
    FromUint64Exact(Zeros(), b);
    ValInjective(MulU32Words(w, b), MulWords(w, FromUint64Words(Zeros(), b)));
  }

  /** `MulU64(v)` multiplies by v modulo 2^256. */
  lemma MulU64Val(a: seq<u32>, v: u64)
    requires |a| == WIDTH
    ensures Val(MulU64Words(a, v)) == (Val(a) * v) % Weight(WIDTH)
  {
    MulVal(a, FromUint64Words(Zeros(), v));
    FromUint64Exact(Zeros(), v);
  }
}
