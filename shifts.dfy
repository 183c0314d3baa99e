/**
 * The word arrays LeftShift and RightShift build (common/arith_uint256.go), and the proof
 * that they are the 256-bit shifts: Val(w) * 2^s mod 2^256 and Val(w) / 2^s.
 * A shift by s moves every word by k = s / 32 places and every bit by r = s % 32 places
 * inside a word, the bits that leave a word spilling into its neighbour.
 */
module Shifts {
  import opened MathLemmas
  import opened Unsigned
  import opened Limbs

  /** `x >> (32 - r)`: the bits of x that a left shift by r moves into the next word
      (the code skips it when r == 0, since a 32-bit shift by 32 is not intended). */
  function SpillUp(x: u32, r: nat): u32
    requires r < 32
  {
    if r != 0 then Shr(x, 32 - r) else 0
  }

  /** `x << (32 - r)`: the bits of x that a right shift by r moves into the word below. */
  function SpillDown(x: u32, r: nat): u32
    requires r < 32
  {
    if r != 0 then Shl32(x, 32 - r) else 0
  }

  /** Word j of LeftShift's result once its loop has handled source words 0..n-1:
      the spill of word j-k-1 or-ed with word j-k shifted by r. */
  function LeftShiftWord(w: seq<u32>, k: nat, r: nat, j: nat, n: nat): u32
    requires |w| == WIDTH && r < 32 && j < WIDTH
  {
    Or32(if k + 1 <= j && j - k - 1 < n then SpillUp(w[j - k - 1], r) else 0,
         if k <= j && j - k < n then Shl32(w[j - k], r) else 0)
  }

  /** Word j of RightShift's result once its loop has handled source words 0..n-1:
      word j+k shifted by r or-ed with the spill of word j+k+1. */
  function RightShiftWord(w: seq<u32>, k: nat, r: nat, j: nat, n: nat): u32
    requires |w| == WIDTH && r < 32 && j < WIDTH
  {
    Or32(if j + k < WIDTH && j + k < n then Shr(w[j + k], r) else 0,
         if j + k + 1 < WIDTH && j + k + 1 < n then SpillDown(w[j + k + 1], r) else 0)
  }

  /** LeftShift's words once its loop has handled source words 0..n-1. */
  function LeftShiftPartial(w: seq<u32>, k: nat, r: nat, n: nat): (res: seq<u32>)
    requires |w| == WIDTH && r < 32
    ensures |res| == WIDTH
  {
    seq(WIDTH, j requires 0 <= j < WIDTH => LeftShiftWord(w, k, r, j, n))
  }

  /** RightShift's words once its loop has handled source words 0..n-1. */
  function RightShiftPartial(w: seq<u32>, k: nat, r: nat, n: nat): (res: seq<u32>)
    requires |w| == WIDTH && r < 32
    ensures |res| == WIDTH
  {
    seq(WIDTH, j requires 0 <= j < WIDTH => RightShiftWord(w, k, r, j, n))
  }

  /** The words `LeftShift(s)` leaves. */
  function ShiftLeft(w: seq<u32>, s: nat): (res: seq<u32>)
    requires |w| == WIDTH
    ensures |res| == WIDTH
  {
    LeftShiftPartial(w, s / 32, s % 32, WIDTH)
  }

  /** The words `RightShift(s)` leaves. */
  function ShiftRight(w: seq<u32>, s: nat): (res: seq<u32>)
    requires |w| == WIDTH
    ensures |res| == WIDTH
  {
    RightShiftPartial(w, s / 32, s % 32, WIDTH)
  }

  /** Before LeftShift's loop, and before RightShift's, every word is zero. */
  lemma PartialStart(w: seq<u32>, k: nat, r: nat)
    requires |w| == WIDTH && r < 32
    ensures LeftShiftPartial(w, k, r, 0) == Zeros()
    ensures RightShiftPartial(w, k, r, 0) == Zeros()
  {
  }

  /** One iteration of LeftShift's loop: word i spills into word i + k + 1 (unless the bit
      shift is 0) and lands, shifted, in word i + k. */
  lemma LeftShiftStep(w: seq<u32>, k: nat, r: nat, i: nat)
    requires |w| == WIDTH && r < 32 && i < WIDTH
    ensures var p := LeftShiftPartial(w, k, r, i);
            var p1 := if i + k + 1 < WIDTH && r != 0
                      then p[i + k + 1 := Or32(p[i + k + 1], Shr(w[i], 32 - r))] else p;
            var p2 := if i + k < WIDTH then p1[i + k := Or32(p1[i + k], Shl32(w[i], r))] else p1;
            p2 == LeftShiftPartial(w, k, r, i + 1)
  {
    var p, q := LeftShiftPartial(w, k, r, i), LeftShiftPartial(w, k, r, i + 1);
    var p1 := if i + k + 1 < WIDTH && r != 0
              then p[i + k + 1 := Or32(p[i + k + 1], Shr(w[i], 32 - r))] else p;
    var p2 := if i + k < WIDTH then p1[i + k := Or32(p1[i + k], Shl32(w[i], r))] else p1;
    forall j | 0 <= j < WIDTH
      ensures p2[j] == q[j]
    {
      if j == i + k {
        assert p2[j] == Or32(p[j], Shl32(w[i], r));
      } else if j == i + k + 1 {
        assert p[j] == 0;
      } else {
        assert p2[j] == p[j];
      }
    }
  }

  /** One iteration of RightShift's loop: word i spills into word i - k - 1 (unless the bit
      shift is 0) and lands, shifted, in word i - k. */
  lemma RightShiftStep(w: seq<u32>, k: nat, r: nat, i: nat)
    requires |w| == WIDTH && r < 32 && i < WIDTH
    ensures var p := RightShiftPartial(w, k, r, i);
            var p1 := if i >= k + 1 && r != 0
                      then p[i - k - 1 := Or32(p[i - k - 1], Shl32(w[i], 32 - r))] else p;
            var p2 := if i >= k then p1[i - k := Or32(p1[i - k], Shr(w[i], r))] else p1;
            p2 == RightShiftPartial(w, k, r, i + 1)
  {
    var p, q := RightShiftPartial(w, k, r, i), RightShiftPartial(w, k, r, i + 1);
    var p1 := if i >= k + 1 && r != 0
              then p[i - k - 1 := Or32(p[i - k - 1], Shl32(w[i], 32 - r))] else p;
    var p2 := if i >= k then p1[i - k := Or32(p1[i - k], Shr(w[i], r))] else p1;
    forall j | 0 <= j < WIDTH
      ensures p2[j] == q[j]
    {
      if i >= k && j == i - k {
        assert p2[j] == Or32(p[j], Shr(w[i], r));
      } else if i >= k + 1 && j == i - k - 1 {
        assert p1[j] == Or32(p[j], SpillDown(w[i], r));
      } else {
        assert p2[j] == p[j];
      }
    }
  }

  /** LeftShift leaves Val(w) * 2^s mod 2^256. */
  lemma ShiftLeftVal(w: seq<u32>, s: nat)
    requires |w| == WIDTH
    ensures Val(ShiftLeft(w, s)) == (Val(w) * Pow2(s)) % Weight(WIDTH)
  {
    var k, r := s / 32, s % 32;
    ShiftLeftCarry(w, s);
    ValBound(ShiftLeft(w, s));
    WordsUpVal(w, k);
    Pow2Add(32 * k, r);
    CombineShiftLeft(Val(ShiftLeft(w, s)), SpillUp(WordsUp(w, k)[WIDTH - 1], r), Val(WordsUp(w, k)),
                     Val(w), Weight(k), Pow2(r), Weight(WIDTH), Pow2(s));
  }

  /** The left shift by s is the shift of the word-moved value by s % 32 bits, less the bits
      carried out of the top word. */
  lemma ShiftLeftCarry(w: seq<u32>, s: nat)
    requires |w| == WIDTH
    ensures Val(ShiftLeft(w, s)) + SpillUp(WordsUp(w, s / 32)[WIDTH - 1], s % 32) * Weight(WIDTH)
            == Val(WordsUp(w, s / 32)) * Pow2(s % 32)
  {
    var k, r := s / 32, s % 32;
    var u := WordsUp(w, k);
    var res := ShiftLeft(w, s);
    forall j | 0 <= j < WIDTH
      ensures res[j] == Shl32(u[j], r) + (if j > 0 then SpillUp(u[j - 1], r) else 0)
    {
      LeftShiftWordSum(w, k, r, j);
    }
    ShiftLeftPrefix(u, r, res, WIDTH);
    assert u[..WIDTH] == u && res[..WIDTH] == res;
  }

  /** RightShift leaves Val(w) / 2^s. */
  lemma ShiftRightVal(w: seq<u32>, s: nat)
    requires |w| == WIDTH
    ensures Val(ShiftRight(w, s)) == Val(w) / Pow2(s)
  {
    var k, r := s / 32, s % 32;
    ShiftRightBits(w, s);
    WordsDownVal(w, k);
    Pow2Add(32 * k, r);
    DivDiv(Val(w), Weight(k), Pow2(r));
  }

  /** The right shift by s is the word-moved value divided by 2^(s % 32). */
  lemma ShiftRightBits(w: seq<u32>, s: nat)
    requires |w| == WIDTH
    ensures Val(ShiftRight(w, s)) == Val(WordsDown(w, s / 32)) / Pow2(s % 32)
  {
    var k, r := s / 32, s % 32;
    var u := WordsDown(w, k);
    var res := ShiftRight(w, s);
    forall j | 0 <= j < WIDTH
      ensures res[j] == Shr(u[j], r) + (if j + 1 < WIDTH then SpillDown(u[j + 1], r) else 0)
    {
      RightShiftWordSum(w, k, r, j);
    }
    ShiftRightSuffix(u, r, res, 0);
    assert u[0..] == u && res[0..] == res;
  }

  /** Either shift by 256 bits or more leaves zero. */
  lemma ShiftOutAll(w: seq<u32>, s: nat)
    requires |w| == WIDTH && s >= 256
    ensures Val(ShiftLeft(w, s)) == 0 && Val(ShiftRight(w, s)) == 0
  {
    ShiftLeftVal(w, s);
    ShiftRightVal(w, s);
    assert Weight(WIDTH) == Pow2(256);
    Pow2Divides(256, s);
    MultipleOfFactor(Val(w), Pow2(256), Pow2(s - 256));
    ValBound(w);
    Pow2Le(256, s);
    ModUnique(Val(w), Pow2(s), 0, Val(w));
  }

  /** Word j of the left shift: the shifted word plus the spill of the one below, which
      share no bit. */
  lemma LeftShiftWordSum(w: seq<u32>, k: nat, r: nat, j: nat)
    requires |w| == WIDTH && r < 32 && j < WIDTH
    ensures LeftShiftWord(w, k, r, j, WIDTH) ==
              Shl32(WordsUp(w, k)[j], r) + (if j > 0 then SpillUp(WordsUp(w, k)[j - 1], r) else 0)
  {
    var u := WordsUp(w, k);
    var lo := Shl32(u[j], r);
    var hi := if j > 0 then SpillUp(u[j - 1], r) else 0;
    LeftShiftWordParts(w, k, r, j);
    assert lo % Pow2(r) == 0 by {
      SplitWord(u[j], r);
    }
    assert hi < Pow2(r) by {
      if j > 0 {
        SplitWord(u[j - 1], r);
      }
    }
    OrDisjoint(lo, hi, r);
  }

  lemma LeftShiftWordParts(w: seq<u32>, k: nat, r: nat, j: nat)
    requires |w| == WIDTH && r < 32 && j < WIDTH
    ensures LeftShiftWord(w, k, r, j, WIDTH) ==
              Or32(if j > 0 then SpillUp(WordsUp(w, k)[j - 1], r) else 0, Shl32(WordsUp(w, k)[j], r))
  {
    assert Shl32(0, r) == 0 && SpillUp(0, r) == 0;
  }

  lemma RightShiftWordParts(w: seq<u32>, k: nat, r: nat, j: nat)
    requires |w| == WIDTH && r < 32 && j < WIDTH
    ensures RightShiftWord(w, k, r, j, WIDTH) ==
              Or32(Shr(WordsDown(w, k)[j], r), if j + 1 < WIDTH then SpillDown(WordsDown(w, k)[j + 1], r) else 0)
  {
    assert Shr(0, r) == 0 && SpillDown(0, r) == 0;
  }

  /** Word j of the right shift: the shifted word plus the spill of the one above. */
  lemma RightShiftWordSum(w: seq<u32>, k: nat, r: nat, j: nat)
    requires |w| == WIDTH && r < 32 && j < WIDTH
    ensures RightShiftWord(w, k, r, j, WIDTH) ==
              Shr(WordsDown(w, k)[j], r)
              + (if j + 1 < WIDTH then SpillDown(WordsDown(w, k)[j + 1], r) else 0)
  {
    var u := WordsDown(w, k);
    var lo := Shr(u[j], r);
    var hi := if j + 1 < WIDTH then SpillDown(u[j + 1], r) else 0;
    RightShiftWordParts(w, k, r, j);
    assert lo < Pow2(32 - r) by {
      SplitWordDown(u[j], r);
    }
    assert hi % Pow2(32 - r) == 0 by {
      if j + 1 < WIDTH {
        SplitWordDown(u[j + 1], r);
      }
    }
    OrDisjoint(hi, lo, 32 - r);
  }

  /** w moved up by k words, zeros shifted in at the bottom. */
  ghost function WordsUp(w: seq<u32>, k: nat): (u: seq<u32>)
    requires |w| == WIDTH
    ensures |u| == WIDTH
  {
    seq(WIDTH, j requires 0 <= j < WIDTH => if k <= j then w[j - k] else 0)
  }

  /** w moved down by k words, zeros shifted in at the top. */
  ghost function WordsDown(w: seq<u32>, k: nat): (u: seq<u32>)
    requires |w| == WIDTH
    ensures |u| == WIDTH
  {
    seq(WIDTH, j requires 0 <= j < WIDTH => if j + k < WIDTH then w[j + k] else 0)
  }

  lemma WordsUpVal(w: seq<u32>, k: nat)
    requires |w| == WIDTH
    ensures Val(WordsUp(w, k)) == (Val(w) * Weight(k)) % Weight(WIDTH)
  {
    if k >= WIDTH {
      WordsUpAllOut(w, k);
    } else {
      WordsUpPartial(w, k);
    }
  }

  lemma WordsUpAllOut(w: seq<u32>, k: nat)
    requires |w| == WIDTH && k >= WIDTH
    ensures Val(WordsUp(w, k)) == 0 && (Val(w) * Weight(k)) % Weight(WIDTH) == 0
  {
    ValZeros(WordsUp(w, k));
    Pow2Divides(32 * WIDTH, 32 * k);
    MultipleOfFactor(Val(w), Weight(WIDTH), Pow2(32 * k - 32 * WIDTH));
  }

  lemma WordsUpPartial(w: seq<u32>, k: nat)
    requires |w| == WIDTH && k < WIDTH
    ensures Val(WordsUp(w, k)) == (Val(w) * Weight(k)) % Weight(WIDTH)
  {
    var u := WordsUp(w, k);
    var m := WIDTH - k;
    var low, high := Val(w[..m]), Val(w[m..]);
    var a, b, M := Weight(k), Weight(m), Weight(WIDTH);
    assert Val(u) == a * low by {
      ValSplit(u, k);
      ValZeros(u[..k]);
      assert u[k..] == w[..m];
    }
    assert M == a * b by {
      Pow2Add(32 * k, 32 * m);
    }
    assert low < b by {
      ValBound(w[..m]);
    }
    ValSplit(w, m);
    ShiftModUp(Val(w), low, high, a, b, M);
  }

  /** (low + b * high) * a mod a * b is a * low when low < b. */
  lemma ShiftModUp(v: nat, low: nat, high: nat, a: nat, b: nat, M: nat)
    requires a > 0 && low < b && v == low + b * high && M == a * b
    ensures (v * a) % M == a * low
  {
    MulLtMul(a, low, b);
    SplitProduct(low, high, b, a);
    ModUnique(v * a, M, high, a * low);
  }

  lemma MultipleOfFactor(v: nat, m: nat, p: nat)
    requires m > 0
    ensures (v * (m * p)) % m == 0
  {
    assert v * (m * p) == (v * p) * m;
    ModMultiple(v * p, m);
  }

  /** (low + a * high) * b == b * low + high * (b * a) */
  lemma SplitProduct(low: int, high: int, a: int, b: int)
    ensures (low + a * high) * b == b * low + high * (b * a)
  {
  }

  lemma WordsDownVal(w: seq<u32>, k: nat)
    requires |w| == WIDTH
    ensures Val(WordsDown(w, k)) == Val(w) / Weight(k)
  {
    var u := WordsDown(w, k);
    if k >= WIDTH {
      assert Val(u) == 0 by {
        ValZeros(u);
      }
      assert Val(w) / Weight(k) == 0 by {
        ValBound(w);
        Pow2Le(32 * WIDTH, 32 * k);
        ModUnique(Val(w), Weight(k), 0, Val(w));
      }
    } else {
      var m := WIDTH - k;
      assert Val(u) == Val(w[k..]) by {
        ValSplit(u, m);
        assert u[..m] == w[k..];
        ValZeros(u[m..]);
      }
      assert Val(w) / Weight(k) == Val(w[k..]) by {
        ValSplit(w, k);
        ValBound(w[..k]);
        DivOfSplit(Val(w), Val(w[..k]), Val(w[k..]), Weight(k));
      }
    }
  }

  /** x * 2^r is the part that stays in the word plus BASE times the part that spills up. */
  lemma SplitWord(x: u32, r: nat)
    requires r < 32
    ensures x * Pow2(r) == Shl32(x, r) + BASE * SpillUp(x, r)
    ensures SpillUp(x, r) < Pow2(r) && Shl32(x, r) % Pow2(r) == 0
  {
    Pow2Words();
    ShiftedLowBitsClear(x, r, 32);
    if r != 0 {
      ShiftSplit(x, r, 32);
      DivBelow(x, 32 - r, r);
    } else {
      ModUnique(x, BASE, 0, x);
    }
  }

  /** x / 2^r stays in the word, and the spill down is the low r bits of x moved to the top. */
  lemma SplitWordDown(x: u32, r: nat)
    requires r < 32
    ensures Shr(x, r) < Pow2(32 - r)
    ensures SpillDown(x, r) == (x % Pow2(r)) * Pow2(32 - r)
    ensures SpillDown(x, r) % Pow2(32 - r) == 0
  {
    Pow2Words();
    DivBelow(x, r, 32 - r);
    if r != 0 {
      Pow2Add(32 - r, r);
      ScaledSplit(x, Pow2(32 - r), Pow2(r), BASE);
      ModMultiple(x % Pow2(r), Pow2(32 - r));
    } else {
      assert x % 1 == 0;
    }
  }

  /** A value below 2^(a + b) divided by 2^a is below 2^b. */
  lemma DivBelow(x: nat, a: nat, b: nat)
    requires x < Pow2(a + b)
    ensures x / Pow2(a) < Pow2(b)
  {
    Pow2Add(a, b);
    if x / Pow2(a) >= Pow2(b) {
      assert x == (x / Pow2(a)) * Pow2(a) + x % Pow2(a);
      MulLeMul(Pow2(a), Pow2(b), x / Pow2(a));
      assert false;
    }
  }

  /** Carry-chain invariant of the left shift: the first n result words plus the spill out
      of word n-1 make the first n source words times 2^r. */
  lemma {:induction false} ShiftLeftPrefix(u: seq<u32>, r: nat, res: seq<u32>, n: nat)
    requires |u| == WIDTH && |res| == WIDTH && r < 32 && n <= WIDTH
    requires forall j {:trigger res[j]} :: 0 <= j < WIDTH ==>
               res[j] == Shl32(u[j], r) + (if j > 0 then SpillUp(u[j - 1], r) else 0)
    ensures Val(res[..n]) + (if n > 0 then SpillUp(u[n - 1], r) else 0) * Weight(n)
            == Val(u[..n]) * Pow2(r)
    decreases n
  {
    if n == 0 {
      ValEmptyPrefix(u, res, r);
    } else {
      assert res[n - 1] == Shl32(u[n - 1], r) + (if n - 1 > 0 then SpillUp(u[n - 1 - 1], r) else 0);
      ShiftLeftPrefix(u, r, res, n - 1);
      ShiftLeftPrefixNext(u, r, res, n);
    }
  }

  lemma ValEmptyPrefix(u: seq<u32>, res: seq<u32>, r: nat)
    ensures Val(res[..0]) + 0 * Weight(0) == Val(u[..0]) * Pow2(r)
  {
    assert res[..0] == [] && u[..0] == [];
  }

  /** One step of the left-shift carry chain, from the first i words to the first i + 1. */
  lemma ShiftLeftPrefixNext(u: seq<u32>, r: nat, res: seq<u32>, n: nat)
    requires |u| == WIDTH && |res| == WIDTH && r < 32 && 0 < n <= WIDTH
    requires res[n - 1] == Shl32(u[n - 1], r) + (if n - 1 > 0 then SpillUp(u[n - 1 - 1], r) else 0)
    requires Val(res[..n - 1]) + (if n - 1 > 0 then SpillUp(u[n - 1 - 1], r) else 0) * Weight(n - 1)
             == Val(u[..n - 1]) * Pow2(r)
    ensures Val(res[..n]) + (if n > 0 then SpillUp(u[n - 1], r) else 0) * Weight(n)
            == Val(u[..n]) * Pow2(r)
  {
    var i := n - 1;
    assert i + 1 == n;
    ValPrefixNext(res, i);
    ValPrefixNext(u, i);
    SplitWord(u[i], r);
    WeightNext(i);
    PrefixStep(Val(res[..i]), Val(res[..i + 1]), Val(u[..i]), Val(u[..i + 1]), res[i], u[i],
               Shl32(u[i], r), if i > 0 then SpillUp(u[i - 1], r) else 0, SpillUp(u[i], r),
               Weight(i), Weight(i + 1), Pow2(r));
  }

  /** The right shift of the words from n on is those words' value divided by 2^r. */
  lemma {:induction false} ShiftRightSuffix(u: seq<u32>, r: nat, res: seq<u32>, n: nat)
    requires |u| == WIDTH && |res| == WIDTH && r < 32 && n <= WIDTH
    requires forall j {:trigger res[j]} :: 0 <= j < WIDTH ==>
               res[j] == Shr(u[j], r) + (if j + 1 < WIDTH then SpillDown(u[j + 1], r) else 0)
    ensures Val(res[n..]) == Val(u[n..]) / Pow2(r)
    decreases WIDTH - n
  {
    if n == WIDTH {
      assert res[n..] == [] && u[n..] == [];
      ZeroMod(Pow2(r));
    } else {
      assert res[n] == Shr(u[n], r) + (if n + 1 < WIDTH then SpillDown(u[n + 1], r) else 0);
      ShiftRightSuffix(u, r, res, n + 1);
      ShiftRightSuffixNext(u, r, res, n);
    }
  }

  /** One step of the right shift, from the words above n to the words from n on. */
  lemma ShiftRightSuffixNext(u: seq<u32>, r: nat, res: seq<u32>, n: nat)
    requires |u| == WIDTH && |res| == WIDTH && r < 32 && n < WIDTH
    requires res[n] == Shr(u[n], r) + (if n + 1 < WIDTH then SpillDown(u[n + 1], r) else 0)
    requires Val(res[n + 1..]) == Val(u[n + 1..]) / Pow2(r)
    ensures Val(res[n..]) == Val(u[n..]) / Pow2(r)
  {
    ValFrom(u, n);
    ValFrom(res, n);
    SplitWordDown(u[n], r);
    if n + 1 < WIDTH {
      LowBitsOfUpper(u, r, n + 1);
      SplitWordDown(u[n + 1], r);
    } else {
      assert u[n + 1..] == [];
      ZeroMod(Pow2(r));
    }
    BaseSplit(r);
    SuffixStep(Val(res[n..]), Val(u[n..]), res[n], Val(res[n + 1..]), u[n], Val(u[n + 1..]),
               if n + 1 < WIDTH then u[n + 1] % Pow2(r) else 0,
               if n + 1 < WIDTH then SpillDown(u[n + 1], r) else 0, Pow2(r), Pow2(32 - r));
  }

  /** The low r bits of the words from n on are those of word n. */
  lemma LowBitsOfUpper(u: seq<u32>, r: nat, n: nat)
    requires r < 32 && n < |u|
    ensures Val(u[n..]) % Pow2(r) == u[n] % Pow2(r)
  {
    ValFrom(u, n);
    BaseSplit(r);
    LowBitsStep(Val(u[n..]), u[n], Val(u[n + 1..]), Pow2(r), Pow2(32 - r));
  }

  /** Adding a multiple of BASE = p * d keeps the remainder by p. */
  lemma LowBitsStep(v: nat, x: nat, above: nat, p: nat, d: nat)
    requires p > 0 && d > 0 && p * d == BASE && v == x + BASE * above
    ensures v % p == x % p
  {
    assert x + BASE * above == (above * d) * p + x;
    DivModAddMultiple(above * d, p, x);
  }

  /** Combining the carry chain with the word move: a left shift by k words and r bits. */
  lemma CombineShiftLeft(res: nat, carry: nat, U: nat, V: nat, a: nat, p: nat, M: nat, P: nat)
    requires M > 0 && res < M && res + carry * M == U * p
    requires U == (V * a) % M && P == a * p
    ensures res == (V * P) % M
  {
    ModUnique(U * p, M, carry, res);
    ModMulLeft(V * a, p, M);
    MulAssoc(V, a, p);
  }

  /** One step of the left-shift carry chain, as arithmetic on the values involved. */
  lemma PrefixStep(vr: int, vr1: int, vu: int, vu1: int, ri: int, ui: int, lo: int,
                   prev: int, spill: int, wt: int, wt1: int, p: int)
    requires vr + prev * wt == vu * p
    requires ri == lo + prev
    requires vr1 == vr + ri * wt
    requires vu1 == vu + ui * wt
    requires ui * p == lo + BASE * spill
    requires wt1 == BASE * wt
    ensures vr1 + spill * wt1 == vu1 * p
  {
    assert ri * wt == lo * wt + prev * wt;
    assert (ui * p) * wt == lo * wt + (BASE * spill) * wt;
    assert vu1 * p == vu * p + (ui * p) * wt;
  }

  /** One step of the right-shift chain, as arithmetic on the values involved:
      (x + BASE * v) / p where v % p == t. */
  lemma SuffixStep(vr: int, vu: int, ri: int, vr1: int, x: nat, v: nat, t: nat, spill: int,
                   p: nat, d: nat)
    requires p > 0 && d > 0 && p * d == BASE
    requires vu == x + BASE * v && vr == ri + BASE * vr1
    requires vr1 == v / p && v % p == t && ri == x / p + spill && spill == t * d
    ensures vr == vu / p
  {
    var q := v / p;
    assert v == q * p + t;
    assert BASE * v == (BASE * q + t * d) * p by {
      assert BASE * v == BASE * (q * p) + (p * d) * t;
    }
    DivModAddMultiple(BASE * q + t * d, p, x);
  }
}
