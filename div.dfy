/**
 * Long division of common/arith_uint256.go (`Div`, `DivU64`). The divisor is shifted left
 * until its top bit lines up with the dividend's, then, one bit position at a time from
 * there down to 0, it is subtracted from the running remainder whenever `Cmp` says it is
 * not larger, the matching quotient bit is set, and the divisor moves one bit right.
 * The subtraction is the `Sub` of AddSub, so the quotient is the true one only where that
 * `Sub` is: `DivNarrow` proves it when the divisor has at least as many bits as the
 * dividend, and `DivEightByThree` shows an input where it is not.
 */
module Div {
  import opened MathLemmas
  import opened Unsigned
  import opened Limbs
  import opened Shifts
  import opened Queries
  import opened AddSub
  import opened Construct

  /** `a.pn[shift/32] |= 1 << uint32(shift&31)`: set bit s of the quotient. */
  function SetBit(w: seq<u32>, s: nat): (r: seq<u32>)
    requires |w| == WIDTH && s < 256
    ensures |r| == WIDTH
  {
    w[s / 32 := Or32(w[s / 32], Shl32(1, BitAnd(s, 31)))]
  }

  /** The loop `for shift >= 0` of `Div` from the given remainder, shifted divisor,
      quotient so far and bit position; the quotient it leaves. */
  function DivLoop(num: seq<u32>, div: seq<u32>, res: seq<u32>, shift: int): (r: seq<u32>)
    requires |num| == WIDTH && |div| == WIDTH && |res| == WIDTH && -1 <= shift < 256
    ensures |r| == WIDTH
    decreases shift + 1
  {
    if shift < 0 then res
    else
      var geq := CmpWords(num, div, WIDTH) >= 0;
      var num1 := if geq then SubWords(num, div) else num;
      var res1 := if geq then SetBit(res, shift) else res;
      DivLoop(num1, ShiftRight(div, 1), res1, shift - 1)
  }

  /** The words `Div(b)` leaves in a: zero when b has more bits than a, the long division
      otherwise. A zero divisor panics in the source, hence the precondition. */
  function DivWords(a: seq<u32>, b: seq<u32>): (r: seq<u32>)
    requires |a| == WIDTH && |b| == WIDTH && Bits(b) > 0
    ensures |r| == WIDTH
  {
    var numBits, divBits := Bits(a), Bits(b);
    if divBits > numBits then Zeros()
    else DivLoop(a, ShiftLeft(b, numBits - divBits), Zeros(), numBits - divBits)
  }

  /** The words `DivU64(v)` leaves: `Div` by a fresh number set to v. */
  function DivU64Words(a: seq<u32>, v: u64): (r: seq<u32>)
    requires |a| == WIDTH && v > 0
    ensures |r| == WIDTH
  {
    var d := FromUint64Words(Zeros(), v);
    assert Bits(d) > 0 by {
      FromUint64Exact(Zeros(), v);
      BitsVal(d);
    }
    DivWords(a, d)
  }

  /** Setting bit s raises the value by at most 2^s. */
  lemma SetBitVal(w: seq<u32>, s: nat)
    requires |w| == WIDTH && s < 256
    ensures Val(w) <= Val(SetBit(w, s)) <= Val(w) + Pow2(s)
  {
    var k, b := s / 32, s % 32;
    assert BitAnd(s, 31) == b by {
      assert Pow2(5) == 2 * Pow2(4);
      Pow2Small();
      AndLowMask(s, 5);
    }
    ShlOne(b);
    var x := w[k];
    var y := Or32(x, Shl32(1, b));
    OrAtLeast(x, Pow2(b));
    ValUpdate(w, k, y);
    Pow2AddTo(32 * k, b, s);
    BitRaise(Val(SetBit(w, s)), Val(w), x, y, Pow2(b), Weight(k), Pow2(s));
  }

  lemma BitRaise(vv: int, vw: int, x: nat, y: nat, p: nat, wt: nat, ps: int)
    requires vv + x * wt == vw + y * wt && x <= y <= x + p && ps == wt * p
    ensures vw <= vv <= vw + ps
  {
    MulLeMul(wt, x, y);
    MulLeMul(wt, y, x + p);
  }

  /** One iteration of the loop, as an equation between its two sides. */
  lemma DivLoopNext(num: seq<u32>, div: seq<u32>, res: seq<u32>, shift: int, r: seq<u32>)
    requires |num| == WIDTH && |div| == WIDTH && |res| == WIDTH && 0 <= shift < 256
    requires r == DivLoop(num, div, res, shift)
    ensures var geq := CmpWords(num, div, WIDTH) >= 0;
            r == DivLoop(if geq then SubWords(num, div) else num, ShiftRight(div, 1),
                         if geq then SetBit(res, shift) else res, shift - 1)
  {
  }

  /** While the loop is at bit position shift, the quotient so far plus 2^(shift + 1)
      stays within 2^top; so the final quotient is below 2^top. */
  lemma {:induction false} DivLoopBound(num: seq<u32>, div: seq<u32>, res: seq<u32>,
                                        shift: int, top: nat, r: seq<u32>)
    requires |num| == WIDTH && |div| == WIDTH && |res| == WIDTH && -1 <= shift < 256
    requires r == DivLoop(num, div, res, shift)
    requires Val(res) + Pow2(shift + 1) <= Pow2(top)
    ensures Val(r) < Pow2(top)
    decreases shift + 1
  {
    if shift >= 0 {
      var geq := CmpWords(num, div, WIDTH) >= 0;
      var num1 := if geq then SubWords(num, div) else num;
      var res1 := if geq then SetBit(res, shift) else res;
      assert Val(res1) + Pow2(shift) <= Pow2(top) by {
        assert Pow2(shift + 1) == 2 * Pow2(shift);
        if geq {
          SetBitVal(res, shift);
        }
      }
      DivLoopNext(num, div, res, shift, r);
      DivLoopBound(num1, ShiftRight(div, 1), res1, shift - 1, top, r);
    }
  }

  /** The quotient has at most Bits(a) - Bits(b) + 1 bits, as the true quotient does. */
  lemma DivBound(a: seq<u32>, b: seq<u32>)
    requires |a| == WIDTH && |b| == WIDTH && 0 < Bits(b) <= Bits(a)
    ensures Val(DivWords(a, b)) < Pow2(Bits(a) - Bits(b) + 1)
  {
    var s := Bits(a) - Bits(b);
    var r := DivWords(a, b);
    ValZeros(Zeros());
    DivLoopBound(a, ShiftLeft(b, s), Zeros(), s, s + 1, r);
  }

  /** `Div` unfolded once: zero when b has more bits than a, the loop otherwise. */
  lemma DivWordsCases(a: seq<u32>, b: seq<u32>, r: seq<u32>)
    requires |a| == WIDTH && |b| == WIDTH && Bits(b) > 0 && r == DivWords(a, b)
    ensures Bits(b) > Bits(a) ==> r == Zeros()
    ensures Bits(b) <= Bits(a) ==>
              r == DivLoop(a, ShiftLeft(b, Bits(a) - Bits(b)), Zeros(), Bits(a) - Bits(b))
  {
  }

  /** A divisor with more bits than the dividend gives 0, and one with as many bits gives 1
      or 0 after a single comparison: in both cases `Div` is the floor division. */
  lemma DivNarrow(a: seq<u32>, b: seq<u32>)
    requires |a| == WIDTH && |b| == WIDTH && 0 < Bits(b) && Bits(a) <= Bits(b)
    ensures Val(b) > 0 && Val(DivWords(a, b)) == Val(a) / Val(b)
  {
    var r := DivWords(a, b);
    DivWordsCases(a, b, r);
    if Bits(b) > Bits(a) {
      DivByLonger(a, b);
      ValZeros(r);
    } else {
      var s := Bits(a) - Bits(b);
      DivBySameLength(a, b, s, ShiftLeft(b, s), r);
    }
  }

  lemma DivByLonger(a: seq<u32>, b: seq<u32>)
    requires |a| == WIDTH && |b| == WIDTH && Bits(a) < Bits(b)
    ensures Val(b) > 0 && Val(a) / Val(b) == 0
  {
    BitsVal(a);
    BitsVal(b);
    BelowTopBit(Bits(a), Bits(b), Val(a), Val(b));
  }

  lemma BelowTopBit(na: nat, nb: nat, va: nat, vb: nat)
    requires na < nb && (na == 0 ==> va == 0) && (na > 0 ==> va < Pow2(na))
    requires Pow2(nb - 1) <= vb
    ensures vb > 0 && va / vb == 0
  {
    Pow2Le(na, nb - 1);
    ModUnique(va, vb, 0, va);
  }

  lemma DivBySameLength(a: seq<u32>, b: seq<u32>, s: int, u: seq<u32>, r: seq<u32>)
    requires |a| == WIDTH && |b| == WIDTH && 0 < Bits(b) && Bits(a) == Bits(b)
    requires s == 0 && u == ShiftLeft(b, s) && r == DivLoop(a, u, Zeros(), s)
    ensures Val(b) > 0 && Val(r) == Val(a) / Val(b)
  {
    assert Val(u) == Val(b) by {
      ShiftLeftNone(b, s, u);
    }
    var q := DivFirstStep(a, u, Zeros(), s, r);
    BitsVal(a);
    BitsVal(b);
    var n := Bits(a);
    assert Pow2(n) == 2 * Pow2(n - 1);
    QuotientBit(Val(a), Val(b), Pow2(n - 1), q);
  }

  /** A shift by 0 keeps the value. */
  lemma ShiftLeftNone(b: seq<u32>, s: nat, u: seq<u32>)
    requires |b| == WIDTH && s == 0 && u == ShiftLeft(b, s)
    ensures Val(u) == Val(b)
  {
    ShiftLeftVal(b, s);
    ValBound(b);
    assert Pow2(s) == 1;
    ModSmall(Val(b), Pow2(s), Weight(WIDTH));
  }

  /** The loop's last iteration, at bit position 0: bit 0 is set when `Cmp` allows it. */
  lemma DivLoopLast(num: seq<u32>, div: seq<u32>, res: seq<u32>, s: int, r: seq<u32>)
    requires |num| == WIDTH && |div| == WIDTH && |res| == WIDTH && s == 0
    requires r == DivLoop(num, div, res, s)
    ensures r == if CmpWords(num, div, WIDTH) >= 0 then SetBit(res, s) else res
  {
    DivLoopNext(num, div, res, s, r);
  }

  /** The loop at bit position 0 sets bit 0 exactly when a is at least the divisor. */
  lemma DivFirstStep(a: seq<u32>, u: seq<u32>, z: seq<u32>, s: int, r: seq<u32>) returns (q: nat)
    requires |a| == WIDTH && |u| == WIDTH && z == Zeros() && s == 0
    requires r == DivLoop(a, u, z, s)
    ensures q == (if Val(a) >= Val(u) then 1 else 0) && Val(r) == q
  {
    var geq := CmpWords(a, u, WIDTH) >= 0;
    assert geq <==> Val(a) >= Val(u) by {
      CmpWordsVal(a, u, WIDTH);
      assert a[..WIDTH] == a && u[..WIDTH] == u;
    }
    DivLoopLast(a, u, z, s, r);
    if geq {
      assert r == SetBit(z, s);
      SetBitZero(z, s);
      q := 1;
    } else {
      ValZeros(r);
      q := 0;
    }
  }

  /** Bit 0 set in zero gives one. */
  lemma SetBitZero(z: seq<u32>, s: nat)
    requires z == Zeros() && s == 0
    ensures Val(SetBit(z, s)) == 1
  {
    var t := SetBit(z, s);
    assert t == z[0 := 1] by {
      assert Shl32(1, BitAnd(s, 31)) == 1;
      assert Or32(0, 1) == 1;
    }
    ValUpdate(z, 0, 1);
    ValZeros(z);
  }

  lemma QuotientZero(va: nat, pa: nat, pb: nat, vb: nat)
    requires va < pa <= pb <= vb
    ensures vb > 0 && va / vb == 0
  {
    ModUnique(va, vb, 0, va);
  }

  lemma ModSmall(v: nat, one: nat, m: nat)
    requires one == 1 && v < m
    ensures (v * one) % m == v
  {
    ModUnique(v, m, 0, v);
  }

  /** Two numbers with the same top bit p: the quotient is 1 or 0. */
  lemma QuotientBit(va: nat, vb: nat, p: nat, q: nat)
    requires 0 < p <= va < 2 * p && p <= vb < 2 * p
    requires q == (if va >= vb then 1 else 0)
    ensures va / vb == q
  {
    ModUnique(va, vb, q, va - q * vb);
  }

  /** An iteration where `Cmp` finds the remainder below the divisor: nothing is set. */
  lemma DivLoopSkip(num: seq<u32>, div: seq<u32>, res: seq<u32>, s: int, r: seq<u32>)
    requires |num| == WIDTH && |div| == WIDTH && |res| == WIDTH && 0 <= s < 256
    requires r == DivLoop(num, div, res, s) && CmpWords(num, div, WIDTH) < 0
    ensures r == DivLoop(num, ShiftRight(div, 1), res, s - 1)
  {
    DivLoopNext(num, div, res, s, r);
  }

  /** An iteration where `Cmp` finds the remainder at least the divisor: `Sub` and set. */
  lemma DivLoopTake(num: seq<u32>, div: seq<u32>, res: seq<u32>, s: int, r: seq<u32>)
    requires |num| == WIDTH && |div| == WIDTH && |res| == WIDTH && 0 <= s < 256
    requires r == DivLoop(num, div, res, s) && CmpWords(num, div, WIDTH) >= 0
    ensures r == DivLoop(SubWords(num, div), ShiftRight(div, 1), SetBit(res, s), s - 1)
  {
    DivLoopNext(num, div, res, s, r);
  }

  /** `Cmp` by value. */
  lemma CmpVal(a: seq<u32>, b: seq<u32>)
    requires |a| == WIDTH && |b| == WIDTH
    ensures CmpWords(a, b, WIDTH) >= 0 <==> Val(a) >= Val(b)
  {
    CmpWordsVal(a, b, WIDTH);
    assert a[..WIDTH] == a && b[..WIDTH] == b;
  }

  /** A number is its word 0 when the other words are 0, and the other way round. */
  lemma OneWord(w: seq<u32>, x: u32)
    requires |w| == WIDTH
    ensures Val(w) == x <==> w == [x, 0, 0, 0, 0, 0, 0, 0]
  {
    var u: seq<u32> := [x, 0, 0, 0, 0, 0, 0, 0];
    ValLowWords(u);
    if Val(w) == x {
      ValInjective(w, u);
    }
  }

  /** The bit count of a number whose top bit is bit n - 1. */
  lemma BitsOf(w: seq<u32>, n: nat)
    requires |w| == WIDTH && 0 < n && Pow2(n - 1) <= Val(w) < Pow2(n)
    ensures Bits(w) == n
  {
    BitsVal(w);
    TopBitUnique(Bits(w), n, Val(w));
  }

  lemma TopBitUnique(e: nat, n: nat, v: nat)
    requires 0 < e && Pow2(e - 1) <= v < Pow2(e)
    requires 0 < n && Pow2(n - 1) <= v < Pow2(n)
    ensures e == n
  {
    if e < n {
      Pow2Le(e, n - 1);
    } else if e > n {
      Pow2Le(n, e - 1);
    }
  }

  /** `Cmp` decides on word 7 when the two differ there. */
  lemma CmpTop(a: seq<u32>, b: seq<u32>)
    requires |a| == WIDTH && |b| == WIDTH && a[WIDTH - 1] > b[WIDTH - 1]
    ensures CmpWords(a, b, WIDTH) == 1
  {
  }

  /** `Div` as written is not floor division: 8 divided by 3 leaves 3, because the second
      subtraction works on the remainder 8 - 6 that `Sub` got wrong in words 1 to 7. */
  lemma DivEightByThree()
    ensures Val(DivU64Words(FromUint64Words(Zeros(), 8), 3)) == 3
    ensures 8 / 3 == 2
  {
    var a := FromUint64Words(Zeros(), 8);
    var d := FromUint64Words(Zeros(), 3);
    FromWord(8, a);
    FromWord(3, d);
    DivEightByThreeWords(a, d, DivU64Words(a, 3));
  }

  lemma DivEightByThreeWords(a: seq<u32>, d: seq<u32>, r: seq<u32>)
    requires a == [8, 0, 0, 0, 0, 0, 0, 0] && d == [3, 0, 0, 0, 0, 0, 0, 0]
    requires Bits(d) > 0 && r == DivWords(a, d)
    ensures Val(r) == 3
  {
    assert Bits(a) == 4 && Bits(d) == 2 by {
      OneWord(a, 8);
      OneWord(d, 3);
      Pow2Small();
      BitsOf(a, 4);
      BitsOf(d, 2);
    }
    DivWordsCases(a, d, r);
    var u := ShiftLeft(d, 2);
    ShiftThreeByTwo(d, 2, u);
    assert CmpWords(a, u, WIDTH) < 0 by {
      OneWord(a, 8);
      CmpVal(a, u);
    }
    DivLoopSkip(a, u, Zeros(), 2, r);
    var d6 := ShiftRight(u, 1);
    assert Val(d6) == 6 by {
      ShiftRightVal(u, 1);
    }
    DivEightByThreeTail(a, d6, r);
  }

  /** `FromUint64` of a fresh number with a value below 2^32. */
  lemma FromWord(v: u64, r: seq<u32>)
    requires v < BASE && r == FromUint64Words(Zeros(), v)
    ensures r == [v, 0, 0, 0, 0, 0, 0, 0]
  {
    Low64Words(v);
    ModUnique(v, BASE, 0, v);
  }

  lemma ShiftThreeByTwo(d: seq<u32>, s: nat, u: seq<u32>)
    requires d == [3, 0, 0, 0, 0, 0, 0, 0] && s == 2 && u == ShiftLeft(d, s)
    ensures Val(u) == 12
  {
    OneWord(d, 3);
    ShiftLeftVal(d, s);
    Pow2Small();
    assert Pow2(4) <= Weight(WIDTH) by {
      Pow2Le(4, 32 * WIDTH);
    }
    ModUnique(12, Weight(WIDTH), 0, 12);
  }

  /** The last two iterations, from the divisor 6 at bit position 1. */
  lemma DivEightByThreeTail(a: seq<u32>, d6: seq<u32>, r: seq<u32>)
    requires a == [8, 0, 0, 0, 0, 0, 0, 0] && |d6| == WIDTH && Val(d6) == 6
    requires r == DivLoop(a, d6, Zeros(), 1)
    ensures Val(r) == 3
  {
    assert d6 == [6, 0, 0, 0, 0, 0, 0, 0] && CmpWords(a, d6, WIDTH) >= 0 by {
      OneWord(a, 8);
      OneWord(d6, 6);
      CmpVal(a, d6);
    }
    DivLoopTake(a, d6, Zeros(), 1, r);
    var num := SubWords(a, d6);
    SubTopWord(a, d6, num);
    var d3 := ShiftRight(d6, 1);
    HalveVal(d6, 1, d3);
    OneWord(d3, 3);
    CmpTop(num, d3);
    var res := SetBit(Zeros(), 1);
    SetBitTwo(Zeros(), 1, res);
    DivLoopTake(num, d3, res, 0, r);
    SetBitThree(res, 0, r);
    OneWord(r, 3);
  }

  /** With both top words 0 and b's word 0 nonzero, `Sub` fills the top word with ones. */
  lemma SubTopWord(a: seq<u32>, b: seq<u32>, r: seq<u32>)
    requires |a| == WIDTH && |b| == WIDTH && b[0] != 0 && r == SubWords(a, b)
    requires a[WIDTH - 1] == 0 && b[WIDTH - 1] == 0
    ensures r[WIDTH - 1] == MAX32
  {
    SubLanes(a, b);
  }

  lemma HalveVal(w: seq<u32>, s: nat, r: seq<u32>)
    requires |w| == WIDTH && s == 1 && r == ShiftRight(w, s)
    ensures Val(r) == Val(w) / 2
  {
    ShiftRightVal(w, s);
  }

  lemma SetBitTwo(z: seq<u32>, s: nat, r: seq<u32>)
    requires z == Zeros() && s == 1 && r == SetBit(z, s)
    ensures r == [2, 0, 0, 0, 0, 0, 0, 0]
  {
    assert BitAnd(s, 31) == 1;
    assert Shl32(1, 1) == 2;
    assert BitOr(0, 2) == 2;
  }

  lemma SetBitThree(w: seq<u32>, s: nat, r: seq<u32>)
    requires w == [2, 0, 0, 0, 0, 0, 0, 0] && s == 0 && r == SetBit(w, s)
    ensures r == [3, 0, 0, 0, 0, 0, 0, 0]
  {
    assert BitAnd(s, 31) == 0;
    assert Shl32(1, 0) == 1;
    assert BitOr(2, 1) == 3 by {
      OrDisjoint(2, 1, 1);
    }
  }
}
