/**
 * Go's fixed-width unsigned integers and the operators the 256-bit type uses on them.
 * A value of Go type uint32 is an int in [0, 2^32); `&`, `|` and `^` work bit by bit
 * from the least significant bit, `<<` drops the bits shifted past the width and `>>`
 * divides by a power of two.
 */
module Unsigned {
  import opened MathLemmas

  /** 2^32, the radix of one word. */
  const BASE: nat := 0x1_0000_0000
  const MAX32: nat := 0xffff_ffff
  const BASE64: nat := 0x1_0000_0000_0000_0000

  type u8 = x: nat | x < 0x100
  type u32 = x: nat | x < 0x1_0000_0000
  type u64 = x: nat | x < 0x1_0000_0000_0000_0000

  /** `x & y` */
  function BitAnd(x: nat, y: nat): (r: nat)
    ensures r <= x && r <= y
  {
    if x == 0 || y == 0 then 0
    else 2 * BitAnd(x / 2, y / 2) + (if x % 2 == 1 && y % 2 == 1 then 1 else 0)
  }

  /** `x | y` */
  function BitOr(x: nat, y: nat): (r: nat)
    ensures r <= x + y
    decreases x + y
  {
    if x == 0 then y
    else if y == 0 then x
    else 2 * BitOr(x / 2, y / 2) + (if x % 2 == 1 || y % 2 == 1 then 1 else 0)
  }

  /** `x ^ y` */
  function BitXor(x: nat, y: nat): (r: nat)
    decreases x + y
  {
    if x == 0 then y
    else if y == 0 then x
    else 2 * BitXor(x / 2, y / 2) + (x % 2 + y % 2) % 2
  }

  /** `x << s` on a uint32: bits shifted past bit 31 are lost. */
  function Shl32(x: u32, s: nat): u32
  {
    (x * Pow2(s)) % BASE
  }

  /** `x << s` on a uint64. */
  function Shl64(x: u64, s: nat): u64
  {
    (x * Pow2(s)) % BASE64
  }

  /** `x >> s` on an unsigned integer of any width. */
  function Shr(x: nat, s: nat): (r: nat)
    ensures r <= x
  {
    var d := Pow2(s);
    DivBounds(x, d);
    x / d
  }

  function Or32(x: u32, y: u32): u32
  {
    Pow2Words();
    OrXorBound(x, y, 32);
    BitOr(x, y)
  }

  function Xor32(x: u32, y: u32): u32
  {
    Pow2Words();
    OrXorBound(x, y, 32);
    BitXor(x, y)
  }

  function And32(x: u32, y: u32): u32
  {
    BitAnd(x, y)
  }

  /** `^x` on a uint32: complement of every bit. */
  function Not32(x: u32): u32
  {
    Xor32(x, MAX32)
  }

  /** A word splits at bit r into r low bits and 32 - r high bits. */
  lemma BaseSplit(r: nat)
    requires r <= 32
    ensures Pow2(r) * Pow2(32 - r) == BASE
  {
    Pow2Add(r, 32 - r);
    Pow2Words();
  }

  /** `1 << k` on a uint32, for k < 32, is 2^k. */
  lemma ShlOne(k: nat)
    requires k < 32
    ensures Shl32(1, k) == Pow2(k)
  {
    Pow2Strict(k, 32);
    Pow2Words();
    ModUnique(Pow2(k), BASE, 0, Pow2(k));
  }

  /** Neither `|` nor `^` sets a bit above the width of its operands. */
  lemma {:induction false} OrXorBound(x: nat, y: nat, n: nat)
    requires x < Pow2(n) && y < Pow2(n)
    ensures BitOr(x, y) < Pow2(n) && BitXor(x, y) < Pow2(n)
    decreases n
  {
    if x != 0 && y != 0 {
      OrXorBound(x / 2, y / 2, n - 1);
    }
  }

  /** x and y have no common set bit when the low r bits of x are clear and y < 2^r:
      then `x | y` and `y | x` are the sum. */
  lemma {:induction false} OrDisjoint(x: nat, y: nat, r: nat)
    requires x % Pow2(r) == 0 && y < Pow2(r)
    ensures BitOr(x, y) == x + y && BitOr(y, x) == x + y
    decreases r
  {
    if x != 0 && y != 0 {
      DivDiv(x, 2, Pow2(r - 1));
      OrDisjoint(x / 2, y / 2, r - 1);
    }
  }

  /** `x | y` keeps every bit of both operands, so it is at least each of them. */
  lemma {:induction false} OrAtLeast(x: nat, y: nat)
    ensures x <= BitOr(x, y) && y <= BitOr(x, y)
    decreases x + y
  {
    if x != 0 && y != 0 {
      OrAtLeast(x / 2, y / 2);
    }
  }

  /** Testing bit k with `x & (1 << k)`. */
  lemma {:induction false} AndBit(x: nat, k: nat)
    ensures BitAnd(x, Pow2(k)) == Pow2(k) * ((x / Pow2(k)) % 2)
    decreases k
  {
    if x == 0 {
      assert 0 / Pow2(k) == 0;
    } else if k == 0 {
      assert BitAnd(x / 2, 0) == 0;
    } else {
      AndBit(x / 2, k - 1);
      DivDiv(x, 2, Pow2(k - 1));
      MulAssoc(2, Pow2(k - 1), (x / Pow2(k)) % 2);
    }
  }

  /** `x & (2^n - 1)` keeps the low n bits. */
  lemma {:induction false} AndLowMask(x: nat, n: nat)
    ensures BitAnd(x, Pow2(n) - 1) == x % Pow2(n)
    decreases n
  {
    if n == 0 {
      assert x % 1 == 0;
    } else if x == 0 {
      ZeroMod(Pow2(n));
    } else {
      var p := Pow2(n - 1);
      assert Pow2(n) == 2 * p;
      HalfMask(p);
      AndLowMask(x / 2, n - 1);
      DivDiv(x, 2, p);
      assert BitAnd(x, 2 * p - 1) == 2 * BitAnd(x / 2, p - 1) + (if x % 2 == 1 then 1 else 0);
    }
  }

  lemma HalfMask(p: nat)
    requires p >= 1
    ensures (2 * p - 1) / 2 == p - 1 && (2 * p - 1) % 2 == 1
  {
    ModUnique(2 * p - 1, 2, p - 1, 1);
  }

  /** Exclusive or with n one-bits complements an n-bit value. */
  lemma {:induction false} XorAllOnes(x: nat, n: nat)
    requires x < Pow2(n)
    ensures BitXor(x, Pow2(n) - 1) == Pow2(n) - 1 - x
    decreases n
  {
    if n > 0 && x != 0 {
      var p := Pow2(n - 1);
      assert Pow2(n) == 2 * p;
      HalfMask(p);
      assert x / 2 < p;
      XorAllOnes(x / 2, n - 1);
      assert BitXor(x, 2 * p - 1) == 2 * BitXor(x / 2, p - 1) + (x % 2 + 1) % 2;
    }
  }

  /** `^x` on a uint32 is 2^32 - 1 - x. */
  lemma NotIsComplement(x: u32)
    ensures Not32(x) == MAX32 - x
  {
    Pow2Words();
    XorAllOnes(x, 32);
  }

  /** Applying `^ y` twice restores the original value. */
  lemma {:induction false} XorTwice(x: nat, y: nat)
    ensures BitXor(BitXor(x, y), y) == x
    decreases x + y
  {
    if x != 0 && y != 0 {
      var z := BitXor(x, y);
      if z == 0 {
        XorZeroEqual(x, y);
      } else {
        var h, xb, yb := BitXor(x / 2, y / 2), x % 2, y % 2;
        var b := (xb + yb) % 2;
        assert z == 2 * h + b;
        ModUnique(z, 2, h, b);
        XorTwice(x / 2, y / 2);
        assert BitXor(z, y) == 2 * BitXor(h, y / 2) + (b + yb) % 2;
        assert (b + yb) % 2 == xb by {
          assert xb == 0 || xb == 1;
          assert yb == 0 || yb == 1;
        }
      }
    } else if x == 0 {
      XorSelf(y);
    }
  }

  lemma {:induction false} XorSelf(y: nat)
    ensures BitXor(y, y) == 0
    decreases y
  {
    if y != 0 {
      XorSelf(y / 2);
    }
  }

  lemma {:induction false} XorZeroEqual(x: nat, y: nat)
    requires BitXor(x, y) == 0
    ensures x == y
    decreases x + y
  {
    if x != 0 && y != 0 {
      XorZeroEqual(x / 2, y / 2);
    }
  }

  /** `x | x == x` and `x & x == x`. */
  lemma {:induction false} OrAndIdempotent(x: nat)
    ensures BitOr(x, x) == x && BitAnd(x, x) == x
    decreases x
  {
    if x != 0 {
      OrAndIdempotent(x / 2);
    }
  }

  /** The 64-bit value `uint64(lo) | uint64(hi) << 32` is lo + hi * 2^32. */
  lemma Join64(lo: u32, hi: u32)
    ensures BitOr(lo, Shl64(hi, 32)) == lo + hi * BASE
  {
    Pow2Words();
    assert hi * BASE < BASE64 by {
      MulLeMul(BASE, hi, MAX32);
    }
    ModUnique(hi * BASE, BASE64, 0, hi * BASE);
    ModMultiple(hi, BASE);
    OrDisjoint(hi * BASE, lo, 32);
  }
}
