/**
 * The word-by-word logical operations of the 256-bit number (common/arith_uint256.go):
 * `Not` (complement of every word), `And`, `Or` and `Xor` (the operator applied to each
 * pair of words at the same index). No bit crosses a word boundary.
 */
module Wordwise {
  import opened MathLemmas
  import opened Unsigned
  import opened Limbs

  /** The words of `Not`: `^a.pn[i]` for every i. */
  function NotWords(a: seq<u32>): (r: seq<u32>)
    requires |a| == WIDTH
    ensures |r| == WIDTH
  {
    seq(WIDTH, i requires 0 <= i < WIDTH => Not32(a[i]))
  }

  /** The words `And` leaves: `a.pn[i] & b.pn[i]`. */
  function AndWords(a: seq<u32>, b: seq<u32>): (r: seq<u32>)
    requires |a| == WIDTH && |b| == WIDTH
    ensures |r| == WIDTH
  {
    seq(WIDTH, i requires 0 <= i < WIDTH => And32(a[i], b[i]))
  }

  /** The words `Or` leaves: `a.pn[i] | b.pn[i]`. */
  function OrWords(a: seq<u32>, b: seq<u32>): (r: seq<u32>)
    requires |a| == WIDTH && |b| == WIDTH
    ensures |r| == WIDTH
  {
    seq(WIDTH, i requires 0 <= i < WIDTH => Or32(a[i], b[i]))
  }

  /** The words `Xor` leaves: `a.pn[i] ^ b.pn[i]`. */
  function XorWords(a: seq<u32>, b: seq<u32>): (r: seq<u32>)
    requires |a| == WIDTH && |b| == WIDTH
    ensures |r| == WIDTH
  {
    seq(WIDTH, i requires 0 <= i < WIDTH => Xor32(a[i], b[i]))
  }

  /** `Not` is the 256-bit one's complement: Val(Not(a)) == 2^256 - 1 - Val(a). */
  lemma NotWordsVal(a: seq<u32>)
    requires |a| == WIDTH
    ensures Val(NotWords(a)) == Weight(WIDTH) - 1 - Val(a)
  {
    var r := NotWords(a);
    forall i | 0 <= i < WIDTH
      ensures r[i] == MAX32 - a[i]
    {
      NotIsComplement(a[i]);
    }
    ValComplement(a, r);
  }

  /** Words that complement those of a within 32 bits complement Val(a) within |a| words. */
  lemma {:induction false} ValComplement(a: seq<u32>, r: seq<u32>)
    requires |r| == |a|
    requires forall i :: 0 <= i < |a| ==> r[i] == MAX32 - a[i]
    ensures Val(r) == Weight(|a|) - 1 - Val(a)
    decreases |a|
  {
    if a == [] {
      assert Weight(0) == 1;
    } else {
      ValComplement(a[1..], r[1..]);
      WeightNext(|a| - 1);
      ComplementStep(Val(r), Val(a), r[0], a[0], Val(r[1..]), Val(a[1..]),
                     Weight(|a| - 1), Weight(|a|));
    }
  }

  lemma ComplementStep(vr: int, va: int, r0: int, a0: int, rr: int, ra: int, wt: int, wt1: int)
    requires vr == r0 + BASE * rr && va == a0 + BASE * ra
    requires r0 == MAX32 - a0 && rr == wt - 1 - ra && wt1 == BASE * wt
    ensures vr == wt1 - 1 - va
  {
    assert BASE * rr == BASE * wt - BASE - BASE * ra;
  }

  /** Complementing twice restores every word. */
  lemma NotNot(a: seq<u32>)
    requires |a| == WIDTH
    ensures NotWords(NotWords(a)) == a
  {
    forall i | 0 <= i < WIDTH
      ensures NotWords(NotWords(a))[i] == a[i]
    {
      NotIsComplement(a[i]);
      NotIsComplement(Not32(a[i]));
    }
  }

  /** Xor with b twice restores a, so `Xor` by a fixed b is its own inverse. */
  lemma XorInverse(a: seq<u32>, b: seq<u32>)
    requires |a| == WIDTH && |b| == WIDTH
    ensures XorWords(XorWords(a, b), b) == a
  {
    forall i | 0 <= i < WIDTH
      ensures XorWords(XorWords(a, b), b)[i] == a[i]
    {
      XorTwice(a[i], b[i]);
    }
  }

  /** Xor of two numbers is zero exactly when they are equal. */
  lemma XorZero(a: seq<u32>, b: seq<u32>)
    requires |a| == WIDTH && |b| == WIDTH
    ensures XorWords(a, b) == Zeros() <==> a == b
  {
    if a == b {
      forall i | 0 <= i < WIDTH
        ensures XorWords(a, b)[i] == 0
      {
        XorSelf(a[i]);
      }
    }
    if XorWords(a, b) == Zeros() {
      forall i | 0 <= i < WIDTH
        ensures a[i] == b[i]
      {
        assert XorWords(a, b)[i] == 0;
        XorZeroEqual(a[i], b[i]);
      }
    }
  }

  /** `And` and `Or` of a number with itself leave it unchanged. */
  lemma AndOrIdempotent(a: seq<u32>)
    requires |a| == WIDTH
    ensures AndWords(a, a) == a && OrWords(a, a) == a
  {
    forall i | 0 <= i < WIDTH
      ensures AndWords(a, a)[i] == a[i] && OrWords(a, a)[i] == a[i]
    {
      OrAndIdempotent(a[i]);
    }
  }

  /** `And` never exceeds either operand and `Or` is never below either operand. */
  lemma AndOrBounds(a: seq<u32>, b: seq<u32>)
    requires |a| == WIDTH && |b| == WIDTH
    ensures Val(AndWords(a, b)) <= Val(a) && Val(AndWords(a, b)) <= Val(b)
    ensures Val(a) <= Val(OrWords(a, b)) && Val(b) <= Val(OrWords(a, b))
  {
    var x, o := AndWords(a, b), OrWords(a, b);
    forall i | 0 <= i < WIDTH
      ensures x[i] <= a[i] && x[i] <= b[i] && a[i] <= o[i] && b[i] <= o[i]
    {
      OrAtLeast(a[i], b[i]);
    }
    ValMono(x, a);
    ValMono(x, b);
    ValMono(a, o);
    ValMono(b, o);
  }

  /** Words that are each at most those of v give a value at most Val(v). */
  lemma {:induction false} ValMono(u: seq<u32>, v: seq<u32>)
    requires |u| == |v|
    requires forall i :: 0 <= i < |u| ==> u[i] <= v[i]
    ensures Val(u) <= Val(v)
    decreases |u|
  {
    if u != [] {
      ValMono(u[1..], v[1..]);
      MulLeMul(BASE, Val(u[1..]), Val(v[1..]));
    }
  }
}
