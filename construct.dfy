/**
 * `FromUint64` (common/arith_uint256.go): word 0 gets the low 32 bits of v, word 1 the
 * high 32 bits, and the loop clears words 2 to 6 only (its bound is `i < 7`), so word 7
 * keeps whatever it held.
 */
module Construct {
  import opened MathLemmas
  import opened Unsigned
  import opened Limbs

  /** The words `FromUint64(v)` leaves in a number whose words were w. */
  function FromUint64Words(w: seq<u32>, v: u64): (r: seq<u32>)
    requires |w| == WIDTH
    ensures |r| == WIDTH
  {
    [v % BASE, Shr(v, 32) % BASE, 0, 0, 0, 0, 0, w[7]]
  }

  /** `FromUint64(v)` sets the number to v plus the stale word 7 at its weight 2^224. */
  lemma FromUint64Val(w: seq<u32>, v: u64)
    requires |w| == WIDTH
    ensures Val(FromUint64Words(w, v)) == v + w[7] * Weight(WIDTH - 1)
  {
    var r := FromUint64Words(w, v);
    var top := WIDTH - 1;
    Low64Words(v);
    ValSplit(r, top);
    ValLowWords(r[..top]);
    ValFrom(r, top);
    assert r[top + 1..] == [];
    JoinTop(Val(r), Val(r[..top]), Val(r[top..]), Val(r[top + 1..]), r[top], Weight(top));
  }

  lemma JoinTop(vr: int, lo: int, hi: int, rest: int, t: int, wt: int)
    requires vr == lo + wt * hi && hi == t + BASE * rest && rest == 0
    ensures vr == lo + t * wt
  {
  }

  /** Words of which only the first two may be nonzero. */
  lemma ValLowWords(u: seq<u32>)
    requires |u| >= 2 && forall i :: 2 <= i < |u| ==> u[i] == 0
    ensures Val(u) == u[0] + BASE * u[1]
  {
    ValFrom(u, 0);
    ValFrom(u, 1);
    ValZeros(u[2..]);
    assert u[0..] == u;
  }

  /** A uint64 is its low word plus 2^32 times its high word, both below 2^32. */
  lemma Low64Words(v: u64)
    ensures Shr(v, 32) % BASE == v / BASE
    ensures v == v % BASE + BASE * (Shr(v, 32) % BASE)
  {
    Pow2Words();
    var hi := v / BASE;
    assert hi < BASE;
    ModUnique(hi, BASE, 0, hi);
  }

  /** When word 7 is 0 on entry, `FromUint64(v)` leaves exactly v. */
  lemma FromUint64Exact(w: seq<u32>, v: u64)
    requires |w| == WIDTH && w[7] == 0
    ensures Val(FromUint64Words(w, v)) == v
  {
    FromUint64Val(w, v);
  }
}
