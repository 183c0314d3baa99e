/**
 * The value of a little-endian sequence of 32-bit words: word 0 is the least significant,
 * Val(w) = sum of w[i] * 2^(32 * i). A 256-bit number is 8 such words.
 */
module Limbs {
  import opened MathLemmas
  import opened Unsigned

  /** Number of 32-bit words in a 256-bit number. */
  const WIDTH: nat := 8

  /** Eight zero words. */
  function Zeros(): (z: seq<u32>)
    ensures |z| == WIDTH && forall i :: 0 <= i < WIDTH ==> z[i] == 0
  {
    [0, 0, 0, 0, 0, 0, 0, 0]
  }

  ghost function Val(w: seq<u32>): nat
  {
    if w == [] then 0 else w[0] + BASE * Val(w[1..])
  }

  /** 2^(32 * i), the weight of word i. */
  ghost function Weight(i: nat): nat
  {
    Pow2(32 * i)
  }

  lemma WeightNext(i: nat)
    ensures Weight(i + 1) == BASE * Weight(i)
  {
    Pow2Add(32, 32 * i);
    Pow2Words();
  }

  lemma {:induction false} ValBound(w: seq<u32>)
    ensures Val(w) < Weight(|w|)
    decreases |w|
  {
    if w != [] {
      ValBound(w[1..]);
      WeightNext(|w| - 1);
      MulLeMul(BASE, Val(w[1..]), Weight(|w| - 1) - 1);
    } else {
      assert Weight(0) == 1;
    }
  }

  lemma {:induction false} ValAppend(u: seq<u32>, v: seq<u32>)
    ensures Val(u + v) == Val(u) + Weight(|u|) * Val(v)
    decreases |u|
  {
    if u == [] {
      assert u + v == v;
      assert Weight(0) == 1;
    } else {
      assert (u + v)[1..] == u[1..] + v;
      ValAppend(u[1..], v);
      WeightNext(|u| - 1);
      MulAssoc(BASE, Weight(|u| - 1), Val(v));
    }
  }

  /** The words from n on: word n plus BASE times the words above it. */
  lemma ValFrom(w: seq<u32>, n: nat)
    requires n < |w|
    ensures Val(w[n..]) == w[n] + BASE * Val(w[n + 1..])
  {
    assert w[n..][1..] == w[n + 1..];
  }

  /** Val of the first i + 1 words adds word i at weight 2^(32 * i). */
  lemma ValPrefixNext(w: seq<u32>, i: nat)
    requires i < |w|
    ensures Val(w[..i + 1]) == Val(w[..i]) + w[i] * Weight(i)
  {
    assert w[..i + 1] == w[..i] + [w[i]];
    ValAppend(w[..i], [w[i]]);
    assert Val([w[i]]) == w[i] by {
      assert [w[i]][1..] == [];
    }
  }

  /** ValPrefixNext stated for the first n words. */
  lemma ValPrefixTo(w: seq<u32>, n: nat)
    requires 0 < n <= |w|
    ensures Val(w[..n]) == Val(w[..n - 1]) + w[n - 1] * Weight(n - 1)
  {
    ValPrefixNext(w, n - 1);
  }

  lemma ValSplit(w: seq<u32>, i: nat)
    requires i <= |w|
    ensures Val(w) == Val(w[..i]) + Weight(i) * Val(w[i..])
  {
    assert w == w[..i] + w[i..];
    ValAppend(w[..i], w[i..]);
  }

  /** Replacing word i changes the value by the difference at weight 2^(32 * i). */
  lemma ValUpdate(w: seq<u32>, i: nat, x: u32)
    requires i < |w|
    ensures Val(w[i := x]) + w[i] * Weight(i) == Val(w) + x * Weight(i)
  {
    var v := w[i := x];
    ValSplit(w, i);
    ValSplit(v, i);
    assert v[..i] == w[..i];
    var rest := Val(w[i + 1..]);
    assert Val(v[i..]) == x + BASE * rest by {
      assert v[i..][1..] == w[i + 1..];
    }
    assert Val(w[i..]) == w[i] + BASE * rest by {
      assert w[i..][1..] == w[i + 1..];
    }
    UpdateStep(Val(v), Val(w), Val(w[..i]), Weight(i), x, w[i], BASE * rest);
  }

  lemma UpdateStep(vv: int, vw: int, low: int, wt: int, x: int, y: int, rest: int)
    requires vv == low + wt * (x + rest) && vw == low + wt * (y + rest)
    ensures vv + y * wt == vw + x * wt
  {
    assert wt * (x + rest) == wt * x + wt * rest;
    assert wt * (y + rest) == wt * y + wt * rest;
  }

  /** The low word and the remaining words are the remainder and quotient by 2^32. */
  lemma ValDivMod(w: seq<u32>)
    requires w != []
    ensures Val(w) % BASE == w[0] && Val(w) / BASE == Val(w[1..])
  {
    ModUnique(Val(w), BASE, Val(w[1..]), w[0]);
  }

  /** Equal length and equal value mean equal words. */
  lemma {:induction false} ValInjective(w: seq<u32>, v: seq<u32>)
    requires |w| == |v| && Val(w) == Val(v)
    ensures w == v
    decreases |w|
  {
    if w != [] {
      ValDivMod(w);
      ValDivMod(v);
      ValInjective(w[1..], v[1..]);
      assert w == [w[0]] + w[1..];
      assert v == [v[0]] + v[1..];
    }
  }

  lemma {:induction false} ValZero(w: seq<u32>)
    ensures Val(w) == 0 <==> forall i :: 0 <= i < |w| ==> w[i] == 0
    decreases |w|
  {
    if w != [] {
      ValZero(w[1..]);
      if Val(w) == 0 {
        assert w[0] == 0 && Val(w[1..]) == 0;
      }
      if forall i :: 0 <= i < |w| ==> w[i] == 0 {
        assert forall i :: 0 <= i < |w[1..]| ==> w[1..][i] == w[i + 1];
      }
    }
  }

  /** All-zero words have value 0. */
  lemma ValZeros(z: seq<u32>)
    requires forall i :: 0 <= i < |z| ==> z[i] == 0
    ensures Val(z) == 0
  {
    ValZero(z);
  }
}
