/**
 * The additive operations of the 256-bit number as written in common/arith_uint256.go.
 * `Add` forms `a.pn[i] + b.pn[i]` in 32 bits before widening, so the carry it computes is
 * always 0 and the sum is taken word by word modulo 2^32. `Add1` increments word 0 and,
 * after a word wraps to 0, skips a word before incrementing the next, so it only ever
 * touches words 0, 2, 4 and 6. `Neg` is `Add1` of the complement and `Sub` adds `Neg(b)`.
 */
module AddSub {
  import opened MathLemmas
  import opened Unsigned
  import opened Limbs
  import opened Wordwise

  /** The words `Add` leaves: each word is the 32-bit sum of the two words at its index. */
  function AddWords(a: seq<u32>, b: seq<u32>): (r: seq<u32>)
    requires |a| == WIDTH && |b| == WIDTH
    ensures |r| == WIDTH
  {
    seq(WIDTH, i requires 0 <= i < WIDTH => (a[i] + b[i]) % BASE)
  }

  /** The carry out of each word that `Add` drops: 1 where the two words overflow 32 bits. */
  function CarryWords(a: seq<u32>, b: seq<u32>): (r: seq<u32>)
    requires |a| == WIDTH && |b| == WIDTH
    ensures |r| == WIDTH
  {
    seq(WIDTH, i requires 0 <= i < WIDTH => if a[i] + b[i] >= BASE then 1 else 0)
  }

  /** `Add1`'s loop from word i: increment word i, and when it wraps to 0 go on at word i + 2
      (the loop's own `i++` follows the one in the body). */
  function Add1From(w: seq<u32>, i: nat): (r: seq<u32>)
    requires |w| == WIDTH && i <= WIDTH + 1
    ensures |r| == WIDTH
    decreases |w| + 1 - i
  {
    if i >= WIDTH then w
    else
      var x := (w[i] + 1) % BASE;
      if x == 0 then Add1From(w[i := x], i + 2) else w[i := x]
  }

  /** The words `Add1` leaves. */
  function Add1Words(w: seq<u32>): (r: seq<u32>)
    requires |w| == WIDTH
    ensures |r| == WIDTH
  {
    Add1From(w, 0)
  }

  /** The words `Neg` returns: `Add1` of the complement. */
  function NegWords(a: seq<u32>): (r: seq<u32>)
    requires |a| == WIDTH
    ensures |r| == WIDTH
  {
    Add1Words(NotWords(a))
  }

  /** The words `Sub` leaves: `Add` of `Neg(b)`. */
  function SubWords(a: seq<u32>, b: seq<u32>): (r: seq<u32>)
    requires |a| == WIDTH && |b| == WIDTH
    ensures |r| == WIDTH
  {
    AddWords(a, NegWords(b))
  }

  /** `Add` is the sum of the two numbers less the carries it drops, each worth 2^32 times
      the weight of the word it leaves. */
  lemma AddVal(a: seq<u32>, b: seq<u32>)
    requires |a| == WIDTH && |b| == WIDTH
    ensures Val(AddWords(a, b)) + BASE * Val(CarryWords(a, b)) == Val(a) + Val(b)
  {
    var s, c := AddWords(a, b), CarryWords(a, b);
    forall i | 0 <= i < WIDTH
      ensures s[i] + BASE * c[i] == a[i] as int + b[i]
    {
      LaneSum(a[i], b[i], s[i], c[i]);
    }
    ValLanes(a, b, s, c);
  }

  lemma LaneSum(x: u32, y: u32, s: nat, c: nat)
    requires s == (x + y) % BASE && c == (if x + y >= BASE then 1 else 0)
    ensures s + BASE * c == x + y
  {
    if x + y >= BASE {
      ModUnique(x + y, BASE, 1, x + y - BASE);
    } else {
      ModUnique(x + y, BASE, 0, x + y);
    }
  }

  /** Word-by-word sums s[i] + 2^32 c[i] == a[i] + b[i] add up to the values. */
  lemma {:induction false} ValLanes(a: seq<u32>, b: seq<u32>, s: seq<u32>, c: seq<u32>)
    requires |b| == |a| && |s| == |a| && |c| == |a|
    requires forall i :: 0 <= i < |a| ==> s[i] + BASE * c[i] == a[i] as int + b[i]
    ensures Val(s) + BASE * Val(c) == Val(a) + Val(b)
    decreases |a|
  {
    if a != [] {
      ValLanes(a[1..], b[1..], s[1..], c[1..]);
      LaneStep(Val(s[1..]), Val(c[1..]), Val(a[1..]), Val(b[1..]), s[0], c[0], a[0], b[0]);
    }
  }

  lemma LaneStep(vs: int, vc: int, va: int, vb: int, s0: int, c0: int, a0: int, b0: int)
    requires vs + BASE * vc == va + vb && s0 + BASE * c0 == a0 + b0
    ensures (s0 + BASE * vs) + BASE * (c0 + BASE * vc) == (a0 + BASE * va) + (b0 + BASE * vb)
  {
    assert BASE * (vs + BASE * vc) == BASE * (va + vb);
  }

  /** When no pair of words overflows 32 bits, `Add` is the true sum. */
  lemma AddExact(a: seq<u32>, b: seq<u32>)
    requires |a| == WIDTH && |b| == WIDTH
    requires forall i :: 0 <= i < WIDTH ==> a[i] + b[i] < BASE
    ensures Val(AddWords(a, b)) == Val(a) + Val(b)
  {
    AddVal(a, b);
    ValZeros(CarryWords(a, b));
  }

  /** The carry out of word 0 is lost: 0xffffffff + 1 adds to 0, not 2^32. */
  lemma AddDropsCarry()
    ensures AddWords([MAX32, 0, 0, 0, 0, 0, 0, 0], [1, 0, 0, 0, 0, 0, 0, 0]) == Zeros()
    ensures Val([MAX32, 0, 0, 0, 0, 0, 0, 0]) + Val([1, 0, 0, 0, 0, 0, 0, 0]) == BASE
  {
    var a: seq<u32> := [MAX32, 0, 0, 0, 0, 0, 0, 0];
    var b: seq<u32> := [1, 0, 0, 0, 0, 0, 0, 0];
    assert AddWords(a, b) == Zeros() by {
      ModUnique(BASE, BASE, 1, 0);
      ZeroMod(BASE);
    }
    ValZeros(a[1..]);
    ValZeros(b[1..]);
  }

  /** `Add` does not depend on the order of its operands. */
  lemma AddCommutes(a: seq<u32>, b: seq<u32>)
    requires |a| == WIDTH && |b| == WIDTH
    ensures AddWords(a, b) == AddWords(b, a)
  {
  }

  /** The words Add1 leaves when k is the first even index whose word is not 0xffffffff:
      the even words below k wrap to 0, word k goes up by one, the rest are unchanged. */
  function Add1Expected(w: seq<u32>, k: nat): (r: seq<u32>)
    requires |w| == WIDTH && k <= WIDTH && (k < WIDTH ==> w[k] < MAX32)
    ensures |r| == WIDTH
  {
    seq(WIDTH, j requires 0 <= j < WIDTH =>
      if j < k && j % 2 == 0 then 0 else if j == k then w[k] + 1 else w[j])
  }

  /** Add1 characterised without its loop: it clears the run of all-ones even words from
      word 0 and increments the first even word after it. */
  lemma Add1Spec(w: seq<u32>, k: nat)
    requires |w| == WIDTH && k <= WIDTH && k % 2 == 0
    requires forall j :: 0 <= j < k && j % 2 == 0 ==> w[j] == MAX32
    requires k < WIDTH ==> w[k] < MAX32
    ensures Add1Words(w) == Add1Expected(w, k)
  {
    Add1FromSpec(w, w, k, 0);
  }

  /** Add1's loop at word i, after the even words below i (all 0xffffffff in w0) wrapped. */
  lemma {:induction false} Add1FromSpec(w0: seq<u32>, w: seq<u32>, k: nat, i: nat)
    requires |w0| == WIDTH && |w| == WIDTH && k <= WIDTH && k % 2 == 0 && i % 2 == 0 && i <= k
    requires forall j :: 0 <= j < k && j % 2 == 0 ==> w0[j] == MAX32
    requires k < WIDTH ==> w0[k] < MAX32
    requires forall j :: 0 <= j < WIDTH ==> w[j] == (if j < i && j % 2 == 0 then 0 else w0[j])
    ensures Add1From(w, i) == Add1Expected(w0, k)
    decreases WIDTH + 1 - i
  {
    if i >= WIDTH {
      assert i == k;
    } else if i == k {
      ModUnique(w[i] as int + 1, BASE, 0, w[i] as int + 1);
    } else {
      assert w[i] == MAX32;
      ModUnique(w[i] as int + 1, BASE, 1, 0);
      Add1FromSpec(w0, w[i := 0], k, i + 2);
    }
  }

  /** The words at odd indexes 1, 3, 5 and 7 never change in `Add1`. */
  lemma Add1KeepsOddWords(w: seq<u32>)
    requires |w| == WIDTH
    ensures forall j :: 0 <= j < WIDTH && j % 2 == 1 ==> Add1Words(w)[j] == w[j]
  {
    Add1FromKeepsOdd(w, 0);
  }

  lemma {:induction false} Add1FromKeepsOdd(w: seq<u32>, i: nat)
    requires |w| == WIDTH && i <= WIDTH && i % 2 == 0
    ensures forall j :: 0 <= j < WIDTH && j % 2 == 1 ==> Add1From(w, i)[j] == w[j]
    decreases WIDTH - i
  {
    if i < WIDTH {
      var x := (w[i] + 1) % BASE;
      if x == 0 {
        Add1FromKeepsOdd(w[i := x], i + 2);
      }
    }
  }

  /** With word 0 below 0xffffffff, `Add1` adds one. */
  lemma Add1Exact(w: seq<u32>)
    requires |w| == WIDTH && w[0] < MAX32
    ensures Val(Add1Words(w)) == Val(w) + 1
  {
    Add1Spec(w, 0);
    assert Add1Words(w) == w[0 := w[0] + 1];
    ValUpdate(w, 0, w[0] + 1);
    assert Weight(0) == 1;
  }

  /** When word 0 wraps, the carry lands in word 2: 0xffffffff + 1 becomes 2^64. */
  lemma Add1SkipsWord()
    ensures Add1Words([MAX32, 0, 0, 0, 0, 0, 0, 0]) == [0, 0, 1, 0, 0, 0, 0, 0]
  {
    Add1Spec([MAX32, 0, 0, 0, 0, 0, 0, 0], 2);
  }

  /** With word 0 nonzero, `Neg` is the two's complement 2^256 - Val(a). */
  lemma NegExact(a: seq<u32>)
    requires |a| == WIDTH && a[0] != 0
    ensures Val(NegWords(a)) == Weight(WIDTH) - Val(a)
  {
    NotIsComplement(a[0]);
    NotWordsVal(a);
    Add1Exact(NotWords(a));
  }

  /** `Neg(0)` is not 0: the all-ones complement loses the carry of every other word. */
  lemma NegZero()
    ensures NegWords(Zeros()) == [0, MAX32, 0, MAX32, 0, MAX32, 0, MAX32]
    ensures Val(NegWords(Zeros())) != 0
  {
    NegZeroWords();
    var r := NegWords(Zeros());
    ValZero(r);
    assert r[1] != 0;
  }

  lemma NegZeroWords()
    ensures NegWords(Zeros()) == [0, MAX32, 0, MAX32, 0, MAX32, 0, MAX32]
  {
    var n := NotWords(Zeros());
    forall i | 0 <= i < WIDTH
      ensures n[i] == MAX32
    {
      NotIsComplement(0);
    }
    Add1Spec(n, WIDTH);
    var r := NegWords(Zeros());
    var alt: seq<u32> := [0, MAX32, 0, MAX32, 0, MAX32, 0, MAX32];
    forall j | 0 <= j < WIDTH
      ensures r[j] == alt[j]
    {
      assert r[j] == if j % 2 == 0 then 0 else n[j];
    }
  }

  /** With b's word 0 nonzero, `Sub` adds to each word of a the matching word of the two's
      complement of b, modulo 2^32. */
  lemma SubLanes(a: seq<u32>, b: seq<u32>)
    requires |a| == WIDTH && |b| == WIDTH && b[0] != 0
    ensures SubWords(a, b)[0] == (a[0] + (BASE - b[0])) % BASE
    ensures forall i :: 0 < i < WIDTH ==> SubWords(a, b)[i] == (a[i] + (MAX32 - b[i])) % BASE
  {
    var n := NotWords(b);
    forall i | 0 <= i < WIDTH
      ensures n[i] == MAX32 - b[i]
    {
      NotIsComplement(b[i]);
    }
    Add1Spec(n, 0);
  }

  /** With b's word 0 nonzero, `Sub` is a - b modulo 2^256 less the carries it drops. */
  lemma SubVal(a: seq<u32>, b: seq<u32>)
    requires |a| == WIDTH && |b| == WIDTH && b[0] != 0
    ensures Val(SubWords(a, b)) + BASE * Val(CarryWords(a, NegWords(b)))
            == Val(a) + Weight(WIDTH) - Val(b)
  {
    NegExact(b);
    AddVal(a, NegWords(b));
  }
}
