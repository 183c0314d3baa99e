/**
 * The byte side of the 256-bit type: Go's `reverse` (a swap loop over a byte slice, in
 * place), the little-endian 32-bit codec of encoding/binary that `FromHash` and
 * `GetBytes` rely on, and the 32-byte strings these two read and write.
 */
module HashBytes {
  import opened MathLemmas
  import opened Unsigned
  import opened Limbs

  /** Length of a hash in bytes. */
  const HASH_LEN: nat := 32

  /** s read back to front. */
  function Reversed<T>(s: seq<T>): (r: seq<T>)
    ensures |r| == |s|
    ensures forall i :: 0 <= i < |s| ==> r[i] == s[|s| - 1 - i]
  {
    if s == [] then [] else Reversed(s[1..]) + [s[0]]
  }

  lemma ReversedTwice<T>(s: seq<T>)
    ensures Reversed(Reversed(s)) == s
  {
    var r := Reversed(Reversed(s));
    assert forall i :: 0 <= i < |s| ==> r[i] == s[i];
  }

  /** `reverse(s)`: the slice s, here the window lo..hi of an array, is turned around in
      place by swapping from both ends; the rest of the array is left alone. */
  method Reverse(s: array<u8>, lo: nat, hi: nat)
    requires lo <= hi <= s.Length
    modifies s
    ensures s[..] == old(s[..lo]) + Reversed(old(s[lo..hi])) + old(s[hi..])
  {
    ghost var a := s[..];
    var i: int, j: int := lo, hi - 1;
    while i < j
      invariant lo <= i <= hi && lo - 1 <= j < hi && i + j == lo + hi - 1
      invariant forall k :: 0 <= k < lo || i <= k <= j || hi <= k < s.Length ==> s[k] == a[k]
      invariant forall k :: lo <= k < i || j < k < hi ==> s[k] == a[lo + hi - 1 - k]
    {
      s[i], s[j] := s[j], s[i];
      i, j := i + 1, j - 1;
    }
    ReversedWindow(a, s[..], lo, hi);
  }

  /** A sequence that agrees with a outside lo..hi and mirrors it inside is a with that
      window reversed. */
  lemma ReversedWindow<T>(a: seq<T>, b: seq<T>, lo: nat, hi: nat)
    requires lo <= hi <= |a| == |b|
    requires forall k :: 0 <= k < lo || hi <= k < |b| ==> b[k] == a[k]
    requires forall k :: lo <= k < hi ==> b[k] == a[lo + hi - 1 - k]
    ensures b == a[..lo] + Reversed(a[lo..hi]) + a[hi..]
  {
    var want := a[..lo] + Reversed(a[lo..hi]) + a[hi..];
    forall k | 0 <= k < |b|
      ensures b[k] == want[k]
    {
      if k < lo {
        assert want[k] == a[..lo][k];
      } else if k < hi {
        assert want[k] == Reversed(a[lo..hi])[k - lo];
      } else {
        assert want[k] == a[hi..][k - hi];
      }
    }
  }

  // ---------------------------------------------------------------- encoding/binary

  /** `binary.LittleEndian.Uint32(b)`: b[0] is the low byte. */
  function LeUint32(b: seq<u8>): u32
    requires |b| == 4
  {
    var b0, b1, b2, b3: nat := b[0], b[1], b[2], b[3];
    b0 + 0x100 * b1 + 0x1_0000 * b2 + 0x100_0000 * b3
  }

  /** `binary.LittleEndian.PutUint32(b, v)`: the four bytes of v, low byte first. */
  function PutLe(v: u32): seq<u8>
  {
    [v % 0x100, v / 0x100 % 0x100, v / 0x1_0000 % 0x100, v / 0x100_0000 % 0x100]
  }

  /** Reading back the four bytes `PutUint32` wrote gives the word. */
  lemma LeOfPut(v: u32)
    ensures LeUint32(PutLe(v)) == v
  {
    var q1, q2, q3 := v / 0x100, v / 0x1_0000, v / 0x100_0000;
    DivDiv(v, 0x100, 0x100);
    DivDiv(v, 0x1_0000, 0x100);
    assert v == v % 0x100 + 0x100 * q1;
    assert q1 == q1 % 0x100 + 0x100 * q2;
    assert q2 == q2 % 0x100 + 0x100 * q3;
  }

  /** Writing the word `Uint32` read gives back the four bytes. */
  lemma PutOfLe(b: seq<u8>)
    requires |b| == 4
    ensures PutLe(LeUint32(b)) == b
  {
    var v := LeUint32(b);
    var b0, b1, b2, b3: nat := b[0], b[1], b[2], b[3];
    var h1 := b1 + 0x100 * b2 + 0x1_0000 * b3;
    var h2 := b2 + 0x100 * b3;
    DivOfSplit(v, b0, h1, 0x100);
    DivOfSplit(h1, b1, h2, 0x100);
    DivOfSplit(h2, b2, b3, 0x100);
    DivDiv(v, 0x100, 0x100);
    DivDiv(v, 0x1_0000, 0x100);
  }

  // ---------------------------------------------------------------- hash layout

  /** `FromHash(h)`: bytes 4i .. 4i+4 of the hash, turned around and read little-endian,
      that is read big-endian, become word 7 - i; the first bytes are the high word. */
  function FromHashWords(h: seq<u8>): (w: seq<u32>)
    requires |h| == HASH_LEN
    ensures |w| == WIDTH
  {
    seq(WIDTH, k requires 0 <= k < WIDTH => HashWord(h, WIDTH - 1 - k))
  }

  /** Bytes 4i .. 4i+4 of the hash, turned around and read little-endian. */
  function HashWord(h: seq<u8>, i: nat): u32
    requires |h| == HASH_LEN && i < WIDTH
  {
    LeUint32(Reversed(h[4 * i .. 4 * i + 4]))
  }

  /** `GetBytes()` over the words w[0..]: each word is written little-endian, turned
      around, and put in front of what the earlier words gave. */
  function GetBytesOf(w: seq<u32>): (b: seq<u8>)
    ensures |b| == 4 * |w|
  {
    if w == [] then [] else Reversed(PutLe(w[|w| - 1])) + GetBytesOf(w[..|w| - 1])
  }

  /** Bytes 4j .. 4j+4 of `GetBytes()` are word |w| - 1 - j, most significant byte first. */
  lemma {:induction false} GetBytesChunk(w: seq<u32>, j: nat)
    requires j < |w|
    ensures GetBytesOf(w)[4 * j .. 4 * j + 4] == Reversed(PutLe(w[|w| - 1 - j]))
  {
    var w1 := w[..|w| - 1];
    var top, rest := Reversed(PutLe(w[|w| - 1])), GetBytesOf(w1);
    assert GetBytesOf(w) == top + rest;
    if j > 0 {
      GetBytesChunk(w1, j - 1);
      SliceAfter(top, rest, 4 * j, 4 * j + 4);
    } else {
      SliceAfter(top, rest, 0, 4);
    }
  }

  lemma SliceAfter<T>(x: seq<T>, y: seq<T>, lo: nat, hi: nat)
    requires lo <= hi <= |x + y| && (hi <= |x| || |x| <= lo)
    ensures hi <= |x| ==> (x + y)[lo..hi] == x[lo..hi]
    ensures |x| <= lo ==> (x + y)[lo..hi] == y[lo - |x| .. hi - |x|]
  {
  }

  /** `FromHash` undoes `GetBytes`. */
  lemma FromHashOfBytes(w: seq<u32>)
    requires |w| == WIDTH
    ensures FromHashWords(GetBytesOf(w)) == w
  {
    var b := GetBytesOf(w);
    var r := FromHashWords(b);
    forall k | 0 <= k < WIDTH
      ensures r[k] == w[k]
    {
      WordOfBytes(w, b, WIDTH - 1 - k, k);
    }
  }

  lemma WordOfBytes(w: seq<u32>, b: seq<u8>, j: nat, k: nat)
    requires |w| == WIDTH && b == GetBytesOf(w) && j < WIDTH && k == WIDTH - 1 - j
    ensures HashWord(b, j) == w[k]
  {
    GetBytesChunk(w, j);
    ReversedTwice(PutLe(w[k]));
    LeOfPut(w[k]);
  }

  /** `GetBytes` undoes `FromHash`. */
  lemma BytesOfFromHash(h: seq<u8>)
    requires |h| == HASH_LEN
    ensures GetBytesOf(FromHashWords(h)) == h
  {
    var w := FromHashWords(h);
    var b := GetBytesOf(w);
    forall i | 0 <= i < HASH_LEN
      ensures b[i] == h[i]
    {
      var j := i / 4;
      ChunkOfHash(h, w, b, j);
      ByteOfChunk(b, h, j, i);
    }
  }

  lemma ChunkOfHash(h: seq<u8>, w: seq<u32>, b: seq<u8>, j: nat)
    requires |h| == HASH_LEN && w == FromHashWords(h) && b == GetBytesOf(w) && j < WIDTH
    ensures b[4 * j .. 4 * j + 4] == h[4 * j .. 4 * j + 4]
  {
    var chunk := h[4 * j .. 4 * j + 4];
    GetBytesChunk(w, j);
    FromHashAt(h, w, WIDTH - 1 - j, j);
    PutOfLe(Reversed(chunk));
    ReversedTwice(chunk);
  }

  lemma FromHashAt(h: seq<u8>, w: seq<u32>, k: nat, j: nat)
    requires |h| == HASH_LEN && w == FromHashWords(h) && k < WIDTH && j == WIDTH - 1 - k
    ensures w[k] == LeUint32(Reversed(h[4 * j .. 4 * j + 4]))
  {
    assert w[k] == HashWord(h, j);
  }

  lemma ByteOfChunk(b: seq<u8>, h: seq<u8>, j: nat, i: nat)
    requires |b| == |h| && 4 * j <= i < 4 * j + 4 <= |h|
    requires b[4 * j .. 4 * j + 4] == h[4 * j .. 4 * j + 4]
    ensures b[i] == h[i]
  {
    assert b[4 * j .. 4 * j + 4][i - 4 * j] == h[4 * j .. 4 * j + 4][i - 4 * j];
  }

  // ---------------------------------------------------------------- big-endian value

  /** The number a byte string spells with its first byte most significant. */
  ghost function BeValue(b: seq<u8>): nat
  {
    if b == [] then 0 else 0x100 * BeValue(b[..|b| - 1]) + b[|b| - 1]
  }

  lemma {:induction false} BeAppend(x: seq<u8>, y: seq<u8>)
    ensures BeValue(x + y) == BeValue(x) * Pow2(8 * |y|) + BeValue(y)
    decreases |y|
  {
    if y == [] {
      assert x + y == x;
    } else {
      var y1, c := y[..|y| - 1], y[|y| - 1];
      assert (x + y)[..|x + y| - 1] == x + y1;
      BeAppend(x, y1);
      Pow2Small();
      Pow2AddTo(8 * |y1|, 8, 8 * |y|);
      ShiftByte(BeValue(x), BeValue(y1), Pow2(8 * |y1|), c, BeValue(x + y), BeValue(y));
    }
  }

  lemma ShiftByte(vx: int, vy1: int, p: int, c: int, vxy: int, vy: int)
    requires vxy == 0x100 * (vx * p + vy1) + c && vy == 0x100 * vy1 + c
    ensures vxy == vx * (p * 0x100) + vy
  {
  }

  /** A word written with `PutUint32` and turned around spells the word big-endian. */
  lemma BeOfWord(v: u32)
    ensures BeValue(Reversed(PutLe(v))) == v
  {
    var p := PutLe(v);
    var b := Reversed(p);
    BeFour(b);
    LeOfPut(v);
  }

  lemma BeFour(b: seq<u8>)
    requires |b| == 4
    ensures BeValue(b) == b[3] as int + 0x100 * b[2] as int + 0x1_0000 * b[1] as int
                          + 0x100_0000 * b[0] as int
  {
    var b1, b2, b3 := b[..1], b[..2], b[..3];
    assert b1[..0] == [] && b2[..1] == b1 && b3[..2] == b2 && b[..3] == b3;
    assert BeValue(b1) == b[0];
    assert BeValue(b2) == 0x100 * b[0] as int + b[1];
    assert BeValue(b3) == 0x100 * BeValue(b2) + b[2];
  }

  /** `GetBytes()` writes the number big-endian. */
  lemma {:induction false} GetBytesValue(w: seq<u32>)
    ensures BeValue(GetBytesOf(w)) == Val(w)
  {
    if w != [] {
      var n := |w| - 1;
      var top, rest := Reversed(PutLe(w[n])), GetBytesOf(w[..n]);
      assert GetBytesOf(w) == top + rest;
      GetBytesValue(w[..n]);
      BeAppend(top, rest);
      BeOfWord(w[n]);
      ValPrefixTo(w, |w|);
      assert w[..|w|] == w;
      assert 8 * |rest| == 32 * n;
      WordOnTop(BeValue(top + rest), w[n], Pow2(8 * |rest|), Val(w[..n]), Val(w), Weight(n));
    }
  }

  lemma WordOnTop(be: int, x: int, p: int, low: int, v: int, wt: int)
    requires be == x * p + low && v == low + x * wt && p == wt
    ensures be == v
  {
  }

  /** `FromHash(h)` reads the hash as a big-endian number. */
  lemma FromHashValue(h: seq<u8>)
    requires |h| == HASH_LEN
    ensures Val(FromHashWords(h)) == BeValue(h)
  {
    BytesOfFromHash(h);
    GetBytesValue(FromHashWords(h));
  }
}
