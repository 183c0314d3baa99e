/** Powers of two and the division/modulo facts the word-level proofs rely on. */
module MathLemmas {

  /** 2^n */
  function Pow2(n: nat): (r: nat)
    ensures r >= 1
  {
    if n == 0 then 1 else 2 * Pow2(n - 1)
  }

  lemma {:induction false} Pow2Add(a: nat, b: nat)
    ensures Pow2(a + b) == Pow2(a) * Pow2(b)
  {
    if a > 0 {
      Pow2Add(a - 1, b);
      assert Pow2(a + b) == 2 * Pow2(a - 1 + b);
    }
  }

  lemma Pow2AddTo(a: nat, b: nat, c: nat)
    requires a + b == c
    ensures Pow2(c) == Pow2(a) * Pow2(b)
  {
    Pow2Add(a, b);
  }

  lemma {:induction false} Pow2Strict(a: nat, b: nat)
    requires a < b
    ensures Pow2(a) < Pow2(b)
  {
    if b - 1 > a {
      Pow2Strict(a, b - 1);
    }
  }

  lemma Pow2Le(a: nat, b: nat)
    requires a <= b
    ensures Pow2(a) <= Pow2(b)
  {
    if a < b {
      Pow2Strict(a, b);
    }
  }

  /** Pow2(a) divides Pow2(b) when a <= b. */
  lemma Pow2Divides(a: nat, b: nat)
    requires a <= b
    ensures Pow2(b) == Pow2(a) * Pow2(b - a)
    ensures Pow2(b) % Pow2(a) == 0
  {
    var c := b - a;
    Pow2Add(a, c);
    assert a + c == b;
    var pa, pc := Pow2(a), Pow2(c);
    ModMultiple(pc, pa);
    assert pc * pa == pa * pc;
  }

  lemma Pow2Small()
    ensures Pow2(1) == 2 && Pow2(2) == 4 && Pow2(3) == 8 && Pow2(4) == 16
    ensures Pow2(8) == 0x100 && Pow2(16) == 0x1_0000 && Pow2(23) == 0x80_0000
    ensures Pow2(24) == 0x100_0000 && Pow2(31) == 0x8000_0000
  {
    assert Pow2(4) == 16;
    Pow2Add(4, 4);
    Pow2Add(8, 8);
    Pow2Add(16, 8);
    assert Pow2(23) * 2 == Pow2(24);
    assert Pow2(31) == 2 * Pow2(30);
    Pow2Add(24, 4);
    Pow2Add(28, 2);
  }

  lemma Pow2Words()
    ensures Pow2(32) == 0x1_0000_0000
    ensures Pow2(64) == 0x1_0000_0000_0000_0000
  {
    Pow2Small();
    Pow2Add(16, 16);
    Pow2Add(32, 32);
  }

  /** A number below the divisor is its own remainder. */
  lemma ModBelow(n: int, m: int)
    requires 0 <= n < m
    ensures n / m == 0 && n % m == n
  {
    ModUnique(n, m, 0, n);
  }

  /** The only quotient and remainder of n by m. */
  lemma ModUnique(n: int, m: int, q: int, r: int)
    requires 0 <= r < m && n == q * m + r
    ensures n / m == q && n % m == r
  {
    var d := n / m;
    assert n == d * m + n % m;
    if q > d {
      MulAtLeast(q - d, m);
      assert false;
    }
    if q < d {
      MulAtLeast(d - q, m);
      assert false;
    }
  }

  /** 0 <= x / d <= x for a natural x and a positive divisor. */
  lemma DivBounds(x: nat, d: nat)
    requires d > 0
    ensures 0 <= x / d <= x
  {
    var q, m := x / d, x % d;
    assert x == q * d + m;
    if q < 0 {
      MulAtLeast(-q, d);
      assert false;
    }
    if q > x {
      MulAtLeast(d, q);
      assert false;
    }
  }

  lemma ZeroMod(m: int)
    requires m > 0
    ensures 0 % m == 0 && 0 / m == 0
  {
    ModUnique(0, m, 0, 0);
  }

  lemma MulAtLeast(x: int, m: int)
    requires x >= 1 && m > 0
    ensures x * m >= m
  {
  }

  lemma ModMultiple(q: nat, m: nat)
    requires m > 0
    ensures (q * m) % m == 0 && (q * m) / m == q
  {
    ModUnique(q * m, m, q, 0);
  }

  /** Adding a multiple of m changes neither the remainder nor, beyond the multiple, the quotient. */
  lemma DivModAddMultiple(q: int, m: int, b: int)
    requires m > 0
    ensures (q * m + b) / m == q + b / m
    ensures (q * m + b) % m == b % m
  {
    assert b == (b / m) * m + b % m;
    assert q * m + b == (q + b / m) * m + b % m;
    ModUnique(q * m + b, m, q + b / m, b % m);
  }

  lemma DivDiv(n: nat, a: nat, b: nat)
    requires a > 0 && b > 0
    ensures n / a / b == n / (a * b)
    ensures n % (a * b) == n % a + a * ((n / a) % b)
  {
    var q1, r1 := n / a, n % a;
    var q2, r2 := q1 / b, q1 % b;
    assert n == a * q1 + r1;
    assert q1 == b * q2 + r2;
    assert n == (a * b) * q2 + (a * r2 + r1) by {
      assert a * q1 == a * (b * q2) + a * r2;
      assert a * (b * q2) == (a * b) * q2;
    }
    assert a * r2 <= a * (b - 1) by {
      MulLeMul(a, r2, b - 1);
    }
    assert a * (b - 1) == a * b - a;
    ModUnique(n, a * b, q2, a * r2 + r1);
  }

  lemma MulAssoc(a: int, b: int, c: int)
    ensures (a * b + 0) * c == a * (b * c) && (a * b) * c == a * (b * c)
  {
  }

  lemma MulLtMul(a: nat, x: nat, y: nat)
    requires x < y && a > 0
    ensures a * x < a * y
  {
  }

  lemma MulLeMul(a: nat, x: nat, y: nat)
    requires x <= y
    ensures a * x <= a * y
  {
  }

  lemma ModMod(n: nat, a: nat, b: nat)
    requires a > 0 && b > 0
    ensures (n % (a * b)) % a == n % a
  {
    DivDiv(n, a, b);
    var k := (n / a) % b;
    DivModAddMultiple(k, a, n % a);
    assert a * k == k * a;
    ModUnique(n % a, a, 0, n % a);
  }

  /** Reducing a factor modulo m first does not change a product modulo m. */
  lemma ModMulLeft(x: nat, c: nat, m: nat)
    requires m > 0
    ensures ((x % m) * c) % m == (x * c) % m
  {
    var q := x / m;
    assert x == q * m + x % m;
    assert x * c == (q * c) * m + (x % m) * c;
    DivModAddMultiple(q * c, m, (x % m) * c);
  }

  lemma ModAddLeft(x: nat, y: nat, m: nat)
    requires m > 0
    ensures (x % m + y) % m == (x + y) % m
  {
    var q := x / m;
    assert x == q * m + x % m;
    DivModAddMultiple(q, m, x % m + y);
  }

  /** x * Pow2(r) mod Pow2(n), for r <= n, is a multiple of Pow2(r). */
  lemma ShiftedLowBitsClear(x: nat, r: nat, n: nat)
    requires r <= n
    ensures ((x * Pow2(r)) % Pow2(n)) % Pow2(r) == 0
  {
    Pow2Divides(r, n);
    ModMod(x * Pow2(r), Pow2(r), Pow2(n - r));
    ModMultiple(x, Pow2(r));
  }

  /** Splitting x * 2^r at bit n (r <= n): high part is x / 2^(n-r). */
  lemma ShiftSplit(x: nat, r: nat, n: nat)
    requires r <= n
    ensures (x * Pow2(r)) / Pow2(n) == x / Pow2(n - r)
    ensures x * Pow2(r) == (x / Pow2(n - r)) * Pow2(n) + (x * Pow2(r)) % Pow2(n)
  {
    Pow2Divides(r, n);
    ScaledSplit(x, Pow2(r), Pow2(n - r), Pow2(n));
  }

  /** Scaling x by p and dividing by d * p gives x / d. */
  lemma ScaledSplit(x: nat, p: nat, d: nat, big: nat)
    requires p > 0 && d > 0 && big == p * d
    ensures (x * p) / big == x / d
    ensures (x * p) % big == (x % d) * p
    ensures x * p == (x / d) * big + (x * p) % big
  {
    var q, t := x / d, x % d;
    assert x == q * d + t;
    assert x * p == q * big + t * p by {
      assert x * p == (q * d + t) * p;
      assert (q * d) * p == q * (p * d);
    }
    assert t * p < big by {
      MulLeMul(p, t, d - 1);
      assert p * (d - 1) == p * d - p;
    }
    ModUnique(x * p, big, q, t * p);
  }

  /** n = low + m * high with low < m: high and low are the quotient and remainder. */
  lemma DivOfSplit(n: int, low: int, high: int, m: int)
    requires 0 <= low < m && n == low + m * high
    ensures n / m == high && n % m == low
  {
    ModUnique(n, m, high, low);
  }
}
