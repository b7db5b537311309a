/** Facts about division by a variable modulus, proved once so that no other
    proof has to reason non-linearly. */
module Modular {

  lemma Decompose(a: nat, m: nat)
    requires m > 0
    ensures a == m * (a / m) + a % m
  {
  }

  /** A product with a positive factor m is at least m, at most 0, or at most -m. */
  lemma ProductGap(m: nat, d: int)
    requires m > 0
    ensures d >= 1 ==> m * d >= m
    ensures d <= 0 ==> m * d <= 0
    ensures d <= -1 ==> m * d + m <= 0
  {
  }

  lemma Unique(a: nat, m: nat, q: int, r: nat)
    requires r < m && a == m * q + r
    ensures a / m == q && a % m == r
  {
    Decompose(a, m);
    ProductGap(m, q - a / m);
    assert m * (q - a / m) == m * q - m * (a / m);
  }

  lemma Successor(a: nat, m: nat)
    requires m > 0
    ensures (a + 1) % m == if a % m == m - 1 then 0 else a % m + 1
    ensures (a + 1) / m == if a % m == m - 1 then a / m + 1 else a / m
  {
    Decompose(a, m);
    if a % m == m - 1 {
      assert a + 1 == m * (a / m + 1);
      Unique(a + 1, m, a / m + 1, 0);
    } else {
      Unique(a + 1, m, a / m, a % m + 1);
    }
  }

  /** A remainder survives adding a whole number of moduli. */
  lemma AddMultiple(a: nat, m: nat, k: int)
    requires m > 0 && a + m * k >= 0
    ensures (a + m * k) % m == a % m
    ensures (a + m * k) / m == a / m + k
  {
    Decompose(a, m);
    assert a + m * k == m * (a / m + k) + a % m;
    Unique(a + m * k, m, a / m + k, a % m);
  }

  lemma AddMod(a: nat, d: nat, m: nat)
    requires m > 0
    ensures (a % m + d) % m == (a + d) % m
  {
    Decompose(a, m);
    AddMultiple(a % m + d, m, a / m);
    assert a % m + d + m * (a / m) == a + d;
  }

  /** Within one window of m consecutive numbers no remainder repeats. */
  lemma WindowInjective(a: nat, b: nat, m: nat)
    requires a < b < a + m
    ensures a % m != b % m
  {
    Decompose(a, m);
    Decompose(b, m);
    ProductGap(m, b / m - a / m);
    assert m * (b / m - a / m) == m * (b / m) - m * (a / m);
  }

  /** Two numbers with the same remainder differ by a multiple of m. */
  lemma SameRemainder(a: nat, b: nat, m: nat)
    requires m > 0 && a <= b && a % m == b % m
    ensures (b - a) % m == 0
  {
    Decompose(a, m);
    Decompose(b, m);
    assert b - a == m * (b / m - a / m);
    Unique(b - a, m, b / m - a / m, 0);
  }

  /** Multiples of m below n (itself a multiple) leave room for one more m. */
  lemma MultipleBelow(a: nat, n: nat, m: nat)
    requires m > 0 && a % m == 0 && n % m == 0 && a < n
    ensures a + m <= n
  {
    Decompose(a, m);
    Decompose(n, m);
    ProductGap(m, n / m - a / m);
    assert m * (n / m - a / m) == m * (n / m) - m * (a / m);
  }

  /** Reducing by a multiple of m does not disturb the remainder by m. */
  lemma ModMod(a: nat, n: nat, m: nat)
    requires m > 0 && n > 0 && n % m == 0
    ensures (a % n) % m == a % m
  {
    Decompose(a, n);
    Decompose(n, m);
    var k := (n / m) * (a / n);
    assert n * (a / n) == m * k by {
      assert (m * (n / m)) * (a / n) == m * ((n / m) * (a / n));
    }
    AddMultiple(a % n, m, k);
    assert a % n + m * k == a;
  }

  /** The block of m numbers starting at a multiple h of m is one quotient. */
  lemma Block(h: nat, i: nat, m: nat)
    requires m > 0 && h % m == 0
    ensures i / m == h / m <==> h <= i < h + m
  {
    Decompose(h, m);
    Decompose(i, m);
    if h <= i < h + m {
      Unique(i, m, h / m, i - h);
    }
  }

  /** The largest multiple of m up to n. */
  lemma RoundDown(n: nat, m: nat)
    requires 0 < m <= n
    ensures (n - n % m) % m == 0 && m <= n - n % m <= n
  {
    Decompose(n, m);
    Unique(n - n % m, m, n / m, 0);
    ProductGap(m, n / m);
  }

  /** Stepping from one multiple of m to the next stays within a multiple n. */
  lemma NextMultiple(a: nat, n: nat, m: nat)
    requires m > 0 && a % m == 0 && n % m == 0 && a < n
    ensures a + m <= n && (a + m) % m == 0
  {
    MultipleBelow(a, n, m);
    AddMultiple(a, m, 1);
  }
}
