/** Facts about products, remainders, powers of two and bits. */
module Arithmetic {

  lemma Bigger(i: nat, j: nat, n: nat)
    requires i < j && n > 0
    ensures i * n < j * n
  {
  }

  lemma AtMostTimes(i: nat, j: nat, n: nat)
    requires i <= j
    ensures i * n <= j * n
  {
  }

  lemma OneMoreTimes(i: nat, n: nat)
    ensures (i + 1) * n == i * n + n
  {
  }

  lemma PlusTimes(i: nat, j: nat, n: nat)
    ensures (i + j) * n == i * n + j * n
  {
  }

  lemma TimesSteps(i: nat, j: nat, n: nat)
    requires i < j
    ensures i * n + n <= j * n
  {
    AtMostTimes(i + 1, j, n);
    assert (i + 1) * n == i * n + n;
  }

  /** Division with remainder has one outcome. */
  lemma DivisionUnique(x: nat, q: nat, r: nat, n: nat)
    requires x == q * n + r && r < n
    ensures x / n == q && x % n == r
  {
    var p := x / n;
    assert x == p * n + x % n;
    if p < q { TimesSteps(p, q, n); } else if q < p { TimesSteps(q, p, n); }
  }

  lemma QuotientOfSum(a: nat, r: nat, n: nat)
    requires n > 0
    ensures (a * n + r) / n == a + r / n
  {
    assert r == r / n * n + r % n;
    PlusTimes(a, r / n, n);
    DivisionUnique(a * n + r, a + r / n, r % n, n);
  }

  lemma DistinctMod(a: nat, b: nat, n: nat)
    requires a < b < a + n
    ensures a % n != b % n
  {
    var i, j := a / n, b / n;
    assert a == i * n + a % n && b == j * n + b % n;
    if i < j { TimesSteps(i, j, n); } else if j < i { TimesSteps(j, i, n); }
  }

  lemma OneMultipleVanishes(a: nat, n: nat)
    requires n > 0
    ensures (a + n) % n == a % n
  {
    var i, j := a / n, (a + n) / n;
    assert a == i * n + a % n && a + n == j * n + (a + n) % n;
    assert (i + 1) * n == i * n + n;
    if i + 1 < j { TimesSteps(i + 1, j, n); } else if j < i + 1 { TimesSteps(j, i + 1, n); }
  }

  lemma {:induction false} MultipleVanishes(a: nat, q: nat, n: nat)
    requires n > 0
    ensures (a + q * n) % n == a % n
  {
    if q > 0 {
      MultipleVanishes(a, q - 1, n);
      assert q * n == (q - 1) * n + n;
      OneMultipleVanishes(a + (q - 1) * n, n);
    }
  }

  lemma ModOfSum(a: nat, b: nat, n: nat)
    requires n > 0
    ensures (a % n + b) % n == (a + b) % n
  {
    var q := a / n;
    assert a == q * n + a % n;
    MultipleVanishes(a % n + b, q, n);
  }

  function Pow2(k: nat): (r: nat)
    ensures r >= 1
  {
    if k == 0 then 1 else 2 * Pow2(k - 1)
  }

  lemma {:induction false} Pow2Adds(a: nat, b: nat)
    ensures Pow2(a + b) == Pow2(a) * Pow2(b)
  {
    if a == 0 {
    } else {
      calc {
        Pow2(a + b);
        { assert Pow2(a + b) == 2 * Pow2((a - 1) + b); }
        2 * Pow2((a - 1) + b);
        { Pow2Adds(a - 1, b); }
        2 * (Pow2(a - 1) * Pow2(b));
        Pow2(a) * Pow2(b);
      }
    }
  }

  lemma {:induction false} Pow2Grows(a: nat, b: nat)
    requires a <= b
    ensures Pow2(a) <= Pow2(b)
    decreases b
  {
    if a < b { Pow2Grows(a, b - 1); }
  }

  lemma Pow2Of64()
    ensures Pow2(64) == 0x1_0000_0000_0000_0000
  {
    assert Pow2(4) == 16;
    hide Pow2;
    assert Pow2(8) == 0x100 by { Pow2Adds(4, 4); }
    assert Pow2(16) == 0x1_0000 by { Pow2Adds(8, 8); }
    assert Pow2(32) == 0x1_0000_0000 by { Pow2Adds(16, 16); }
    Pow2Adds(32, 32);
  }

  /** Bitwise exclusive or of the lowest n bits. */
  function BitXor(a: nat, b: nat, n: nat): (r: nat) {
    if n == 0 then 0 else (a + b) % 2 + 2 * BitXor(a / 2, b / 2, n - 1)
  }

  lemma {:induction false} XorZeros(x: nat, n: nat)
    requires x < Pow2(n)
    ensures BitXor(x, 0, n) == x
  {
    if n > 0 { XorZeros(x / 2, n - 1); }
  }

  lemma FlipsOne(x: nat, p: nat)
    requires p > 0
    ensures (2 * p - 1) / 2 == p - 1 && (x + (2 * p - 1)) % 2 == 1 - x % 2
  {
    assert x + (2 * p - 1) == 2 * (x / 2 + p - 1) + (x % 2 + 1);
  }

  /** Exclusive or with ones flips all bits. */
  lemma {:induction false} XorOnes(x: nat, n: nat)
    requires x < Pow2(n)
    ensures BitXor(x, Pow2(n) - 1, n) == Pow2(n) - 1 - x
  {
    if n > 0 {
      var p := Pow2(n - 1);
      assert Pow2(n) == 2 * p && BitXor(x, 2 * p - 1, n) == (x + (2 * p - 1)) % 2 +
        2 * BitXor(x / 2, (2 * p - 1) / 2, n - 1);
      hide Pow2, BitXor;
      XorOnes(x / 2, n - 1);
      FlipsOne(x, p);
    }
  }
}
