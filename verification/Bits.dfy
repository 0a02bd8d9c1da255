/** Powers of two and the bitwise operators on naturals, digit by digit, with the few facts that
    the allocators use; and log2_ceil of include/misc/math.h.
 */
module Bits {

  function Pow2(n: nat): (r: nat)
    ensures r >= 1
  {
    if n == 0 then 1 else 2 * Pow2(n - 1)
  }

  function Xor(a: nat, b: nat): nat
    decreases a + b
  {
    if a == 0 && b == 0 then 0
    else (if a % 2 == b % 2 then 0 else 1) + 2 * Xor(a / 2, b / 2)
  }

  function And(a: nat, b: nat): nat
    decreases a + b
  {
    if a == 0 || b == 0 then 0
    else (if a % 2 == 1 && b % 2 == 1 then 1 else 0) + 2 * And(a / 2, b / 2)
  }

  lemma {:induction false} Pow2Add(m: nat, n: nat)
    ensures Pow2(m + n) == Pow2(m) * Pow2(n)
    decreases n
  {
    if n > 0 { Pow2Add(m, n - 1); }
  }

  lemma {:induction false} Pow2Monotone(m: nat, n: nat)
    requires m <= n
    ensures Pow2(m) <= Pow2(n)
    decreases n
  {
    if m < n { Pow2Monotone(m, n - 1); }
  }

  lemma {:induction false} XorZero(a: nat)
    ensures Xor(a, 0) == a
    decreases a
  {
    if a > 0 { XorZero(a / 2); }
  }

  lemma HalfDiv(a: nat, m: nat)
    requires m > 0
    ensures (a / 2) / m == a / (2 * m)
  {
    var q := a / (2 * m);
    var r := a % (2 * m);
    assert a == q * (2 * m) + r;
    assert a / 2 == q * m + r / 2 by { assert q * (2 * m) == 2 * (q * m); }
    assert r / 2 < m;
    DivUnique(a / 2, m, q, r / 2);
  }

  lemma MulLe(a: nat, b: nat, m: nat)
    requires a <= b
    ensures a * m <= b * m
  {
  }

  lemma DivUnique(a: nat, m: nat, q: nat, r: nat)
    requires m > 0 && r < m && a == q * m + r
    ensures a / m == q && a % m == r
  {
    var q', r' := a / m, a % m;
    assert a == q' * m + r';
    if q' < q {
      MulLe(q' + 1, q, m);
    } else if q' > q {
      MulLe(q + 1, q', m);
    }
  }

  lemma ByteDiv(n: nat, p: nat)
    requires p > 0
    ensures n / (256 * p) == n / 256 / p
  {
    var m, r := n / 256, n % 256;
    var q, s := m / p, m % p;
    MulSwap(q, p);
    assert n == 256 * m + r && m == q * p + s;
    DivUnique(n, 256 * p, q, 256 * s + r);
  }

  lemma MulSwap(q: nat, p: nat)
    ensures q * (256 * p) == 256 * (q * p)
  {
  }

  lemma QuotientHalf(a: nat, m: nat)
    requires m > 0
    ensures (a / m) / 2 == a / (2 * m)
  {
    var q, r := a / m, a % m;
    var h := q / 2;
    assert a == q * m + r;
    if q % 2 == 0 {
      assert q == 2 * h;
      assert q * m == h * (2 * m);
      DivUnique(a, 2 * m, h, r);
    } else {
      assert q == 2 * h + 1;
      assert q * m == h * (2 * m) + m;
      DivUnique(a, 2 * m, h, m + r);
    }
  }

  /** Flipping one bit adds it when it is clear and removes it when it is set. */
  ghost function Flip(a: nat, n: nat): int { Toggle(a, Pow2(n)) }

  ghost function Toggle(a: nat, m: nat): int
    requires m > 0
  {
    if (a / m) % 2 == 0 then a + m else a - m
  }

  lemma {:induction false} XorOfPow2(a: nat, n: nat)
    ensures Xor(a, Pow2(n)) == Flip(a, n)
    decreases n
  {
    if n == 0 {
      XorZero(a / 2);
    } else {
      var m := Pow2(n - 1);
      XorOfPow2(a / 2, n - 1);
      HalfDiv(a, m);
      assert Pow2(n) % 2 == 0 && Pow2(n) / 2 == m;
      assert Xor(a, Pow2(n)) == a % 2 + 2 * Xor(a / 2, m);
    }
  }

  lemma {:induction false} AndSelf(a: nat)
    ensures And(a, a) == a
    decreases a
  {
    if a > 0 { AndSelf(a / 2); }
  }

  /** n & (n - 1) clears the lowest set bit: nothing is left exactly for powers of two. */
  lemma {:induction false} AndPredecessor(n: nat, k: nat)
    requires n > 0 && Pow2(k) <= n < Pow2(k + 1)
    ensures And(n, n - 1) == 0 <==> n == Pow2(k)
    decreases k
  {
    if k == 0 {
    } else if n % 2 == 1 {
      AndSelf(n / 2);
      assert n > 1;
    } else {
      assert (n - 1) / 2 == n / 2 - 1;
      AndPredecessor(n / 2, k - 1);
    }
  }

  // ---------- log2_ceil ----------

  lemma ShiftStep(size: nat, value: nat, p: nat, c: nat)
    requires c > 0 && value * p <= size < (value + 1) * p
    ensures (value / c) * (c * p) <= size < (value / c + 1) * (c * p)
  {
    var v := value / c;
    assert v * c <= value && value + 1 <= (v + 1) * c;
    assert (v * c) * p <= value * p;
    assert (value + 1) * p <= ((v + 1) * c) * p;
    assert (v * c) * p == v * (c * p) && ((v + 1) * c) * p == (v + 1) * (c * p);
  }

  lemma QuotientRange(v: nat, c: nat)
    requires 0 < c <= v < c * c
    ensures 1 <= v / c < c
  {
    var q, r := v / c, v % c;
    assert v == q * c + r;
    assert q == 0 ==> q * c == 0;
    if q >= c { MulLe(c, q, c); }
  }

  /** If the value is at least 2^k, shift it right by k. */
  method Narrow(ghost size: nat, value0: nat, log0: nat, k: nat, c: nat) returns (value: nat, log: nat)
    requires c == Pow2(k) && value0 >= 1 && k > 0
    requires value0 * Pow2(log0) <= size < (value0 + 1) * Pow2(log0)
    requires value0 < c * c
    ensures 1 <= value < c
    ensures value * Pow2(log) <= size < (value + 1) * Pow2(log)
  {
    hide Pow2;
    value, log := value0, log0;
    if value >= c {
      ShiftStep(size, value, Pow2(log), c);
      Pow2Add(log, k);
      QuotientRange(value, c);
      log := log + k;
      value := value / c;
    }
  }

  lemma Pow2Values()
    ensures Pow2(1) == 2 && Pow2(2) == 4 && Pow2(4) == 16 && Pow2(8) == 256
    ensures Pow2(16) == 65536 && Pow2(32) == 0x1_0000_0000 && Pow2(64) == 0x1_0000_0000_0000_0000
  {
    hide Pow2;
    Pow2One();
    Pow2Square(1, 2);
    Pow2Square(2, 4);
    Pow2Square(4, 16);
    Pow2Square(8, 256);
    Pow2Square(16, 65536);
    Pow2Square(32, 0x1_0000_0000);
  }

  lemma Pow2One()
    ensures Pow2(1) == 2
  {
  }

  lemma Pow2Square(n: nat, c: nat)
    requires Pow2(n) == c
    ensures Pow2(2 * n) == c * c
  {
    Pow2Add(n, n);
  }

  /** The chain of conditional shifts: the position of the highest set bit. */
  method HighestBit(size: nat) returns (log: nat)
    requires 0 < size < 0x1_0000_0000_0000_0000
    ensures Pow2(log) <= size < Pow2(log + 1)
  {
    hide Pow2;
    Pow2Values();
    var value := size;
    log := 0;
    assert Pow2(log) == 1 by { Pow2Add(0, 1); }
    value, log := Narrow(size, value, log, 32, 0x1_0000_0000);
    value, log := Narrow(size, value, log, 16, 0x10000);
    value, log := Narrow(size, value, log, 8, 0x100);
    value, log := Narrow(size, value, log, 4, 0x10);
    value, log := Narrow(size, value, log, 2, 4);
    value, log := Narrow(size, value, log, 1, 2);
    assert value == 1;
    Pow2Add(log, 1);
  }

  /** log2_ceil: the least exponent whose power reaches a 64-bit size; -1 for zero. */
  method Log2Ceil(size: nat) returns (r: int)
    requires size < 0x1_0000_0000_0000_0000
    ensures size == 0 <==> r == -1
    ensures size > 0 ==> r >= 0 && size <= Pow2(r) && (r > 0 ==> Pow2(r - 1) < size)
  {
    if size == 0 { return -1; }
    r := HighestBit(size);
    AndPredecessor(size, r);
    if And(size, size - 1) != 0 { r := r + 1; }
  }

  // ---------- Alignment ----------

  predicate Aligned(a: nat, n: nat) { a % Pow2(n) == 0 }

  lemma MultipleMod(q: nat, m: nat)
    requires m > 0
    ensures (q * m) % m == 0
  {
    DivUnique(q * m, m, q, 0);
  }

  lemma MulAssoc(a: nat, b: nat, c: nat)
    ensures a * (b * c) == (a * b) * c
  {
  }

  lemma AlignedWeaken(a: nat, m: nat, n: nat)
    requires m <= n && Aligned(a, n)
    ensures Aligned(a, m)
  {
    Pow2Add(n - m, m);
    var q, c, d := a / Pow2(n), Pow2(n - m), Pow2(m);
    hide Pow2;
    assert a == q * (c * d);
    MulAssoc(q, c, d);
    MultipleMod(q * c, d);
  }

  /** Between two multiples of m there is room for m. */
  lemma NextMultiple(a: nat, b: nat, m: nat)
    requires m > 0 && a % m == 0 && b % m == 0 && a < b
    ensures a + m <= b
  {
    var p, q := a / m, b / m;
    assert a == p * m && b == q * m;
    if q <= p { MulLe(q, p, m); }
    MulLe(p + 1, q, m);
  }

  lemma MultipleSum(a: nat, b: nat, m: nat)
    requires m > 0 && a % m == 0 && b % m == 0
    ensures (a + b) % m == 0
    ensures a >= b ==> (a - b) % m == 0
  {
    var p, q := a / m, b / m;
    assert a == p * m && b == q * m && (p + q) * m == a + b && (p - q) * m == a - b;
    MultipleMod(p + q, m);
    if a >= b {
      if q > p { MulLe(p + 1, q, m); }
      MultipleMod(p - q, m);
    }
  }

  /** Aligned blocks nest: a block that starts inside a larger one ends inside it. */
  lemma Nest(a: nat, m: nat, b: nat, n: nat)
    requires m <= n && Aligned(a, m) && Aligned(b, n) && b <= a < b + Pow2(n)
    ensures a + Pow2(m) <= b + Pow2(n)
  {
    AlignedWeaken(b, m, n);
    assert Aligned(Pow2(n), n) by { DivUnique(Pow2(n), Pow2(n), 1, 0); }
    AlignedWeaken(Pow2(n), m, n);
    MultipleSum(b, Pow2(n), Pow2(m));
    NextMultiple(a, b + Pow2(n), Pow2(m));
  }

  /** The even one of two consecutive multiples of m is a multiple of 2m. */
  lemma EvenMultiple(q: nat, m: nat)
    requires m > 0 && q % 2 == 0
    ensures (q * m) % (2 * m) == 0
    ensures (q * m + m) / m == q + 1 && (q * m + m) % m == 0 && (q * m) / m == q && (q * m) % m == 0
  {
    var h := q / 2;
    assert q * m == h * (2 * m) by { assert q == h * 2; }
    MultipleMod(h, 2 * m);
    DivUnique(q * m, m, q, 0);
    DivUnique(q * m + m, m, q + 1, 0) by { assert (q + 1) * m == q * m + m; }
  }

  /** a and b are the two halves, of size m, of a block aligned at 2m. */
  ghost predicate Halves(a: nat, b: int, m: nat)
    requires m > 0
  {
    && b >= 0 && b != a && b % m == 0
    && (if a < b then b == a + m && a % (2 * m) == 0 else a == b + m && b % (2 * m) == 0)
  }

  lemma ToggleHalves(a: nat, m: nat)
    requires m > 0 && a % m == 0
    ensures Halves(a, Toggle(a, m), m) && Toggle(Toggle(a, m), m) == a
  {
    var q := a / m;
    assert a == q * m;
    if q % 2 == 0 {
      EvenMultiple(q, m);
    } else {
      EvenMultiple(q - 1, m);
      assert a - m == (q - 1) * m;
    }
  }

  /** Flipping bit n of a block aligned at n gives the other half of the block one order up. */
  lemma FlipIsSibling(a: nat, n: nat)
    requires Aligned(a, n)
    ensures Halves(a, Flip(a, n), Pow2(n)) && Flip(Flip(a, n), n) == a
    ensures Aligned(Flip(a, n), n) && Aligned(if a < Flip(a, n) then a else Flip(a, n), n + 1)
  {
    ToggleHalves(a, Pow2(n));
  }
}
