// Machine words as integers: 64-bit wrap-around, shifts and bitwise or.
module Words {
  const TWO64: int := 0x1_0000_0000_0000_0000

  /** The unsigned 64-bit value an integer wraps to. */
  function WrapU64(v: int): (r: nat)
    ensures r < TWO64
  {
    v % TWO64
  }

  function Pow2(n: nat): (p: nat)
    ensures p > 0
  {
    if n == 0 then 1 else 2 * Pow2(n - 1)
  }

  lemma {:induction false} Pow2Add(a: nat, b: nat)
    ensures Pow2(a + b) == Pow2(a) * Pow2(b)
    decreases b
  {
    if b > 0 {
      Pow2Add(a, b - 1);
      assert Pow2(a + b) == 2 * Pow2(a + (b - 1));
      assert Pow2(a) * Pow2(b) == Pow2(a) * (2 * Pow2(b - 1));
    }
  }

  lemma Pow64()
    ensures Pow2(64) == TWO64
  {
    assert Pow2(4) == 16;
    Pow2Add(4, 4);
    assert Pow2(8) == 256;
    Pow2Add(8, 8);
    assert Pow2(16) == 0x1_0000;
    Pow2Add(16, 16);
    assert Pow2(32) == 0x1_0000_0000;
    Pow2Add(32, 32);
  }

  lemma DivNat(x: nat, d: nat)
    requires d > 0
    ensures x / d >= 0
  {
  }

  /** `x >> n`. */
  function ShiftRight(x: nat, n: nat): nat {
    DivNat(x, Pow2(n));
    x / Pow2(n)
  }

  /** `x << n` on 64 bits. */
  function ShiftLeft(x: nat, n: nat): nat { WrapU64(x * Pow2(n)) }

  /** `x | y`, bit by bit. */
  function Or(x: nat, y: nat): nat {
    if x == 0 && y == 0 then 0
    else 2 * Or(x / 2, y / 2) + if x % 2 == 1 || y % 2 == 1 then 1 else 0
  }

  // ----- division -----

  lemma MulUp(a: nat, b: nat, d: nat)
    requires a <= b
    ensures a * d <= b * d
  {
  }

  lemma MulSucc(a: nat, d: nat)
    ensures (a + 1) * d == a * d + d
  {
  }

  lemma Distribute(a: int, b: int, d: int)
    ensures (a + b) * d == a * d + b * d
    ensures (a - b) * d == a * d - b * d
  {
  }

  lemma QuotientBelow(x: nat, d: nat, n: nat)
    requires d > 0 && x < n * d
    ensures x / d < n
  {
    var q := x / d;
    assert x == q * d + x % d;
    if q >= n {
      MulUp(n, q, d);
    }
  }

  /** Quotient and remainder are the only pair with a remainder below the divisor. */
  lemma DivModUnique(x: nat, d: nat, q: nat, r: nat)
    requires r < d && x == q * d + r
    ensures x / d == q && x % d == r
  {
    var q' := x / d;
    assert x == q' * d + x % d;
    if q' < q {
      MulUp(q' + 1, q, d);
      MulSucc(q', d);
    } else if q < q' {
      MulUp(q + 1, q', d);
      MulSucc(q, d);
    }
  }

  /** Multiplying by a pushes the quotient by b out of a word of a * b. */
  lemma PushOut(x: nat, a: nat, b: nat)
    requires a > 0 && b > 0
    ensures x * a == (x / b) * (a * b) + (x % b) * a
    ensures (x % b) * a + a <= a * b
    ensures (x * a) / (a * b) == x / b && (x * a) % (a * b) == (x % b) * a
  {
    var q, r := x / b, x % b;
    assert x == q * b + r;
    calc {
      x * a;
      (q * b + r) * a;
      { Distribute(q * b, r, a); }
      (q * b) * a + r * a;
      { Associate(q, a, b); }
      q * (a * b) + r * a;
    }
    MulUp(r + 1, b, a);
    MulSucc(r, a);
    assert b * a == a * b;
    DivModUnique(x * a, a * b, q, r * a);
  }

  lemma Associate(q: int, a: int, b: int)
    ensures (q * b) * a == q * (a * b)
  {
  }

  /** x as three digits: below a, below b, and the rest. */
  lemma ThreeDigits(x: nat, a: nat, b: nat)
    requires a > 0 && b > 0
    ensures a * b > 0
    ensures x == (x / a / b) * (a * b) + ((x / a % b) * a + x % a)
    ensures (x / a % b) * a + x % a < a * b
  {
    var y := x / a;
    assert x == y * a + x % a;
    PushOut(y, a, b);
  }

  /** Dividing twice is dividing by the product. */
  lemma DivDiv(x: nat, a: nat, b: nat)
    requires a > 0 && b > 0
    ensures a * b > 0 && (x / a) / b == x / (a * b)
  {
    ThreeDigits(x, a, b);
    DivModUnique(x, a * b, x / a / b, (x / a % b) * a + x % a);
  }

  /** The low digits of the quotient are the quotient of the low digits. */
  lemma ModDiv(x: nat, a: nat, b: nat)
    requires a > 0 && b > 0
    ensures a * b > 0 && (x % (a * b)) / a == (x / a) % b
  {
    var r := (x / a % b) * a + x % a;
    ThreeDigits(x, a, b);
    DivModUnique(x, a * b, x / a / b, r);
    DivModUnique(r, a, x / a % b, x % a);
  }

  // ----- shifts and or -----

  /** The two parts of a word. */
  lemma PowWord(n: nat, m: nat)
    requires n + m == 64
    ensures Pow2(n) * Pow2(m) == TWO64 && Pow2(m) * Pow2(n) == TWO64
  {
    Pow64();
    Pow2Add(n, m);
  }

  /** A left shift by n keeps the low m = 64 - n bits. */
  lemma ShiftLeftIs(x: nat, n: nat, m: nat)
    requires n + m == 64
    ensures ShiftLeft(x, n) == (x % Pow2(m)) * Pow2(n)
  {
    PowWord(n, m);
    PushOut(x, Pow2(n), Pow2(m));
  }

  /** Or of numbers with no common bits is their sum. */
  lemma {:induction false} OrSum(m: nat, k: nat, y: nat)
    requires y < Pow2(k)
    ensures Or(m * Pow2(k), y) == m * Pow2(k) + y
    ensures Or(y, m * Pow2(k)) == m * Pow2(k) + y
    decreases k
  {
    if k == 0 {
      OrZero(m);
    } else {
      var x := m * Pow2(k - 1);
      assert m * Pow2(k) == 2 * x;
      OrSum(m, k - 1, y / 2);
    }
  }

  lemma {:induction false} OrZero(x: nat)
    ensures Or(x, 0) == x && Or(0, x) == x
  {
    if x > 0 {
      OrZero(x / 2);
    }
  }
}
