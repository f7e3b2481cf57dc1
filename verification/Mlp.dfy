// src/mlp.bpf.h: the fixed-point layers, as the kernel computes them and as they are meant.
module Mlp {
  import opened Words

  const TWO16: int := 0x1_0000
  const TWO31: int := 0x8000_0000
  const TWO32: int := 0x1_0000_0000
  const TWO47: int := 0x8000_0000_0000
  const TWO48: int := 0x1_0000_0000_0000
  const TWO63: int := 0x8000_0000_0000_0000

  /** Conversion to int32_t. */
  function Wrap32(v: int): int { (v + TWO31) % TWO32 - TWO31 }

  /** Conversion to int64_t. */
  function Wrap64(v: int): int { (v + TWO63) % TWO64 - TWO63 }

  /** Conversion keeps the value modulo 2^32 or 2^64 and brings it into the range of the type. */
  lemma WrapIs(v: int)
    ensures -0x8000_0000 <= Wrap32(v) < 0x8000_0000 && (v - Wrap32(v)) % 0x1_0000_0000 == 0
    ensures -0x8000_0000_0000_0000 <= Wrap64(v) < 0x8000_0000_0000_0000
    ensures (v - Wrap64(v)) % 0x1_0000_0000_0000_0000 == 0
  {
  }

  // ----- what the three routines compute -----

  /** The first n products of the row that starts at `base`. */
  function Dot(w: seq<int>, x: seq<int>, base: nat, n: nat): int
    requires base + n <= |w| && n <= |x|
  {
    if n == 0 then 0 else Dot(w, x, base, n - 1) + w[base + n - 1] * x[n - 1]
  }

  predicate Shape(w: seq<int>, x: seq<int>, m: nat, n: nat) { |w| == m * n && n <= |x| }

  lemma RowInRange(m: nat, n: nat, i: nat)
    requires i < m
    ensures 0 <= i * n && i * n + n <= m * n
  {
    assert (i + 1) * n <= m * n by { MulUp(i + 1, m, n); }
  }

  function RowDot(w: seq<int>, x: seq<int>, m: nat, n: nat, i: nat): int
    requires Shape(w, x, m, n) && i < m
  {
    RowInRange(m, n, i);
    Dot(w, x, i * n, n)
  }

  /** Cell i of linear_layer: the 64-bit sum shifted right by 16, truncated to 32 bits. */
  function LinearCell(w: seq<int>, x: seq<int>, m: nat, n: nat, i: nat): int
    requires Shape(w, x, m, n) && i < m
  {
    Wrap32(Wrap64(RowDot(w, x, m, n, i)) / TWO16)
  }

  function Linear(w: seq<int>, x: seq<int>, m: nat, n: nat): (y: seq<int>)
    requires Shape(w, x, m, n)
    ensures |y| == m
  {
    seq(m, i requires 0 <= i < m => LinearCell(w, x, m, n, i))
  }

  function Relu(x: seq<int>): (y: seq<int>)
    ensures |y| == |x| && forall i :: 0 <= i < |x| ==> y[i] == if x[i] > 0 then x[i] else 0
  {
    seq(|x|, i requires 0 <= i < |x| => if x[i] > 0 then x[i] else 0)
  }

  /** The unsigned quotient of standard_scaler, for a - b. */
  function Quotient(a: int, b: int, scale: int): int
    requires WrapU64(scale) != 0
  {
    WrapU64(WrapU64(WrapU64(a) - WrapU64(b)) * TWO16) / WrapU64(scale)
  }

  /** Cell i of standard_scaler. */
  function ScaleCell(x: int, mean: int, scale: int): int
    requires WrapU64(scale) != 0
  {
    if mean > x then Wrap32(-Wrap32(Quotient(mean, x, scale))) else Wrap32(Quotient(x, mean, scale))
  }

  // ----- the routines -----

  /** linear_layer, from x into the first m cells of y. */
  method LinearLayer(w: seq<int>, x: array<int>, y: array<int>, m: nat, n: nat)
    requires x != y && |w| == m * n && n <= x.Length && m <= y.Length
    modifies y
    ensures y[..m] == Linear(w, x[..], m, n)
    ensures y[m..] == old(y[m..])
  {
    var i := 0;
    while i < m
      invariant i <= m && x[..] == old(x[..])
      invariant forall k :: 0 <= k < i ==> y[k] == LinearCell(w, x[..], m, n, k)
      invariant y[m..] == old(y[m..])
    {
      RowInRange(m, n, i);
      var sum := 0;
      var j := 0;
      while j < n
        invariant j <= n && sum == Wrap64(Dot(w, x[..], i * n, j))
        modifies {}
      {
        WrapAdd(Dot(w, x[..], i * n, j), w[i * n + j] * x[j]);
        sum := Wrap64(sum + w[i * n + j] * x[j]);
        j := j + 1;
      }
      y[i] := Wrap32(sum / TWO16);
      i := i + 1;
    }
    assert y[..m] == Linear(w, x[..], m, n);
  }

  /** Adding in 64 bits is adding and truncating once. */
  lemma WrapAdd(a: int, b: int)
    ensures Wrap64(Wrap64(a) + b) == Wrap64(a + b)
  {
    var q := (a + TWO63) / TWO64;
    assert Wrap64(a) == a - q * TWO64;
    WrapShift(a + b, q);
  }

  lemma WrapShift(v: int, q: int)
    ensures Wrap64(v - q * TWO64) == Wrap64(v)
  {
    var d := (v + TWO63) / TWO64;
    var r := (v + TWO63) % TWO64;
    assert v - q * TWO64 + TWO63 == (d - q) * TWO64 + r;
  }

  /** relu, in place. */
  method ReluInPlace(tensor: array<int>)
    modifies tensor
    ensures tensor[..] == Relu(old(tensor[..]))
  {
    var i := 0;
    while i < tensor.Length
      invariant i <= tensor.Length
      invariant forall k :: 0 <= k < i ==> tensor[k] == Relu(old(tensor[..]))[k]
      invariant forall k :: i <= k < tensor.Length ==> tensor[k] == old(tensor[k])
    {
      tensor[i] := if tensor[i] > 0 then tensor[i] else 0;
      i := i + 1;
    }
  }

  /** standard_scaler, into the first n cells of y. */
  method StandardScaler(x: seq<int>, y: array<int>, mean: seq<int>, scale: seq<int>, n: nat)
    requires |x| == |mean| == |scale| == n <= y.Length
    requires forall i :: 0 <= i < n ==> WrapU64(scale[i]) != 0
    modifies y
    ensures forall i :: 0 <= i < n ==> y[i] == ScaleCell(x[i], mean[i], scale[i])
    ensures y[n..] == old(y[n..])
  {
    var i := 0;
    while i < n
      invariant i <= n
      invariant forall k :: 0 <= k < i ==> y[k] == ScaleCell(x[k], mean[k], scale[k])
      invariant y[n..] == old(y[n..])
    {
      if mean[i] > x[i] {
        y[i] := Wrap32(-Wrap32(WrapU64(WrapU64(WrapU64(mean[i]) - WrapU64(x[i])) * TWO16) / WrapU64(scale[i])));
      } else {
        y[i] := Wrap32(WrapU64(WrapU64(WrapU64(x[i]) - WrapU64(mean[i])) * TWO16) / WrapU64(scale[i]));
      }
      i := i + 1;
    }
  }

  // ----- no overflow -----

  function Abs(v: int): nat { if v < 0 then -v else v }

  /** The L1 norm of a row. */
  function Norm(w: seq<int>, base: nat, n: nat): nat
    requires base + n <= |w|
  {
    if n == 0 then 0 else Norm(w, base, n - 1) + Abs(w[base + n - 1])
  }

  predicate RowNorms(w: seq<int>, m: nat, n: nat, k: nat) {
    |w| == m * n && forall i :: 0 <= i < m ==> i * n + n <= |w| && Norm(w, i * n, n) <= k
  }

  predicate AllWithin(x: seq<int>, b: nat) { forall j :: 0 <= j < |x| ==> Abs(x[j]) <= b }

  lemma {:induction false} DotBound(w: seq<int>, x: seq<int>, base: nat, n: nat, b: nat)
    requires base + n <= |w| && n <= |x| && AllWithin(x, b)
    ensures Abs(Dot(w, x, base, n)) <= Norm(w, base, n) * b
  {
    if n > 0 {
      DotBound(w, x, base, n - 1, b);
      BoundStep(Dot(w, x, base, n - 1), w[base + n - 1], x[n - 1], Norm(w, base, n - 1), b);
    }
  }

  lemma BoundStep(d: int, a: int, v: int, norm: nat, b: nat)
    requires Abs(d) <= norm * b && Abs(v) <= b
    ensures Abs(d + a * v) <= (norm + Abs(a)) * b
  {
    AbsProduct(a, v, b);
    assert (norm + Abs(a)) * b == norm * b + Abs(a) * b;
  }

  lemma AbsProduct(a: int, v: int, b: nat)
    requires Abs(v) <= b
    ensures Abs(a * v) <= Abs(a) * b
  {
    assert Abs(a * v) == Abs(a) * Abs(v);
    MulUp(Abs(v), b, Abs(a));
  }

  /** The intended cell: the rational sum rounded down to a multiple of 2^-16. */
  function IdealCell(w: seq<int>, x: seq<int>, m: nat, n: nat, i: nat): int
    requires Shape(w, x, m, n) && i < m
  {
    RowDot(w, x, m, n, i) / TWO16
  }

  /** How large the outputs of a layer with row norms up to k can get. */
  function NextBound(k: nat, b: nat): nat { k * b / TWO16 + 1 }

  lemma FloorBound(s: int, t: nat)
    requires Abs(s) <= t < TWO47
    ensures Wrap32(Wrap64(s) / TWO16) == s / TWO16
    ensures Abs(s / TWO16) <= t / TWO16 + 1
  {
  }

  /** Under an L1 bound the 64-bit sum and the 32-bit result do not overflow. */
  lemma NoOverflow(w: seq<int>, x: seq<int>, m: nat, n: nat, i: nat, k: nat, b: nat)
    requires Shape(w, x, m, n) && i < m && RowNorms(w, m, n, k) && AllWithin(x, b) && k * b < TWO47
    ensures LinearCell(w, x, m, n, i) == IdealCell(w, x, m, n, i)
    ensures Abs(IdealCell(w, x, m, n, i)) <= NextBound(k, b)
  {
    RowInRange(m, n, i);
    DotBound(w, x, i * n, n, b);
    MulUp(Norm(w, i * n, n), k, b);
    FloorBound(RowDot(w, x, m, n, i), k * b);
  }

  // ----- the error of one layer -----

  ghost function RAbs(v: real): real { if v < 0.0 then -v else v }

  ghost function RSum(t: seq<real>, n: nat): real
    requires n <= |t|
  {
    if n == 0 then 0.0 else RSum(t, n - 1) + t[n - 1]
  }

  /** The products of a row with real inputs. */
  ghost function Terms(w: seq<int>, u: seq<real>, base: nat, n: nat): (t: seq<real>)
    requires base + n <= |w| && n <= |u|
    ensures |t| == n && forall j :: 0 <= j < n ==> t[j] == w[base + j] as real * u[j]
  {
    seq(n, j requires 0 <= j < n => w[base + j] as real * u[j])
  }

  /** The exact row product over real inputs, in units of 2^-16. */
  ghost function RDot(w: seq<int>, u: seq<real>, base: nat, n: nat): real
    requires base + n <= |w| && n <= |u|
  {
    RSum(Terms(w, u, base, n), n)
  }

  ghost function ExactCell(w: seq<int>, u: seq<real>, m: nat, n: nat, i: nat): real
    requires |w| == m * n && n <= |u| && i < m
  {
    RowInRange(m, n, i);
    RDot(w, u, i * n, n) / 65536.0
  }

  ghost predicate Near(x: seq<int>, u: seq<real>, n: nat, e: real) {
    n <= |x| && n <= |u| && forall j :: 0 <= j < n ==> RAbs(x[j] as real - u[j]) <= e
  }

  lemma {:induction false} SumError(p: seq<real>, q: seq<real>, b: seq<real>, n: nat)
    requires n <= |p| && n <= |q| && n <= |b|
    requires forall j :: 0 <= j < n ==> RAbs(p[j] - q[j]) <= b[j]
    ensures RAbs(RSum(p, n) - RSum(q, n)) <= RSum(b, n)
  {
    if n > 0 {
      SumError(p, q, b, n - 1);
    }
  }

  ghost function Reals(x: seq<int>): (r: seq<real>)
    ensures |r| == |x| && forall j :: 0 <= j < |x| ==> r[j] == x[j] as real
  {
    seq(|x|, j requires 0 <= j < |x| => x[j] as real)
  }

  lemma {:induction false} DotAsSum(w: seq<int>, x: seq<int>, base: nat, n: nat, t: seq<real>)
    requires base + n <= |w| && n <= |x| && n <= |t|
    requires forall j :: 0 <= j < n ==> t[j] == w[base + j] as real * x[j] as real
    ensures Dot(w, x, base, n) as real == RSum(t, n)
  {
    if n > 0 {
      DotAsSum(w, x, base, n - 1, t);
      ProductAsReal(w[base + n - 1], x[n - 1]);
    }
  }

  lemma ProductAsReal(a: int, b: int)
    ensures (a * b) as real == a as real * b as real
  {
  }

  /** |w_j| * e for every j of a row, and their sum. */
  lemma {:induction false} NormAsSum(w: seq<int>, base: nat, n: nat, e: real, b: seq<real>)
    requires base + n <= |w| && n <= |b|
    requires forall j :: 0 <= j < n ==> b[j] == Abs(w[base + j]) as real * e
    ensures RSum(b, n) == Norm(w, base, n) as real * e
  {
    if n > 0 {
      NormAsSum(w, base, n - 1, e, b);
      DistributeReal(Norm(w, base, n - 1), Abs(w[base + n - 1]), e);
    }
  }

  lemma DistributeReal(a: nat, b: nat, e: real)
    ensures (a + b) as real * e == a as real * e + b as real * e
  {
  }

  lemma ProductError(a: int, p: real, u: real, e: real)
    requires RAbs(p - u) <= e
    ensures RAbs(a as real * p - a as real * u) <= Abs(a) as real * e
  {
    RealProduct(a, p - u, e);
    assert a as real * p - a as real * u == a as real * (p - u);
  }

  ghost function Budgets(w: seq<int>, base: nat, n: nat, e: real): (b: seq<real>)
    requires base + n <= |w|
    ensures |b| == n && forall j :: 0 <= j < n ==> b[j] == Abs(w[base + j]) as real * e
  {
    seq(n, j requires 0 <= j < n => Abs(w[base + j]) as real * e)
  }

  lemma TermError(w: seq<int>, x: seq<int>, u: seq<real>, base: nat, n: nat, e: real, j: nat)
    requires base + n <= |w| && n <= |x| && n <= |u| && j < n && RAbs(x[j] as real - u[j]) <= e
    ensures RAbs(Terms(w, Reals(x), base, n)[j] - Terms(w, u, base, n)[j]) <= Budgets(w, base, n, e)[j]
  {
    var a, v := w[base + j], Reals(x)[j];
    assert Terms(w, Reals(x), base, n)[j] == a as real * v;
    assert Terms(w, u, base, n)[j] == a as real * u[j];
    ProductError(a, v, u[j], e);
  }

  lemma DotError(w: seq<int>, x: seq<int>, u: seq<real>, base: nat, n: nat, e: real)
    requires base + n <= |w| && Near(x, u, n, e)
    ensures RAbs(Dot(w, x, base, n) as real - RDot(w, u, base, n)) <= Norm(w, base, n) as real * e
  {
    DotAsRDot(w, x, base, n);
    NormAsSum(w, base, n, e, Budgets(w, base, n, e));
    TermErrors(w, x, u, base, n, e);
  }

  lemma DotAsRDot(w: seq<int>, x: seq<int>, base: nat, n: nat)
    requires base + n <= |w| && n <= |x|
    ensures Dot(w, x, base, n) as real == RDot(w, Reals(x), base, n)
  {
    DotAsSum(w, x, base, n, Terms(w, Reals(x), base, n));
  }

  lemma TermErrors(w: seq<int>, x: seq<int>, u: seq<real>, base: nat, n: nat, e: real)
    requires base + n <= |w| && Near(x, u, n, e)
    ensures RAbs(RDot(w, Reals(x), base, n) - RDot(w, u, base, n)) <= RSum(Budgets(w, base, n, e), n)
  {
    forall j | 0 <= j < n
      ensures RAbs(Terms(w, Reals(x), base, n)[j] - Terms(w, u, base, n)[j]) <= Budgets(w, base, n, e)[j]
    {
      TermError(w, x, u, base, n, e, j);
    }
    SumError(Terms(w, Reals(x), base, n), Terms(w, u, base, n), Budgets(w, base, n, e), n);
  }

  lemma RealProduct(a: int, d: real, e: real)
    requires RAbs(d) <= e
    ensures RAbs(a as real * d) <= Abs(a) as real * e
  {
    var k := Abs(a) as real;
    assert RAbs(a as real * d) == k * RAbs(d);
    RealMonotone(RAbs(d), e, k);
  }

  lemma RealMonotone(a: real, b: real, k: real)
    requires a <= b && k >= 0.0
    ensures k * a <= k * b
  {
    assert k * (b - a) >= 0.0;
  }

  /** The error a layer with row norms up to k makes of an input error e: scaled, plus one unit for the shift. */
  ghost function NextError(k: nat, e: real): real { k as real * e / 65536.0 + 1.0 }

  lemma LayerError(w: seq<int>, x: seq<int>, u: seq<real>, m: nat, n: nat, i: nat, k: nat, e: real)
    requires Shape(w, x, m, n) && i < m && RowNorms(w, m, n, k) && e >= 0.0 && Near(x, u, n, e)
    ensures RAbs(IdealCell(w, x, m, n, i) as real - ExactCell(w, u, m, n, i)) <= NextError(k, e)
  {
    RowInRange(m, n, i);
    DotError(w, x, u, i * n, n, e);
    CellError(RowDot(w, x, m, n, i), RDot(w, u, i * n, n), Norm(w, i * n, n), k, e);
  }

  lemma CellError(s: int, t: real, c: nat, k: nat, e: real)
    requires RAbs(s as real - t) <= c as real * e && c <= k && e >= 0.0
    ensures RAbs((s / TWO16) as real - t / 65536.0) <= NextError(k, e)
  {
    RealMonotone(c as real, k as real, e);
    FloorError(s);
    var d := s as real - t;
    assert RAbs(d) <= c as real * e <= k as real * e;
    DivideBound(d, k as real * e);
    assert s as real / 65536.0 - t / 65536.0 == d / 65536.0;
  }

  lemma FloorError(s: int)
    ensures RAbs((s / TWO16) as real - s as real / 65536.0) < 1.0
  {
    var q, r := s / TWO16, s % TWO16;
    assert s as real == q as real * 65536.0 + r as real;
    assert s as real / 65536.0 == q as real + r as real / 65536.0;
  }

  lemma DivideBound(d: real, t: real)
    requires RAbs(d) <= t
    ensures RAbs(d / 65536.0) <= t / 65536.0
  {
  }

  /** ReLU does not expand errors. */
  lemma ReluError(x: int, u: real, e: real)
    requires RAbs(x as real - u) <= e
    ensures RAbs((if x > 0 then x else 0) as real - (if u > 0.0 then u else 0.0)) <= e
  {
  }

  // ----- the scaler -----

  /** The intended scaled feature: the quotient truncated toward zero, in units of 2^-16. */
  function IdealScale(x: int, mean: int, scale: int): int
    requires scale > 0
  {
    if mean > x then -((mean - x) * TWO16 / scale) else (x - mean) * TWO16 / scale
  }

  ghost function ExactScale(x: int, mean: int, scale: int): real
    requires scale > 0
  {
    (x - mean) as real * 65536.0 / scale as real
  }

  /** With a positive scale, a difference below 2^48 and a quotient that fits, nothing overflows. */
  lemma ScaleNoOverflow(x: int, mean: int, scale: int, b: nat)
    requires 0 < scale < TWO63 && Abs(x - mean) < TWO48 && -TWO63 <= x < TWO63 && -TWO63 <= mean < TWO63
    requires Abs(x - mean) * TWO16 / scale <= b < TWO31
    ensures WrapU64(scale) != 0
    ensures ScaleCell(x, mean, scale) == IdealScale(x, mean, scale)
    ensures Abs(IdealScale(x, mean, scale)) <= b
  {
    var hi, lo := if mean > x then mean else x, if mean > x then x else mean;
    PlainQuotient(hi, lo, scale);
    SmallFits((hi - lo) * TWO16 / scale, b);
  }

  lemma SmallFits(q: int, b: nat)
    requires q <= b < TWO31 && 0 <= q
    ensures Wrap32(q) == q && Wrap32(-q) == -q
  {
  }

  lemma PlainQuotient(hi: int, lo: int, scale: int)
    requires 0 < scale < TWO63 && 0 <= hi - lo < TWO48
    ensures WrapU64(scale) == scale
    ensures Quotient(hi, lo, scale) == (hi - lo) * TWO16 / scale && (hi - lo) * TWO16 / scale >= 0
  {
    WrapDifference(hi, lo);
    SmallWrap((hi - lo) * TWO16);
    SmallWrap(scale);
    DivNonneg((hi - lo) * TWO16, scale);
  }

  lemma SmallWrap(v: int)
    requires 0 <= v < TWO64
    ensures WrapU64(v) == v
  {
  }

  lemma DivNonneg(a: int, s: int)
    requires a >= 0 && s > 0
    ensures a / s >= 0
  {
  }

  lemma WrapDifference(a: int, b: int)
    requires 0 <= a - b < TWO64
    ensures WrapU64(WrapU64(a) - WrapU64(b)) == a - b
  {
    var qa, qb := a / TWO64, b / TWO64;
    assert WrapU64(a) - WrapU64(b) == (a - b) + (qb - qa) * TWO64;
  }

  lemma ScaleError(x: int, mean: int, scale: int)
    requires scale > 0
    ensures RAbs(IdealScale(x, mean, scale) as real - ExactScale(x, mean, scale)) <= 1.0
  {
    var d := if mean > x then mean - x else x - mean;
    QuotientError(d * TWO16, scale);
    assert (d * TWO16) as real == d as real * 65536.0;
    if mean > x {
      assert ExactScale(x, mean, scale) == -(d as real * 65536.0 / scale as real) by {
        NegateQuotient(d as real * 65536.0, scale as real);
      }
    }
  }

  lemma NegateQuotient(a: real, s: real)
    requires s != 0.0
    ensures (-a) / s == -(a / s)
  {
  }

  lemma QuotientError(a: nat, s: nat)
    requires s > 0
    ensures RAbs((a / s) as real - a as real / s as real) <= 1.0
  {
    var q, r := a / s, a % s;
    var sr := s as real;
    assert a == q * s + r;
    assert a as real == q as real * sr + r as real;
    assert a as real / sr == q as real + r as real / sr by { SplitQuotient(q as real, r as real, sr); }
    assert 0.0 <= r as real / sr <= 1.0 by { UnitQuotient(r as real, sr); }
  }

  lemma SplitQuotient(q: real, r: real, s: real)
    requires s > 0.0
    ensures (q * s + r) / s == q + r / s
  {
  }

  lemma UnitQuotient(r: real, s: real)
    requires 0.0 <= r <= s && s > 0.0
    ensures 0.0 <= r / s <= 1.0
  {
  }
}
