// src/xdp.bpf.c, src/params.bpf.h: the network, its six tail-called stages, and what they compute.
module Inference {
  import opened Prelude
  import opened Words
  import opened Mlp

  const N0: nat := 6
  const N1: nat := 32
  const N2: nat := 32
  const N3: nat := 2

  /** struct Net. */
  datatype Net = Net(layer0: seq<int>, layer1: seq<int>, layer2: seq<int>, mean: seq<int>, scale: seq<int>)

  predicate WellSized(net: Net) {
    && |net.layer0| == N1 * N0 && |net.layer1| == N2 * N1 && |net.layer2| == N3 * N2
    && |net.mean| == N0 && |net.scale| == N0
  }

  /** No scale is zero, so the scaler's division is defined. */
  predicate Loaded(net: Net) {
    WellSized(net) && forall i :: 0 <= i < N0 ==> WrapU64(net.scale[i]) != 0
  }

  // ----- the network as one function -----

  function Scaled(net: Net, x: seq<int>): (y: seq<int>)
    requires Loaded(net) && |x| == N0
    ensures |y| == N0
  {
    seq(N0, i requires 0 <= i < N0 => ScaleCell(x[i], net.mean[i], net.scale[i]))
  }

  function Hidden1(net: Net, x: seq<int>): (y: seq<int>)
    requires Loaded(net) && |x| == N0
    ensures |y| == N1
  {
    Relu(Linear(net.layer0, Scaled(net, x), N1, N0))
  }

  function Hidden2(net: Net, x: seq<int>): (y: seq<int>)
    requires Loaded(net) && |x| == N0
    ensures |y| == N2
  {
    Relu(Linear(net.layer1, Hidden1(net, x), N2, N1))
  }

  /** The three-layer perceptron on six features. */
  function Forward(net: Net, x: seq<int>): (y: seq<int>)
    requires Loaded(net) && |x| == N0
    ensures |y| == N3
  {
    Linear(net.layer2, Hidden2(net, x), N3, N2)
  }

  function Label(out: seq<int>): int
    requires |out| >= 2
  {
    if out[0] > out[1] then 0 else 1
  }

  // ----- the stages -----

  /** hidden1 and hidden2 of a flow's map entry. */
  datatype Buffers = Buffers(h1: seq<int>, h2: seq<int>)

  predicate Sized(b: Buffers) { |b.h1| == N1 && |b.h2| == N2 }

  /** Only the scaler divides: the other programs are defined whatever the slot holds. */
  predicate Defined(k: nat, net: Net) { WellSized(net) && (k == 0 ==> Loaded(net)) }

  /** What program k of the tail-call table does to the buffers. */
  function Stage(k: nat, net: Net, x: seq<int>, b: Buffers): (r: Buffers)
    requires Defined(k, net) && |x| == N0 && Sized(b)
    ensures Sized(r)
  {
    match k
    case 0 => b.(h2 := Scaled(net, x) + b.h2[N0..])
    case 1 => b.(h1 := Linear(net.layer0, b.h2, N1, N0))
    case 2 => b.(h1 := Relu(b.h1))
    case 3 => b.(h2 := Linear(net.layer1, b.h1, N2, N1))
    case 4 => b.(h2 := Relu(b.h2))
    case 5 => b.(h1 := Linear(net.layer2, b.h2, N3, N2) + b.h1[N3..])
    case _ => b
  }

  const STAGES: nat := 6

  /** Before program k the cells it will read hold the intended values; after the last one the outputs do. */
  ghost predicate Holds(k: nat, net: Net, x: seq<int>, b: Buffers)
    requires Loaded(net) && |x| == N0 && Sized(b)
  {
    match k
    case 0 => true
    case 1 => b.h2[..N0] == Scaled(net, x)
    case 2 => b.h1 == Linear(net.layer0, Scaled(net, x), N1, N0)
    case 3 => b.h1 == Hidden1(net, x)
    case 4 => b.h2 == Linear(net.layer1, Hidden1(net, x), N2, N1)
    case 5 => b.h2 == Hidden2(net, x)
    case _ => b.h1[..N3] == Forward(net, x)
  }

  lemma {:induction false} DotPrefix(w: seq<int>, x: seq<int>, y: seq<int>, base: nat, n: nat)
    requires base + n <= |w| && n <= |x| && n <= |y| && x[..n] == y[..n]
    ensures Dot(w, x, base, n) == Dot(w, y, base, n)
  {
    if n > 0 {
      assert x[..n][..n - 1] == x[..n - 1] && y[..n][..n - 1] == y[..n - 1];
      assert x[n - 1] == x[..n][n - 1] == y[n - 1];
      DotPrefix(w, x, y, base, n - 1);
    }
  }

  lemma LinearPrefix(w: seq<int>, x: seq<int>, y: seq<int>, m: nat, n: nat)
    requires Shape(w, x, m, n) && Shape(w, y, m, n) && x[..n] == y[..n]
    ensures Linear(w, x, m, n) == Linear(w, y, m, n)
  {
    forall i | 0 <= i < m
      ensures Linear(w, x, m, n)[i] == Linear(w, y, m, n)[i]
    {
      RowInRange(m, n, i);
      DotPrefix(w, x, y, i * n, n);
    }
  }

  /** Each program reads only cells that the programs before it defined. */
  lemma StageHolds(k: nat, net: Net, x: seq<int>, b: Buffers)
    requires Loaded(net) && |x| == N0 && Sized(b) && k < STAGES && Holds(k, net, x, b)
    ensures Holds(k + 1, net, x, Stage(k, net, x, b))
  {
    if k == 1 {
      LinearPrefix(net.layer0, b.h2, Scaled(net, x), N1, N0);
    }
  }

  function RunFrom(k: nat, net: Net, x: seq<int>, b: Buffers): (r: Buffers)
    requires Loaded(net) && |x| == N0 && Sized(b)
    ensures Sized(r)
    decreases STAGES - k
  {
    if k >= STAGES then b else RunFrom(k + 1, net, x, Stage(k, net, x, b))
  }

  lemma {:induction false} RunHolds(k: nat, net: Net, x: seq<int>, b: Buffers)
    requires Loaded(net) && |x| == N0 && Sized(b) && k <= STAGES && Holds(k, net, x, b)
    ensures Holds(STAGES, net, x, RunFrom(k, net, x, b))
    decreases STAGES - k
  {
    if k < STAGES {
      StageHolds(k, net, x, b);
      RunHolds(k + 1, net, x, Stage(k, net, x, b));
    }
  }

  /** The chain computes Forward whatever the buffers held before. */
  lemma ChainIsForward(net: Net, x: seq<int>, b: Buffers)
    requires Loaded(net) && |x| == N0 && Sized(b)
    ensures RunFrom(0, net, x, b).h1[..N3] == Forward(net, x)
  {
    RunHolds(0, net, x, b);
  }

  // ----- the programs, in place on a map entry -----

  /** The part of a flow's map entry the programs work on. */
  class FlowEntry {
    var features: seq<int>
    var nnIdx: int
    const hidden1: array<int>
    const hidden2: array<int>

    constructor (features: seq<int>)
      requires |features| == N0
      ensures Valid() && this.features == features && fresh(hidden1) && fresh(hidden2)
    {
      this.features := features;
      nnIdx := 0;
      hidden1 := new int[N1];
      hidden2 := new int[N2];
    }

    ghost predicate Valid()
      reads this
    {
      |features| == N0 && hidden1 != hidden2 && hidden1.Length == N1 && hidden2.Length == N2
    }

    ghost function Cells(): Buffers
      reads this, hidden1, hidden2
    {
      Buffers(hidden1[..], hidden2[..])
    }

    /** Program k of the table; it tail-calls program k + 1. The lookup of an absent slot ends the chain. */
    method RunProg(k: nat, nets: seq<Net>) returns (found: bool)
      requires Valid() && k < STAGES && (0 <= nnIdx < |nets| ==> Defined(k, nets[nnIdx]))
      modifies hidden1, hidden2
      ensures Valid()
      ensures found <==> (k == 2 || k == 4 || 0 <= nnIdx < |nets|)
      ensures !found ==> Cells() == old(Cells())
      ensures found && 0 <= nnIdx < |nets| ==> Cells() == Stage(k, nets[nnIdx], features, old(Cells()))
      ensures k == 2 ==> Cells() == old(Cells()).(h1 := Relu(old(Cells()).h1))
      ensures k == 4 ==> Cells() == old(Cells()).(h2 := Relu(old(Cells()).h2))
    {
      ghost var before := Cells();
      if k == 2 {
        ReluInPlace(hidden1);
        return true;
      } else if k == 4 {
        ReluInPlace(hidden2);
        return true;
      }
      if !(0 <= nnIdx < |nets|) {
        return false;
      }
      var net := nets[nnIdx];
      if k == 0 {
        StandardScaler(features, hidden2, net.mean, net.scale, N0);
        assert hidden2[..] == Scaled(net, features) + before.h2[N0..];
      } else if k == 1 {
        LinearLayer(net.layer0, hidden2, hidden1, N1, N0);
        assert hidden1[..] == hidden1[..N1];
      } else if k == 3 {
        LinearLayer(net.layer1, hidden1, hidden2, N2, N1);
        assert hidden2[..] == hidden2[..N2];
      } else {
        LinearLayer(net.layer2, hidden2, hidden1, N3, N2);
        assert hidden1[..] == Linear(net.layer2, before.h2, N3, N2) + before.h1[N3..];
      }
      return true;
    }

    /** xdp_prog after a FIN or RST: snapshot the index, then the tail calls; the label the last one prints. */
    method Infer(nnIndex: int, nets: seq<Net>) returns (printed: Option<int>)
      requires Valid() && (0 <= nnIndex < |nets| ==> Loaded(nets[nnIndex]))
      modifies this`nnIdx, hidden1, hidden2
      ensures Valid() && nnIdx == nnIndex
      ensures printed.Some? <==> 0 <= nnIndex < |nets|
      ensures printed.Some? ==>
        && Cells() == RunFrom(0, nets[nnIndex], features, old(Cells()))
        && hidden1[..N3] == Forward(nets[nnIndex], features)
        && printed.value == Label(Forward(nets[nnIndex], features))
    {
      nnIdx := nnIndex;
      ghost var start := Cells();
      var k := 0;
      while k < STAGES
        invariant k <= STAGES && Valid() && nnIdx == nnIndex
        invariant k > 0 ==> 0 <= nnIdx < |nets|
        invariant 0 <= nnIdx < |nets| ==>
          RunFrom(k, nets[nnIdx], features, Cells()) == RunFrom(0, nets[nnIdx], features, start)
        modifies hidden1, hidden2
      {
        var found := RunProg(k, nets);
        if !found {
          return None;
        }
        k := k + 1;
      }
      ChainIsForward(nets[nnIdx], features, start);
      return Some(if hidden1[0] > hidden1[1] then 0 else 1);
    }
  }

  // ----- the error of the whole network -----

  ghost function ExactLinear(w: seq<int>, u: seq<real>, m: nat, n: nat): (y: seq<real>)
    requires |w| == m * n && n <= |u|
    ensures |y| == m
  {
    seq(m, i requires 0 <= i < m => ExactCell(w, u, m, n, i))
  }

  ghost function ExactRelu(u: seq<real>): (y: seq<real>)
    ensures |y| == |u|
  {
    seq(|u|, i requires 0 <= i < |u| => if u[i] > 0.0 then u[i] else 0.0)
  }

  ghost predicate PositiveScale(net: Net) {
    WellSized(net) && forall i :: 0 <= i < N0 ==> 0 < net.scale[i] < TWO63
  }

  /** The same network over the rationals, in units of 2^-16. */
  ghost function ExactForward(net: Net, x: seq<int>): (y: seq<real>)
    requires PositiveScale(net) && |x| == N0
    ensures |y| == N3
  {
    var u := seq(N0, i requires 0 <= i < N0 => ExactScale(x[i], net.mean[i], net.scale[i]));
    var h1 := ExactRelu(ExactLinear(net.layer0, u, N1, N0));
    var h2 := ExactRelu(ExactLinear(net.layer1, h1, N2, N1));
    ExactLinear(net.layer2, h2, N3, N2)
  }

  /** Bounds on the features and on the rows' L1 norms under which nothing overflows. */
  datatype Limits = Limits(input: nat, k0: nat, k1: nat, k2: nat)

  ghost predicate FeaturesOk(net: Net, x: seq<int>, b: nat) {
    && PositiveScale(net) && |x| == N0 && b < TWO31
    && forall i :: 0 <= i < N0 ==> FeatureOk(x[i], net.mean[i], net.scale[i], b)
  }

  ghost predicate FeatureOk(x: int, mean: int, scale: int, b: nat)
    requires scale > 0
  {
    && -TWO63 <= x < TWO63 && -TWO63 <= mean < TWO63 && Abs(x - mean) < TWO48
    && Abs(x - mean) * TWO16 / scale <= b
  }

  ghost predicate InLimits(net: Net, x: seq<int>, l: Limits) {
    && FeaturesOk(net, x, l.input)
    && RowNorms(net.layer0, N1, N0, l.k0) && RowNorms(net.layer1, N2, N1, l.k1) && RowNorms(net.layer2, N3, N2, l.k2)
    && l.k0 * l.input < TWO47
    && l.k1 * NextBound(l.k0, l.input) < TWO47
    && l.k2 * NextBound(l.k1, NextBound(l.k0, l.input)) < TWO47
  }

  /** The bound on the final error, in units of 2^-16, composed layer by layer from one unit of input error. */
  ghost function TotalError(l: Limits): real {
    NextError(l.k2, NextError(l.k1, NextError(l.k0, 1.0)))
  }

  lemma LimitsLoaded(net: Net, x: seq<int>, b: nat)
    requires FeaturesOk(net, x, b)
    ensures Loaded(net)
  {
  }

  lemma ScaledNear(net: Net, x: seq<int>, b: nat)
    requires FeaturesOk(net, x, b)
    ensures Loaded(net) && AllWithin(Scaled(net, x), b)
    ensures Near(Scaled(net, x), seq(N0, i requires 0 <= i < N0 => ExactScale(x[i], net.mean[i], net.scale[i])), N0, 1.0)
  {
    LimitsLoaded(net, x, b);
    forall i | 0 <= i < N0
      ensures Abs(Scaled(net, x)[i]) <= b
      ensures RAbs(Scaled(net, x)[i] as real - ExactScale(x[i], net.mean[i], net.scale[i])) <= 1.0
    {
      assert FeatureOk(x[i], net.mean[i], net.scale[i], b);
      ScaleNoOverflow(x[i], net.mean[i], net.scale[i], b);
      ScaleError(x[i], net.mean[i], net.scale[i]);
    }
  }

  /** One linear layer: no overflow, bounded outputs, bounded error. */
  lemma LinearNear(w: seq<int>, x: seq<int>, u: seq<real>, m: nat, n: nat, k: nat, b: nat, e: real)
    requires Shape(w, x, m, n) && n <= |u| && RowNorms(w, m, n, k) && AllWithin(x, b) && k * b < TWO47
    requires e >= 0.0 && Near(x, u, n, e)
    ensures AllWithin(Linear(w, x, m, n), NextBound(k, b))
    ensures Near(Linear(w, x, m, n), ExactLinear(w, u, m, n), m, NextError(k, e))
  {
    forall i | 0 <= i < m
      ensures Abs(Linear(w, x, m, n)[i]) <= NextBound(k, b)
      ensures RAbs(Linear(w, x, m, n)[i] as real - ExactLinear(w, u, m, n)[i]) <= NextError(k, e)
    {
      NoOverflow(w, x, m, n, i, k, b);
      LayerError(w, x, u, m, n, i, k, e);
    }
  }

  lemma ReluNear(x: seq<int>, u: seq<real>, b: nat, e: real)
    requires |x| == |u| && AllWithin(x, b) && Near(x, u, |x|, e)
    ensures AllWithin(Relu(x), b) && Near(Relu(x), ExactRelu(u), |x|, e)
  {
  }

  lemma NonnegError(k: nat, e: real)
    requires e >= 0.0
    ensures NextError(k, e) >= 0.0
  {
    RealMonotone(0.0, e, k as real);
  }

  /** The kernel's outputs stay within TotalError of the exact ones. */
  lemma ForwardNear(net: Net, x: seq<int>, l: Limits)
    requires InLimits(net, x, l)
    ensures Loaded(net) && Near(Forward(net, x), ExactForward(net, x), N3, TotalError(l))
  {
    var u := seq(N0, i requires 0 <= i < N0 => ExactScale(x[i], net.mean[i], net.scale[i]));
    ScaledNear(net, x, l.input);
    var s := Scaled(net, x);
    var y1, v1 := Linear(net.layer0, s, N1, N0), ExactLinear(net.layer0, u, N1, N0);
    var b1, e1 := NextBound(l.k0, l.input), NextError(l.k0, 1.0);
    LinearNear(net.layer0, s, u, N1, N0, l.k0, l.input, 1.0);
    ReluNear(y1, v1, b1, e1);
    NonnegError(l.k0, 1.0);
    SecondLayers(net, x, l, Relu(y1), ExactRelu(v1), b1, e1);
  }

  lemma SecondLayers(net: Net, x: seq<int>, l: Limits, h1: seq<int>, u1: seq<real>, b1: nat, e1: real)
    requires WellSized(net) && |h1| == N1 && |u1| == N1
    requires RowNorms(net.layer1, N2, N1, l.k1) && RowNorms(net.layer2, N3, N2, l.k2)
    requires l.k1 * b1 < TWO47 && l.k2 * NextBound(l.k1, b1) < TWO47
    requires AllWithin(h1, b1) && e1 >= 0.0 && Near(h1, u1, N1, e1)
    ensures Near(Linear(net.layer2, Relu(Linear(net.layer1, h1, N2, N1)), N3, N2),
                 ExactLinear(net.layer2, ExactRelu(ExactLinear(net.layer1, u1, N2, N1)), N3, N2),
                 N3, NextError(l.k2, NextError(l.k1, e1)))
  {
    var y2, v2 := Linear(net.layer1, h1, N2, N1), ExactLinear(net.layer1, u1, N2, N1);
    var b2, e2 := NextBound(l.k1, b1), NextError(l.k1, e1);
    LinearNear(net.layer1, h1, u1, N2, N1, l.k1, b1, e1);
    ReluNear(y2, v2, b2, e2);
    NonnegError(l.k1, e1);
    LinearNear(net.layer2, Relu(y2), ExactRelu(v2), N3, N2, l.k2, b2, e2);
  }

  /** When the exact outputs differ by more than twice the error bound, the label is the exact argmax. */
  lemma LabelIsArgmax(net: Net, x: seq<int>, l: Limits)
    requires InLimits(net, x, l)
    ensures Loaded(net)
    ensures var o := ExactForward(net, x);
      RAbs(o[0] - o[1]) > 2.0 * TotalError(l) ==> (Label(Forward(net, x)) == 0 <==> o[0] > o[1])
  {
    ForwardNear(net, x, l);
    var o, y := ExactForward(net, x), Forward(net, x);
    assert RAbs(y[0] as real - o[0]) <= TotalError(l) && RAbs(y[1] as real - o[1]) <= TotalError(l);
  }
}
