// src/hot_updating.c against src/xdp.bpf.c: two updates during one inference.
module HotUpdateTorn {
  import opened Prelude
  import opened Words
  import opened Mlp
  import opened Inference
  import opened HotUpdate

  /** The words of a network whose layers have one weight each: 1 in the first two, a and b in the rows of the last. */
  function Params(a: int, b: int): (s: seq<int>)
    ensures |s| == CELLS
  {
    seq(CELLS, k => Param(a, b, k))
  }

  function Param(a: int, b: int, k: int): int {
    if k == 0 || k == 192 || k >= 1286 then TWO16 else if k == A_CELL then a else if k == B_CELL then b else 0
  }

  const A_CELL: nat := 1216
  const B_CELL: nat := 1248

  const OLD: seq<int> := Params(0, 0)
  const NEW: seq<int> := Params(TWO16, TWO16)
  const FEATURES: seq<int> := [1, 0, 0, 0, 0, 0]

  // ----- what these networks compute -----

  lemma {:induction false} OneWeight(w: seq<int>, x: seq<int>, base: nat, n: nat)
    requires base + n <= |w| && 0 < n <= |x| && forall i :: base < i < base + n ==> w[i] == 0
    ensures Dot(w, x, base, n) == w[base] * x[0]
  {
    if n == 1 {
      assert Dot(w, x, base, 0) == 0;
    } else {
      OneWeight(w, x, base, n - 1);
    }
  }

  /** A cell whose row has one weight, on an input that starts with 1. */
  lemma OneCell(w: seq<int>, x: seq<int>, m: nat, n: nat, i: nat, a: int)
    requires Shape(w, x, m, n) && i < m && n > 0 && i * n + n <= |w| && x[0] == 1 && w[i * n] == a
    requires forall k :: i * n < k < i * n + n ==> w[k] == 0
    requires a == 0 || a == TWO16
    ensures LinearCell(w, x, m, n, i) == if a == 0 then 0 else 1
  {
    OneWeight(w, x, i * n, n);
  }

  lemma Layers(a: int, b: int)
    ensures var net := NetOf(Params(a, b));
      && Loaded(net) && net.layer0[0] == net.layer1[0] == TWO16 && net.layer2[0] == a && net.layer2[32] == b
      && net.mean[0] == 0 && net.scale[0] == TWO16
      && (forall k :: 0 < k < 192 ==> net.layer0[k] == 0)
      && (forall k :: 0 < k < 1024 ==> net.layer1[k] == 0)
      && forall k :: 0 < k < 64 && k != 32 ==> net.layer2[k] == 0
  {
    var p, net := Params(a, b), NetOf(Params(a, b));
    assert forall i :: 0 <= i < N0 ==> net.scale[i] == p[1286 + i] == TWO16;
    assert forall k :: 0 <= k < 192 ==> net.layer0[k] == p[k];
    assert forall k :: 0 <= k < 1024 ==> net.layer1[k] == p[192 + k];
    assert forall k :: 0 <= k < 64 ==> net.layer2[k] == p[1216 + k];
    assert net.mean[0] == p[1280];
  }

  lemma LabelOf(a: int, b: int)
    requires (a == 0 || a == TWO16) && (b == 0 || b == TWO16)
    ensures Loaded(NetOf(Params(a, b)))
    ensures Label(Forward(NetOf(Params(a, b)), FEATURES)) == if a > b then 0 else 1
  {
    var net := NetOf(Params(a, b));
    Layers(a, b);
    var x0 := Scaled(net, FEATURES);
    assert x0[0] == ScaleCell(1, 0, TWO16) == 1;
    OneCell(net.layer0, x0, N1, N0, 0, TWO16);
    var x1 := Hidden1(net, FEATURES);
    assert x1[0] == 1;
    OneCell(net.layer1, x1, N2, N1, 0, TWO16);
    var x2 := Hidden2(net, FEATURES);
    assert x2[0] == 1;
    OneCell(net.layer2, x2, N3, N2, 0, a);
    OneCell(net.layer2, x2, N3, N2, 1, b);
  }

  lemma TornParams()
    ensures OLD[A_CELL := NEW[A_CELL]] == Params(TWO16, 0)
  {
  }

  // ----- the run -----

  ghost function Below(n: nat): (s: set<nat>)
    ensures forall c: nat :: c in s <==> c < n
  {
    if n == 0 then {} else Below(n - 1) + {n - 1}
  }

  /** One more step at the end of a run. */
  lemma Extend(states: seq<State>, actions: seq<Action>, a: Action, t: State)
    requires Run(states, actions) && Next(states[|actions|], a, t)
    ensures Run(states + [t], actions + [a])
  {
    NextKeepsWellFormed(states[|actions|], a, t);
    var states', actions' := states + [t], actions + [a];
    forall k | 0 <= k < |actions'|
      ensures StepAt(states', actions', k)
    {
      assert k < |actions| ==> StepAt(states, actions, k);
    }
  }

  /** n words of the first session are written; slot 0 is still the old network. */
  ghost predicate Filling(states: seq<State>, actions: seq<Action>, n: nat) {
    && Run(states, actions) && |actions| == n + 1
    && states[0] == State([OLD, OLD], 0, Idle, map[])
    && (forall k :: 0 <= k < |actions| ==> Harmless(actions[k]))
    && states[n + 1].slots[0] == OLD && states[n + 1].idx == 0 && states[n + 1].chains == map[]
    && states[n + 1].up == Writing(1, NEW, Below(n))
  }

  /** No inference starts, and every session brings the new network. */
  ghost predicate Harmless(a: Action) { !a.Snapshot? && (a.ReadIndex? ==> a.words == NEW) }

  lemma {:induction false} Fill(n: nat) returns (states: seq<State>, actions: seq<Action>)
    requires n <= CELLS
    ensures Filling(states, actions, n)
  {
    if n == 0 {
      var s := State([OLD, OLD], 0, Idle, map[]);
      states, actions := [s, s.(up := Writing(1, NEW, {}))], [ReadIndex(NEW)];
      assert StepAt(states, actions, 0);
    } else {
      states, actions := Fill(n - 1);
      var s := states[n];
      var t := s.(slots := s.slots[1 := s.slots[1][n - 1 := NEW[n - 1]]],
                  up := Writing(1, NEW, s.up.written + {n - 1}));
      Extend(states, actions, WriteWord(n - 1), t);
      assert t.up.written == Below(n);
      states, actions := states + [t], actions + [WriteWord(n - 1)];
    }
  }

  /** A run in which the one inference, of flow f, has begun on the old network. */
  ghost predicate Begun(states: seq<State>, actions: seq<Action>, f: FlowId, i: nat) {
    && Run(states, actions) && i < |actions|
    && states[0] == State([OLD, OLD], 0, Idle, map[])
    && (forall k :: 0 <= k < |actions| && k != i ==> Harmless(actions[k]))
    && states[i].idx == 0 && states[i].slots[0] == OLD
    && actions[i].Snapshot? && actions[i].flow == f && actions[i].features == FEATURES
  }

  lemma ExtendBegun(states: seq<State>, actions: seq<Action>, f: FlowId, i: nat, a: Action, t: State)
    requires Begun(states, actions, f, i) && Next(states[|actions|], a, t) && Harmless(a)
    ensures Begun(states + [t], actions + [a], f, i)
  {
    Extend(states, actions, a, t);
  }

  /** The first session ends right after the snapshot. */
  lemma Begin(f: FlowId, bufs: Buffers) returns (states: seq<State>, actions: seq<Action>, i: nat)
    requires Sized(bufs)
    ensures Begun(states, actions, f, i) && |actions| == i + 2
    ensures var s := states[i + 2];
      s.idx == 1 && s.up.Idle? && s.slots[0] == OLD && s.chains == map[f := Chain(0, FEATURES, 0, bufs)]
  {
    states, actions := Fill(CELLS);
    i := |actions|;
    var s := states[i];
    var s1 := s.(chains := map[f := Chain(0, FEATURES, 0, bufs)]);
    Extend(states, actions, Snapshot(f, FEATURES, bufs), s1);
    states, actions := states + [s1], actions + [Snapshot(f, FEATURES, bufs)];
    var s2 := s1.(idx := 1, up := Idle);
    ExtendBegun(states, actions, f, i, Flip, s2);
    states, actions := states + [s2], actions + [Flip];
  }

  /** A word of the second session is in the slot of the inference, and n programs have run. */
  ghost predicate Torn(states: seq<State>, actions: seq<Action>, f: FlowId, i: nat, n: nat)
    requires Loaded(NetOf(Params(TWO16, 0)))
  {
    && Begun(states, actions, f, i)
    && var s := states[|actions|];
       && s.slots[0] == Params(TWO16, 0) && f in s.chains && s.chains[f].next == n
       && ChainHolds(s.chains[f], 0, FEATURES, NetOf(Params(TWO16, 0)))
  }

  /** The second session writes the first word that differs. */
  lemma Tear(f: FlowId) returns (states: seq<State>, actions: seq<Action>, i: nat)
    requires Loaded(NetOf(Params(TWO16, 0)))
    ensures Torn(states, actions, f, i, 0)
  {
    var bufs := Buffers(seq(N1, _ => 0), seq(N2, _ => 0));
    states, actions, i := Begin(f, bufs);
    var s3 := states[i + 2].(up := Writing(0, NEW, {}));
    ExtendBegun(states, actions, f, i, ReadIndex(NEW), s3);
    states, actions := states + [s3], actions + [ReadIndex(NEW)];
    var torn := OLD[A_CELL := NEW[A_CELL]];
    var s4 := s3.(slots := s3.slots[0 := torn], up := Writing(0, NEW, {} + {A_CELL}));
    ExtendBegun(states, actions, f, i, WriteWord(A_CELL), s4);
    states, actions := states + [s4], actions + [WriteWord(A_CELL)];
    TornParams();
  }

  lemma {:induction false} RunPrograms(f: FlowId, n: nat) returns (states: seq<State>, actions: seq<Action>, i: nat)
    requires n <= STAGES && Loaded(NetOf(Params(TWO16, 0)))
    ensures Torn(states, actions, f, i, n)
  {
    if n == 0 {
      states, actions, i := Tear(f);
    } else {
      states, actions, i := RunPrograms(f, n - 1);
      var s, net := states[|actions|], NetOf(Params(TWO16, 0));
      var c := s.chains[f];
      var t := s.(chains := s.chains[f := c.(next := c.next + 1, bufs := Stage(c.next, net, c.features, c.bufs))]);
      ExtendBegun(states, actions, f, i, Program(f), t);
      ChainStep(s, Program(f), t, f, 0, FEATURES, net);
      states, actions := states + [t], actions + [Program(f)];
    }
  }

  /**
   * A second update during an inference: the slot it snapshotted holds the old network, every session brings the new
   * one, both give its features label 1, and it prints 0.
   */
  lemma TornLabel(f: FlowId) returns (states: seq<State>, actions: seq<Action>, i: nat)
    ensures Run(states, actions) && states[0] == State([OLD, OLD], 0, Idle, map[])
    ensures forall k :: 0 <= k < |actions| && actions[k].ReadIndex? ==> actions[k].words == NEW
    ensures i < |actions| && actions[i].Snapshot? && actions[i].flow == f && actions[i].features == FEATURES
    ensures NoSnapshot(actions, f, i + 1, |actions|) && states[i].slots[states[i].idx] == OLD
    ensures Loaded(NetOf(OLD)) && Label(Forward(NetOf(OLD), FEATURES)) == 1
    ensures Loaded(NetOf(NEW)) && Label(Forward(NetOf(NEW), FEATURES)) == 1
    ensures f in states[|actions|].chains && ChainOk(states[|actions|].chains[f])
    ensures Printed(states[|actions|].chains[f]) == Some(0)
  {
    LabelOf(0, 0);
    LabelOf(TWO16, TWO16);
    LabelOf(TWO16, 0);
    states, actions, i := RunPrograms(f, STAGES);
    var c := states[|actions|].chains[f];
    assert c.bufs.h1[..N3][0] == c.bufs.h1[0] && c.bufs.h1[..N3][1] == c.bufs.h1[1];
  }
}
