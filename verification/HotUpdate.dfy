// src/hot_updating.c against src/xdp.bpf.c: the two-slot parameter protocol under interleaving.
module HotUpdate {
  import opened Prelude
  import opened Words
  import opened Mlp
  import opened Inference

  // ----- the updater alone -----

  /** The two pinned maps: nn_parameters with its two slots, and nn_idx. */
  class Maps {
    var slots: seq<Net>
    var nnIdx: int

    constructor (slots: seq<Net>, nnIdx: int)
      requires |slots| == 2
      ensures Valid() && this.slots == slots && this.nnIdx == nnIdx
    {
      this.slots, this.nnIdx := slots, nnIdx;
    }

    ghost predicate Valid()
      reads this
    {
      |slots| == 2
    }

    /** main of hot_updating.c: read the index, fill the other slot, flip the index. */
    method Update(net: Net)
      requires Valid() && 0 <= nnIdx < 2
      modifies this
      ensures Valid() && nnIdx == 1 - old(nnIdx)
      ensures slots[nnIdx] == net && slots[old(nnIdx)] == old(slots)[old(nnIdx)]
    {
      var index := nnIdx;
      var newIndex := (index + 1) % 2;
      slots := slots[newIndex := net];
      nnIdx := newIndex;
    }
  }

  // ----- the protocol -----

  /** A slot as the kernel stores it: the words of `struct Net` in layout order (src/params.bpf.h:4-11). */
  const CELLS: nat := 1292

  function NetOf(s: seq<int>): (net: Net)
    requires |s| == CELLS
    ensures WellSized(net)
  {
    Net(s[..192], s[192..1216], s[1216..1280], s[1280..1286], s[1286..1292])
  }

  /** Where the weights, means and scales lie among the words of a slot. */
  lemma NetLayout(s: seq<int>, k: nat)
    requires |s| == 1292
    ensures k < 192 ==> NetOf(s).layer0[k] == s[k]
    ensures k < 1024 ==> NetOf(s).layer1[k] == s[192 + k]
    ensures k < 64 ==> NetOf(s).layer2[k] == s[1216 + k]
    ensures k < 6 ==> NetOf(s).mean[k] == s[1280 + k] && NetOf(s).scale[k] == s[1286 + k]
  {
  }

  /** The updater between two of its steps; `written` are the words of the new network already stored. */
  datatype Updater = Idle | Writing(target: nat, words: seq<int>, written: set<nat>)

  /** A flow's chain: the index it read, its features, the next program, and the buffers. */
  datatype Chain = Chain(nnIdx: nat, features: seq<int>, next: nat, bufs: Buffers)

  type FlowId = nat

  datatype State = State(slots: seq<seq<int>>, idx: nat, up: Updater, chains: map<FlowId, Chain>)

  datatype Action =
    | ReadIndex(words: seq<int>)          // the updater reads nn_idx and holds the new network
    | WriteWord(cell: nat)                // it stores one word into the other slot
    | Flip                                // it sets nn_idx to that slot
    | Snapshot(flow: FlowId, features: seq<int>, bufs: Buffers) // xdp_prog copies nn_idx into the flow's entry
    | Program(flow: FlowId)               // the next tail-called program of one flow

  ghost predicate WellFormedState(s: State) {
    && |s.slots| == 2 && |s.slots[0]| == CELLS && |s.slots[1]| == CELLS
    && s.idx < 2
    && (s.up.Writing? ==>
          s.up.target == 1 - s.idx && |s.up.words| == CELLS && forall c :: c in s.up.written ==> c < CELLS)
    && forall f :: f in s.chains ==> ChainOk(s.chains[f])
  }

  ghost predicate ChainOk(c: Chain) {
    c.nnIdx < 2 && |c.features| == N0 && Sized(c.bufs) && c.next <= STAGES
  }

  /** One step of the whole system. A scaler whose slot holds a zero scale may leave any values in its flow's buffers. */
  ghost predicate Next(s: State, a: Action, t: State)
    requires WellFormedState(s)
  {
    match a
    case ReadIndex(words) =>
      s.up.Idle? && |words| == CELLS && t == s.(up := Writing((s.idx + 1) % 2, words, {}))
    case WriteWord(cell) =>
      && s.up.Writing? && cell < CELLS
      && t == s.(slots := s.slots[s.up.target := s.slots[s.up.target][cell := s.up.words[cell]]],
                 up := s.up.(written := s.up.written + {cell}))
    case Flip =>
      && s.up.Writing? && (forall c :: 0 <= c < CELLS ==> c in s.up.written)
      && t == s.(idx := s.up.target, up := Idle)
    case Snapshot(f, features, bufs) =>
      && |features| == N0 && Sized(bufs)
      && t == s.(chains := s.chains[f := Chain(s.idx, features, 0, bufs)])
    case Program(f) =>
      && f in s.chains && s.chains[f].next < STAGES && f in t.chains
      && var c, bufs := s.chains[f], t.chains[f].bufs;
         var net := NetOf(s.slots[c.nnIdx]);
         && Sized(bufs) && (Defined(c.next, net) ==> bufs == Stage(c.next, net, c.features, c.bufs))
         && t == s.(chains := s.chains[f := c.(next := c.next + 1, bufs := bufs)])
  }

  lemma NextKeepsWellFormed(s: State, a: Action, t: State)
    requires WellFormedState(s) && Next(s, a, t)
    ensures WellFormedState(t)
  {
  }

  /** A run: states with the actions between them. */
  ghost predicate Run(states: seq<State>, actions: seq<Action>) {
    && |states| == |actions| + 1
    && (forall k :: 0 <= k < |states| ==> WellFormedState(states[k]))
    && forall k {:trigger StepAt(states, actions, k)} :: 0 <= k < |actions| ==> StepAt(states, actions, k)
  }

  ghost predicate StepAt(states: seq<State>, actions: seq<Action>, k: nat) {
    k < |actions| && k + 1 < |states| && WellFormedState(states[k]) && Next(states[k], actions[k], states[k + 1])
  }

  /** The step from state k, if that state is well formed. */
  ghost predicate Steps(states: seq<State>, actions: seq<Action>, k: nat) {
    k < |actions| && k + 1 < |states| && (WellFormedState(states[k]) ==> Next(states[k], actions[k], states[k + 1]))
  }

  /** A well-formed start is all a sequence of steps needs to be a run. */
  lemma {:induction false} RunFromStart(states: seq<State>, actions: seq<Action>)
    requires |states| == |actions| + 1 && WellFormedState(states[0])
    requires forall k {:trigger Steps(states, actions, k)} :: 0 <= k < |actions| ==> Steps(states, actions, k)
    ensures Run(states, actions)
  {
    var n := 0;
    while n < |actions|
      invariant n <= |actions| && forall k :: 0 <= k <= n ==> WellFormedState(states[k])
    {
      assert Steps(states, actions, n);
      NextKeepsWellFormed(states[n], actions[n], states[n + 1]);
      n := n + 1;
    }
    forall k | 0 <= k < |actions|
      ensures StepAt(states, actions, k)
    {
      assert Steps(states, actions, k);
    }
  }

  /** The words recorded as written are in the slot. */
  ghost predicate Stored(s: State)
    requires WellFormedState(s)
  {
    s.up.Writing? ==> forall c :: c in s.up.written ==> s.slots[s.up.target][c] == s.up.words[c]
  }

  lemma StoredKept(s: State, a: Action, t: State)
    requires WellFormedState(s) && Next(s, a, t) && WellFormedState(t) && Stored(s)
    ensures Stored(t)
  {
  }

  /** From reading the index to the flip, whatever flows do in between: the updater keeps its target and its words,
      and the index and the slot in use stay. */
  lemma {:induction false} SessionHolds(states: seq<State>, actions: seq<Action>, i: nat, j: nat)
    requires Run(states, actions) && i < j <= |actions| && actions[i].ReadIndex?
    requires forall k :: i < k < j ==> !actions[k].Flip?
    ensures var u := states[j].up;
      && u.Writing? && u.target == 1 - states[i].idx && u.words == actions[i].words && Stored(states[j])
    ensures states[j].idx == states[i].idx && states[j].slots[states[i].idx] == states[i].slots[states[i].idx]
  {
    assert StepAt(states, actions, j - 1);
    if j > i + 1 {
      SessionHolds(states, actions, i, j - 1);
      StoredKept(states[j - 1], actions[j - 1], states[j]);
    }
  }

  /** A whole session is one atomic update: the idle slot holds exactly the new words, the index points to it, and the
      slot that was in use is unchanged. */
  lemma SessionIsUpdate(states: seq<State>, actions: seq<Action>, i: nat, j: nat)
    requires Run(states, actions) && i < j < |actions| && actions[i].ReadIndex? && actions[j].Flip?
    requires forall k :: i < k < j ==> !actions[k].Flip?
    ensures var s, t := states[i], states[j + 1];
      && t.idx == 1 - s.idx && t.slots[t.idx] == actions[i].words
      && t.slots[s.idx] == s.slots[s.idx] && t.up == Idle
  {
    SessionHolds(states, actions, i, j);
    assert StepAt(states, actions, j);
    var u := states[j].up;
    assert states[j].slots[u.target] == u.words;
  }

  /** No word is written after the first flip in [i, j). */
  ghost predicate NoWriteAfterFlip(actions: seq<Action>, i: nat, j: nat)
    requires i <= j <= |actions|
  {
    forall p, q :: i <= p < q < j && actions[p].Flip? ==> !actions[q].WriteWord?
  }

  /** The first flip in [i, j), if any. */
  ghost predicate Flipped(actions: seq<Action>, i: nat, j: nat)
    requires i <= j <= |actions|
  {
    exists p :: i <= p < j && actions[p].Flip?
  }

  lemma {:induction false} IndexUnflipped(states: seq<State>, actions: seq<Action>, i: nat, j: nat)
    requires Run(states, actions) && i <= j <= |actions| && !Flipped(actions, i, j)
    ensures states[j].idx == states[i].idx
    decreases j - i
  {
    if i < j {
      IndexUnflipped(states, actions, i, j - 1);
      assert StepAt(states, actions, j - 1);
      assert !actions[j - 1].Flip?;
    }
  }

  /** The slot a flow snapshotted does not change as long as no word is written after the first flip. */
  lemma {:induction false} SlotStable(states: seq<State>, actions: seq<Action>, i: nat, j: nat)
    requires Run(states, actions) && i <= j <= |actions| && NoWriteAfterFlip(actions, i, j)
    ensures states[j].slots[states[i].idx] == states[i].slots[states[i].idx]
    decreases j - i
  {
    if i < j {
      assert NoWriteAfterFlip(actions, i, j - 1);
      SlotStable(states, actions, i, j - 1);
      var s := states[j - 1];
      assert StepAt(states, actions, j - 1);
      if actions[j - 1].WriteWord? {
        assert !Flipped(actions, i, j - 1);
        IndexUnflipped(states, actions, i, j - 1);
        assert s.up.target == 1 - states[i].idx;
      }
    }
  }

  /** No new snapshot of flow f in [i, j). */
  ghost predicate NoSnapshot(actions: seq<Action>, f: FlowId, i: nat, j: nat)
    requires i <= j <= |actions|
  {
    forall k :: i <= k < j ==> !(actions[k].Snapshot? && actions[k].flow == f)
  }

  /** What a chain has computed so far belongs to one network. */
  ghost predicate ChainHolds(c: Chain, nnIdx: nat, features: seq<int>, net: Net)
    requires ChainOk(c) && Loaded(net)
  {
    && c.nnIdx == nnIdx && c.features == features && |features| == N0
    && Holds(c.next, net, features, c.bufs)
  }

  /**
   * Every program of an inference reads the one network that was in the live slot when the flow
   * snapshotted the index, so the finished chain holds that network's outputs.
   */
  lemma {:induction false} ChainConsistent(states: seq<State>, actions: seq<Action>, f: FlowId, i: nat, j: nat)
    requires Run(states, actions) && i < j <= |actions|
    requires actions[i].Snapshot? && actions[i].flow == f && NoSnapshot(actions, f, i + 1, j)
    requires NoWriteAfterFlip(actions, i, j)
    requires Loaded(NetOf(states[i].slots[states[i].idx]))
    ensures f in states[j].chains
    ensures ChainHolds(states[j].chains[f], states[i].idx, actions[i].features, NetOf(states[i].slots[states[i].idx]))
    decreases j - i
  {
    var net, x := NetOf(states[i].slots[states[i].idx]), actions[i].features;
    if j == i + 1 {
      SnapshotTaken(states, actions, f, i, net);
    } else {
      assert NoWriteAfterFlip(actions, i, j - 1);
      ChainConsistent(states, actions, f, i, j - 1);
      SlotStable(states, actions, i, j - 1);
      assert StepAt(states, actions, j - 1);
      ChainStep(states[j - 1], actions[j - 1], states[j], f, states[i].idx, x, net);
    }
  }

  lemma SnapshotTaken(states: seq<State>, actions: seq<Action>, f: FlowId, i: nat, net: Net)
    requires Run(states, actions) && i < |actions| && actions[i].Snapshot? && actions[i].flow == f && Loaded(net)
    ensures f in states[i + 1].chains
    ensures ChainHolds(states[i + 1].chains[f], states[i].idx, actions[i].features, net)
  {
    assert StepAt(states, actions, i);
  }

  lemma ChainStep(s: State, a: Action, t: State, f: FlowId, nnIdx: nat, x: seq<int>, net: Net)
    requires WellFormedState(s) && Next(s, a, t)
    requires f in s.chains && nnIdx < 2 && Loaded(net) && ChainHolds(s.chains[f], nnIdx, x, net)
    requires NetOf(s.slots[nnIdx]) == net && !(a.Snapshot? && a.flow == f)
    ensures f in t.chains && ChainOk(t.chains[f]) && ChainHolds(t.chains[f], nnIdx, x, net)
  {
    var c := s.chains[f];
    if a.Program? && a.flow == f {
      StageHolds(c.next, net, x, c.bufs);
    }
  }

  /** What a chain has printed: its last program prints the label of its outputs. */
  function Printed(c: Chain): Option<int>
    requires Sized(c.bufs)
  {
    if c.next == STAGES then Some(Label(c.bufs.h1)) else None
  }

  /** The label printed at the end of such an inference is that network's label of the flow's features. */
  lemma InferenceIsForward(states: seq<State>, actions: seq<Action>, f: FlowId, i: nat, j: nat)
    requires Run(states, actions) && i < j <= |actions|
    requires actions[i].Snapshot? && actions[i].flow == f && NoSnapshot(actions, f, i + 1, j)
    requires NoWriteAfterFlip(actions, i, j)
    requires Loaded(NetOf(states[i].slots[states[i].idx]))
    ensures f in states[j].chains && ChainOk(states[j].chains[f])
    ensures |actions[i].features| == N0
    ensures var out := Forward(NetOf(states[i].slots[states[i].idx]), actions[i].features);
      states[j].chains[f].next == STAGES ==>
        states[j].chains[f].bufs.h1[..N3] == out && Printed(states[j].chains[f]) == Some(Label(out))
  {
    ChainConsistent(states, actions, f, i, j);
    var out := states[j].chains[f].bufs.h1;
    assert out[..N3][0] == out[0] && out[..N3][1] == out[1];
  }

  // ----- exactness of the side condition -----

  /** The updater stores a word into the slot with index `slot` somewhere in [i, j). */
  ghost predicate WritesSlot(states: seq<State>, actions: seq<Action>, slot: nat, i: nat, j: nat)
    requires Run(states, actions) && i <= j <= |actions|
  {
    exists k :: i <= k < j && WritesTo(states, actions, slot, k)
  }

  ghost predicate WritesTo(states: seq<State>, actions: seq<Action>, slot: nat, k: nat)
    requires k < |actions| && k < |states|
  {
    actions[k].WriteWord? && states[k].up.Writing? && states[k].up.target == slot
  }

  /** After a flip at p, until the next word is written, no update can be complete: the index stays. */
  lemma {:induction false} AfterFlip(states: seq<State>, actions: seq<Action>, p: nat, j: nat)
    requires Run(states, actions) && p < j <= |actions| && actions[p].Flip?
    requires forall q :: p < q < j ==> !actions[q].WriteWord?
    ensures states[p].up.Writing? && states[j].idx == states[p].up.target
    ensures states[j].up.Writing? ==> states[j].up.written == {}
    decreases j - p
  {
    assert StepAt(states, actions, p);
    if j > p + 1 {
      AfterFlip(states, actions, p, j - 1);
      assert StepAt(states, actions, j - 1);
      var zero := 0;
      assert states[j - 1].up.Writing? ==> zero !in states[j - 1].up.written;
    }
  }

  /** The first flip in a range that has one. */
  lemma {:induction false} FirstFlip(actions: seq<Action>, i: nat, j: nat) returns (p: nat)
    requires i <= j <= |actions| && Flipped(actions, i, j)
    ensures i <= p < j && actions[p].Flip? && !Flipped(actions, i, p)
    decreases j - i
  {
    if Flipped(actions, i, j - 1) {
      p := FirstFlip(actions, i, j - 1);
    } else {
      p := j - 1;
    }
  }

  /** The first word written after position p. */
  lemma {:induction false} FirstWrite(actions: seq<Action>, p: nat, j: nat) returns (q: nat)
    requires p < j <= |actions| && exists k :: p < k < j && actions[k].WriteWord?
    ensures p < q < j && actions[q].WriteWord? && forall k :: p < k < q ==> !actions[k].WriteWord?
    decreases j - p
  {
    if exists k :: p < k < j - 1 && actions[k].WriteWord? {
      q := FirstWrite(actions, p, j - 1);
    } else {
      q := j - 1;
    }
  }

  /** The condition is exact: the snapshotted slot is written during the chain iff a word follows the first flip. */
  lemma WrittenIffWriteAfterFlip(states: seq<State>, actions: seq<Action>, i: nat, j: nat)
    requires Run(states, actions) && i <= j <= |actions|
    ensures WritesSlot(states, actions, states[i].idx, i, j) <==> !NoWriteAfterFlip(actions, i, j)
  {
    if WritesSlot(states, actions, states[i].idx, i, j) {
      var k :| i <= k < j && WritesTo(states, actions, states[i].idx, k);
      if !Flipped(actions, i, k) {
        IndexUnflipped(states, actions, i, k);
      }
    }
    if !NoWriteAfterFlip(actions, i, j) {
      var p0, q0 :| i <= p0 < q0 < j && actions[p0].Flip? && actions[q0].WriteWord?;
      var p := FirstFlip(actions, i, j);
      assert p <= p0;
      var q := FirstWrite(actions, p, j);
      AfterFlip(states, actions, p, q);
      IndexUnflipped(states, actions, i, p);
      assert StepAt(states, actions, q);
      assert WritesTo(states, actions, states[i].idx, q);
    }
  }
}
