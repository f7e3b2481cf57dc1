// src/xdp.bpf.c: from packets to the printed label.
module Pipeline {
  import opened Prelude
  import opened Words
  import opened Mlp
  import opened Inference
  import opened HotUpdate
  import opened Flow

  /** The largest of 0 and the elements of s. */
  function MaxOf(s: seq<nat>): nat {
    if s == [] then 0
    else
      var m, x := MaxOf(s[..|s| - 1]), s[|s| - 1];
      if x > m then x else m
  }

  lemma {:induction false} MaxOfIs(s: seq<nat>)
    ensures IsMax(s, MaxOf(s))
  {
    if s != [] {
      MaxOfIs(s[..|s| - 1]);
      MaxStep(s[..|s| - 1], MaxOf(s[..|s| - 1]), s[|s| - 1]);
      assert s == s[..|s| - 1] + [s[|s| - 1]];
    }
  }

  /** The smallest of `first` and the elements of s. */
  function MinOf(s: seq<nat>, first: nat): nat {
    if s == [] then first
    else
      var m, x := MinOf(s[..|s| - 1], first), s[|s| - 1];
      if x < m then x else m
  }

  lemma {:induction false} MinOfIs(s: seq<nat>, first: nat)
    ensures IsMin(s, first, MinOf(s, first))
  {
    if s != [] {
      MinOfIs(s[..|s| - 1], first);
      MinStep(s[..|s| - 1], first, MinOf(s[..|s| - 1], first), s[|s| - 1]);
      assert s == s[..|s| - 1] + [s[|s| - 1]];
    }
  }

  /** The input vector of xdp_preprocessing, for the packets of one flow. */
  function Features(f: FlowKey, own: seq<Packet>): (x: seq<int>)
    ensures |x| == N0
  {
    [Wrap64(MaxOf(Lengths(own))), Wrap64(MaxOf(Gaps(own))), Wrap64(MinOf(Lengths(own), MIN_LENGTH_INIT)),
     Ntohs(f.dport), Wrap64(HeaderBytes(own)), Wrap64(|own|)]
  }

  /** The same vector, as the program reads it from the flow's entry: 64-bit patterns read as signed numbers. */
  function ReadFeatures(a: FlowAttribute): (x: seq<int>)
    ensures |x| == N0
  {
    [Wrap64(a.maxPacketLength), Wrap64(a.maxDuration), Wrap64(a.minPacketLength),
     Wrap64(a.dstPort), Wrap64(a.headerLength), Wrap64(a.numPacket)]
  }

  /** The order of the vector: longest packet, longest gap, shortest packet, port, header bytes, number of packets. */
  lemma FeatureOrder(f: FlowKey, own: seq<Packet>)
    ensures Features(f, own)[0] == Wrap64(MaxOf(Lengths(own))) && Features(f, own)[1] == Wrap64(MaxOf(Gaps(own)))
    ensures Features(f, own)[2] == Wrap64(MinOf(Lengths(own), 0x3fffffffffffffff))
    ensures Features(f, own)[3] == 256 * (f.dport % 256) + f.dport / 256
    ensures Features(f, own)[4] == Wrap64(HeaderBytes(own)) && Features(f, own)[5] == Wrap64(|own|)
  {
    NtohsIs(f.dport);
  }

  lemma NtohsIs(p: Port)
    ensures Ntohs(p) == 256 * (p % 256) + p / 256
  {
  }

  lemma TwoValues(a: Packet, b: Packet)
    ensures Lengths([a, b]) == [a.length, b.length] && Gaps([a, b]) == [Gap(a, b)]
    ensures HeaderBytes([a, b]) == 4 * a.doff + 4 * b.doff
  {
    assert [a] + [b] == [a, b];
    OnePacket(a);
    SummarySnoc([a], b);
  }

  lemma MaxOfTwo(a: nat, b: nat)
    requires a <= b
    ensures MaxOf([a, b]) == b && MaxOf([b]) == b
  {
    assert [a, b][1] == b && [b][0] == b;
    MaxOfIs([a, b]);
    MaxOfIs([b]);
    OneMax([a, b], MaxOf([a, b]), b);
    OneMax([b], MaxOf([b]), b);
  }

  lemma MinOfTwo(a: nat, b: nat, first: nat)
    requires a <= b && a <= first
    ensures MinOf([a, b], first) == a
  {
    assert [a, b][0] == a;
    MinOfIs([a, b], first);
    OneMin([a, b], first, MinOf([a, b], first), a);
  }

  /** Two packets of 40 and 1500 bytes to port 443, 3000 ns apart, with 20 and 32 bytes of TCP header. */
  lemma TwoPackets(f: FlowKey, a: Packet, b: Packet)
    requires f.dport == 0xBB01 && a.length == 40 && a.doff == 5 && b.length == 1500 && b.doff == 8
    requires b.time == a.time + 3000
    ensures var x := Features(f, [a, b]);
      x[0] == 1500 && x[1] == 3000 && x[2] == 40 && x[3] == 443 && x[4] == 52 && x[5] == 2
  {
    FeatureOrder(f, [a, b]);
    TwoSummaries(a, b);
    forall v | v in {1500, 3000, 40, 52, 2}
      ensures Wrap64(v) == v
    {
      SmallSigned(v);
    }
  }

  lemma TwoSummaries(a: Packet, b: Packet)
    requires a.length == 40 && a.doff == 5 && b.length == 1500 && b.doff == 8 && b.time == a.time + 3000
    ensures MaxOf(Lengths([a, b])) == 1500 && MaxOf(Gaps([a, b])) == 3000
    ensures MinOf(Lengths([a, b]), 0x3fffffffffffffff) == 40 && HeaderBytes([a, b]) == 52
  {
    TwoValues(a, b);
    assert Gap(a, b) == 3000;
    MaxOfTwo(40, 1500);
    MaxOfTwo(3000, 3000);
    MinOfTwo(40, 1500, 0x3fffffffffffffff);
  }

  lemma SignedOfUnsigned(v: int)
    ensures Wrap64(WrapU64(v)) == Wrap64(v)
  {
    var q := v / TWO64;
    assert WrapU64(v) == v - q * TWO64;
    WrapShift(v, q);
  }

  lemma SmallSigned(v: int)
    requires 0 <= v < TWO63
    ensures Wrap64(v) == v
  {
  }

  lemma OneMax(s: seq<nat>, a: nat, b: nat)
    requires IsMax(s, a) && IsMax(s, b)
    ensures a == b
  {
  }

  lemma OneMin(s: seq<nat>, first: nat, a: nat, b: nat)
    requires IsMin(s, first, a) && IsMin(s, first, b)
    ensures a == b
  {
  }

  /** What is read from a correct entry is the vector of the flow's packets. */
  lemma ReadsFeatures(f: FlowKey, own: seq<Packet>, a: FlowAttribute)
    requires Summarises(f, own, a)
    ensures ReadFeatures(a) == Features(f, own)
  {
    MaxOfIs(Lengths(own));
    MaxOfIs(Gaps(own));
    MinOfIs(Lengths(own), MIN_LENGTH_INIT);
    OneMax(Lengths(own), MaxOf(Lengths(own)), a.maxPacketLength);
    OneMax(Gaps(own), MaxOf(Gaps(own)), a.maxDuration);
    OneMin(Lengths(own), MIN_LENGTH_INIT, MinOf(Lengths(own), MIN_LENGTH_INIT), a.minPacketLength);
    SmallSigned(Ntohs(f.dport));
    SignedOfUnsigned(HeaderBytes(own));
    SignedOfUnsigned(|own|);
  }

  /** xdp_preprocessing and the programs it tail-calls. */
  method Preprocess(a: FlowAttribute, nnIndex: int, nets: seq<Net>, work: FlowEntry) returns (printed: Option<int>)
    requires work.Valid() && (0 <= nnIndex < |nets| ==> Loaded(nets[nnIndex]))
    modifies work, work.hidden1, work.hidden2
    ensures work.Valid()
    ensures printed ==
      if 0 <= nnIndex < |nets| then Some(Label(Forward(nets[nnIndex], ReadFeatures(a)))) else None
  {
    work.features := ReadFeatures(a);
    printed := work.Infer(nnIndex, nets);
  }

  /**
   * xdp_prog for one TCP packet of a flow whose working buffers are `work`: update the entry and, on FIN or RST,
   * snapshot the index and run the chain. It prints exactly when the flow is admitted and the slot exists, and then
   * the label that slot's network gives the flow's packets so far.
   */
  method XdpProg(flows: FlowMap, p: Packet, finOrRst: bool, nnIndex: int, nets: seq<Net>, work: FlowEntry)
    returns (printed: Option<int>)
    requires flows.Valid() && PacketOk(p) && work.Valid()
    requires 0 <= nnIndex < |nets| ==> Loaded(nets[nnIndex])
    modifies flows, work, work.hidden1, work.hidden2
    ensures flows.Valid() && flows.trace == old(flows.trace) + [p] && work.Valid()
    ensures printed.Some? <==> finOrRst && p.key in Admitted(flows.trace) && 0 <= nnIndex < |nets|
    ensures printed.Some? ==>
      printed.value == Label(Forward(nets[nnIndex], Features(p.key, Own(flows.trace, p.key))))
  {
    flows.UpdateFlowAttribute(p);
    if !finOrRst || p.key !in flows.entries {
      return None;
    }
    var attr := flows.entries[p.key];
    ghost var own := Own(flows.trace, p.key);
    assert Summarises(p.key, own, attr);
    ReadsFeatures(p.key, own, attr);
    printed := Preprocess(attr, nnIndex, nets, work);
  }

  /**
   * In every interleaving with the updater, an inference that starts from a correct entry and finishes prints the
   * label that the snapshotted network gives the packets of the flow.
   */
  lemma PacketsToLabel(
      states: seq<State>, actions: seq<Action>, id: FlowId, i: nat, j: nat,
      f: FlowKey, trace: seq<Packet>, a: FlowAttribute)
    requires Run(states, actions) && i < j <= |actions|
    requires actions[i].Snapshot? && actions[i].flow == id && NoSnapshot(actions, id, i + 1, j)
    requires NoWriteAfterFlip(actions, i, j)
    requires Loaded(NetOf(states[i].slots[states[i].idx]))
    requires Summarises(f, Own(trace, f), a) && actions[i].features == ReadFeatures(a)
    ensures id in states[j].chains && ChainOk(states[j].chains[id])
    ensures states[j].chains[id].next == STAGES ==>
      Printed(states[j].chains[id]) ==
        Some(Label(Forward(NetOf(states[i].slots[states[i].idx]), Features(f, Own(trace, f)))))
  {
    ReadsFeatures(f, Own(trace, f), a);
    InferenceIsForward(states, actions, id, i, j);
  }
}
