// src/handler.bpf.h, src/common.h: per-flow features, accumulated packet by packet.
module Flow {
  import opened Words

  const MAX_PACKET_REACORD: nat := 8192
  const MIN_LENGTH_INIT: nat := 0x3fffffffffffffff

  type Port = p: int | 0 <= p < 0x10000

  /** struct flow; ports are in network byte order. */
  datatype FlowKey = FlowKey(saddr: int, sport: Port, daddr: int, dport: Port)

  /** bpf_ntohs on a little-endian host. */
  function Ntohs(p: Port): Port { p % 256 * 256 + p / 256 }

  /** Two bytes in wire order, loaded as a little-endian number, give the number they mean. */
  lemma NtohsBytes(hi: nat, lo: nat)
    requires hi < 256 && lo < 256
    ensures Ntohs(hi + 256 * lo) == 256 * hi + lo
  {
  }

  /** What update_flow_attribute reads of one packet: its flow, length, TCP data offset and arrival time. */
  datatype Packet = Packet(key: FlowKey, length: nat, doff: nat, time: nat)

  predicate PacketOk(p: Packet) { p.length < TWO64 && p.doff < 16 && p.time < TWO64 }

  /** The feature fields of struct flow_attribute, as 64-bit patterns. */
  datatype FlowAttribute = FlowAttribute(
    numPacket: nat, minPacketLength: nat, maxPacketLength: nat, maxDuration: nat,
    dstPort: nat, headerLength: nat, lastPacketTime: nat, status: nat)

  /** init_flow_attribute. */
  const INIT: FlowAttribute := FlowAttribute(0, MIN_LENGTH_INIT, 0, 0, 0, 0, 0, 0)

  // ----- the specification over a trace -----

  /** The packets of one flow, in order. */
  function Own(trace: seq<Packet>, f: FlowKey): (own: seq<Packet>)
    ensures forall k :: 0 <= k < |own| ==> own[k].key == f
  {
    if trace == [] then []
    else Own(trace[..|trace| - 1], f) + if trace[|trace| - 1].key == f then [trace[|trace| - 1]] else []
  }

  function Keys(trace: seq<Packet>): set<FlowKey> { set p | p in trace :: p.key }

  /** The flows that have an entry: new ones are added while there is room. */
  function Admitted(trace: seq<Packet>): set<FlowKey> {
    if trace == [] then {}
    else
      var a, f := Admitted(trace[..|trace| - 1]), trace[|trace| - 1].key;
      if f in a || |a| < MAX_PACKET_REACORD then a + {f} else a
  }

  function HeaderBytes(own: seq<Packet>): nat {
    if own == [] then 0 else HeaderBytes(own[..|own| - 1]) + own[|own| - 1].doff * 4
  }

  /** The unsigned 64-bit difference of two arrival times. */
  function Gap(a: Packet, b: Packet): nat { WrapU64(b.time - a.time) }

  function Lengths(own: seq<Packet>): seq<nat> {
    if own == [] then [] else Lengths(own[..|own| - 1]) + [own[|own| - 1].length]
  }

  /** The gaps between consecutive packets. */
  function Gaps(own: seq<Packet>): (g: seq<nat>)
    ensures |g| == if own == [] then 0 else |own| - 1
    ensures forall k :: 0 < k < |own| ==> g[k - 1] == Gap(own[k - 1], own[k])
  {
    if |own| < 2 then [] else Gaps(own[..|own| - 1]) + [Gap(own[|own| - 2], own[|own| - 1])]
  }

  /** v is the smallest of `first` and the elements of s. */
  ghost predicate IsMin(s: seq<nat>, first: nat, v: nat) {
    v <= first && (forall x :: x in s ==> v <= x) && (v == first || v in s)
  }

  /** v is the largest of 0 and the elements of s. */
  ghost predicate IsMax(s: seq<nat>, v: nat) {
    (forall x :: x in s ==> x <= v) && (v == 0 || v in s)
  }

  /** An entry says exactly what its flow's packets add up to. */
  ghost predicate Summarises(f: FlowKey, own: seq<Packet>, a: FlowAttribute) {
    && own != []
    && a.numPacket == WrapU64(|own|)
    && IsMin(Lengths(own), 0x3fffffffffffffff, a.minPacketLength)
    && IsMax(Lengths(own), a.maxPacketLength)
    && IsMax(Gaps(own), a.maxDuration)
    && a.headerLength == WrapU64(HeaderBytes(own))
    && a.dstPort == 256 * (f.dport % 256) + f.dport / 256
    && a.lastPacketTime == own[|own| - 1].time
    && a.status == 0
  }

  // ----- the map -----

  /** flow_map. `trace` is what update_flow_attribute has seen. */
  class FlowMap {
    var entries: map<FlowKey, FlowAttribute>
    ghost var trace: seq<Packet>

    constructor ()
      ensures Valid() && trace == []
    {
      entries, trace := map[], [];
    }

    ghost predicate Valid()
      reads this
    {
      && entries.Keys == Admitted(trace)
      && |entries| <= MAX_PACKET_REACORD
      && (forall p :: p in trace ==> PacketOk(p))
      && AllSummarised(trace, entries)
    }

    /** update_flow_attribute. */
    method UpdateFlowAttribute(p: Packet)
      requires Valid() && PacketOk(p)
      modifies this
      ensures Valid() && trace == old(trace) + [p]
      ensures forall f :: f != p.key ==> (f in entries <==> f in old(entries))
      ensures forall f :: f != p.key && f in entries ==> entries[f] == old(entries)[f]
    {
      var f := p.key;
      ghost var was, before := trace, entries;
      trace := trace + [p];
      AdmittedSnoc(was, p);
      var attr := INIT;
      if f in entries {
        attr := entries[f];
      } else {
        attr := INIT.(lastPacketTime := p.time, dstPort := Ntohs(f.dport));
        if |entries| >= MAX_PACKET_REACORD {
          OthersUnchanged(was, p, entries);
          return;
        }
        NotSeen(was, f);
      }
      attr := Accumulate(attr, p);
      entries := entries[f := attr];
      EntriesUpdated(was, p, before, entries);
    }
  }

  /** The second half of update_flow_attribute: one packet added to an entry. */
  method Accumulate(a: FlowAttribute, p: Packet) returns (attr: FlowAttribute)
    ensures attr == Updated(a, p)
  {
    attr := a.(numPacket := WrapU64(a.numPacket + 1));
    if p.length < attr.minPacketLength {
      attr := attr.(minPacketLength := p.length);
    }
    if p.length > attr.maxPacketLength {
      attr := attr.(maxPacketLength := p.length);
    }
    var duration := WrapU64(p.time - attr.lastPacketTime);
    if duration > attr.maxDuration {
      attr := attr.(maxDuration := duration);
    }
    attr := attr.(lastPacketTime := p.time, headerLength := WrapU64(attr.headerLength + p.doff * 4));
  }

  ghost predicate AllSummarised(trace: seq<Packet>, entries: map<FlowKey, FlowAttribute>) {
    forall f {:trigger Own(trace, f)} :: f in entries ==> Summarises(f, Own(trace, f), entries[f])
  }

  /** What one packet does to an entry. */
  function Updated(a: FlowAttribute, p: Packet): FlowAttribute {
    var gap := WrapU64(p.time - a.lastPacketTime);
    FlowAttribute(
      WrapU64(a.numPacket + 1),
      if p.length < a.minPacketLength then p.length else a.minPacketLength,
      if p.length > a.maxPacketLength then p.length else a.maxPacketLength,
      if gap > a.maxDuration then gap else a.maxDuration,
      a.dstPort, WrapU64(a.headerLength + p.doff * 4), p.time, a.status)
  }

  function Fresh(p: Packet): FlowAttribute { INIT.(lastPacketTime := p.time, dstPort := Ntohs(p.key.dport)) }

  lemma AdmittedSnoc(was: seq<Packet>, p: Packet)
    ensures Admitted(was + [p]) ==
      if p.key in Admitted(was) || |Admitted(was)| < MAX_PACKET_REACORD then Admitted(was) + {p.key} else Admitted(was)
    ensures p.key in Admitted(was) ==> Admitted(was + [p]) == Admitted(was)
  {
  }

  lemma WrapAddU(a: int, b: int)
    ensures WrapU64(WrapU64(a) + b) == WrapU64(a + b)
  {
    var q := a / TWO64;
    assert WrapU64(a) + b == a + b - q * TWO64;
    WrapShiftU(a + b, q);
  }

  lemma WrapShiftU(v: int, q: int)
    ensures WrapU64(v - q * TWO64) == WrapU64(v)
  {
    var d, r := v / TWO64, v % TWO64;
    assert v - q * TWO64 == (d - q) * TWO64 + r;
  }

  lemma MinStep(s: seq<nat>, first: nat, v: nat, x: nat)
    requires IsMin(s, first, v)
    ensures IsMin(s + [x], first, if x < v then x else v)
  {
  }

  lemma MaxStep(s: seq<nat>, v: nat, x: nat)
    requires IsMax(s, v)
    ensures IsMax(s + [x], if x > v then x else v)
  {
  }

  lemma SummarySnoc(own: seq<Packet>, p: Packet)
    ensures Lengths(own + [p]) == Lengths(own) + [p.length]
    ensures own != [] ==> Gaps(own + [p]) == Gaps(own) + [Gap(own[|own| - 1], p)]
    ensures HeaderBytes(own + [p]) == HeaderBytes(own) + p.doff * 4
  {
  }

  lemma OnePacket(p: Packet)
    ensures Lengths([p]) == [p.length] && Gaps([p]) == [] && HeaderBytes([p]) == p.doff * 4
  {
    assert [p][..0] == [];
    assert Lengths([]) == [] && HeaderBytes([]) == 0;
  }

  /** A flow's first packet. */
  lemma FirstPacket(p: Packet)
    requires PacketOk(p)
    ensures Summarises(p.key, [p], Updated(Fresh(p), p))
  {
    OnePacket(p);
    MinStep([], MIN_LENGTH_INIT, MIN_LENGTH_INIT, p.length);
    MaxStep([], 0, p.length);
    assert [] + [p.length] == [p.length];
    assert WrapU64(0) == 0 && WrapU64(1) == 1;
  }

  /** One more packet of a flow that has an entry. */
  lemma NextPacket(own: seq<Packet>, p: Packet, a: FlowAttribute)
    requires Summarises(p.key, own, a)
    ensures Summarises(p.key, own + [p], Updated(a, p))
  {
    SummarySnoc(own, p);
    MinStep(Lengths(own), MIN_LENGTH_INIT, a.minPacketLength, p.length);
    MaxStep(Lengths(own), a.maxPacketLength, p.length);
    MaxStep(Gaps(own), a.maxDuration, Gap(own[|own| - 1], p));
    WrapAddU(|own|, 1);
    WrapAddU(HeaderBytes(own), p.doff * 4);
  }

  lemma OwnSnoc(was: seq<Packet>, p: Packet, f: FlowKey)
    ensures Own(was + [p], f) == if p.key == f then Own(was, f) + [p] else Own(was, f)
  {
  }

  lemma OthersUnchanged(was: seq<Packet>, p: Packet, entries: map<FlowKey, FlowAttribute>)
    requires AllSummarised(was, entries) && p.key !in entries
    ensures AllSummarised(was + [p], entries)
  {
    forall f | f in entries
      ensures Summarises(f, Own(was + [p], f), entries[f])
    {
      OwnSnoc(was, p, f);
      assert Summarises(f, Own(was, f), entries[f]);
    }
  }

  lemma EntriesUpdated(was: seq<Packet>, p: Packet, before: map<FlowKey, FlowAttribute>, now: map<FlowKey, FlowAttribute>)
    requires AllSummarised(was, before) && PacketOk(p)
    requires now == before[p.key := Updated(if p.key in before then before[p.key] else Fresh(p), p)]
    requires p.key !in before ==> Own(was, p.key) == []
    ensures AllSummarised(was + [p], now)
  {
    forall f | f in now
      ensures Summarises(f, Own(was + [p], f), now[f])
    {
      OwnSnoc(was, p, f);
      if f != p.key {
        assert Summarises(f, Own(was, f), before[f]);
      } else if f in before {
        NextPacket(Own(was, f), p, before[f]);
      } else {
        FirstPacket(p);
        assert [] + [p] == [p];
      }
    }
  }

  /** While there is room, a flow without an entry has sent nothing. */
  lemma {:induction false} NotSeen(trace: seq<Packet>, f: FlowKey)
    requires f !in Admitted(trace) && |Admitted(trace)| < MAX_PACKET_REACORD
    ensures Own(trace, f) == []
  {
    if trace != [] {
      var init := trace[..|trace| - 1];
      AdmittedGrows(init, trace[|trace| - 1]);
      assert init + [trace[|trace| - 1]] == trace;
      NotSeen(init, f);
    }
  }

  lemma AdmittedGrows(init: seq<Packet>, p: Packet)
    ensures Admitted(init) <= Admitted(init + [p])
    ensures |Admitted(init)| <= |Admitted(init + [p])|
  {
    AdmittedSnoc(init, p);
  }

  // ----- what the trace specification means -----

  ghost predicate MonotoneClock(trace: seq<Packet>) {
    && (forall p :: p in trace ==> PacketOk(p))
    && forall j, k :: 0 <= j < k < |trace| ==> trace[j].time <= trace[k].time
  }

  lemma {:induction false} OwnMonotone(trace: seq<Packet>, f: FlowKey)
    requires MonotoneClock(trace)
    ensures MonotoneClock(Own(trace, f))
    ensures forall p :: p in Own(trace, f) ==> p in trace
  {
    if trace != [] {
      var init, last := trace[..|trace| - 1], trace[|trace| - 1];
      OwnMonotone(init, f);
      assert forall p :: p in init ==> p in trace && p.time <= last.time;
    }
  }

  /** With a monotone clock the recorded gap is the largest time between consecutive packets of the flow. */
  lemma GapIsLargest(trace: seq<Packet>, f: FlowKey, a: FlowAttribute)
    requires MonotoneClock(trace) && Summarises(f, Own(trace, f), a)
    ensures forall k :: 0 < k < |Own(trace, f)| ==> TimeBetween(Own(trace, f), k) <= a.maxDuration
    ensures a.maxDuration == 0 || exists k :: 0 < k < |Own(trace, f)| && TimeBetween(Own(trace, f), k) == a.maxDuration
  {
    OwnMonotone(trace, f);
    var own := Own(trace, f);
    forall k | 0 < k < |own|
      ensures Gaps(own)[k - 1] == TimeBetween(own, k) && Gaps(own)[k - 1] in Gaps(own)
    {
      PlainGap(own[k - 1], own[k]);
    }
    if a.maxDuration != 0 {
      var j :| 0 <= j < |Gaps(own)| && Gaps(own)[j] == a.maxDuration;
      assert TimeBetween(own, j + 1) == a.maxDuration;
    }
  }

  function TimeBetween(own: seq<Packet>, k: int): int
    requires 0 < k < |own|
  {
    own[k].time - own[k - 1].time
  }

  lemma PlainGap(a: Packet, b: Packet)
    requires PacketOk(a) && PacketOk(b) && a.time <= b.time
    ensures Gap(a, b) == b.time - a.time
  {
  }

  lemma KeysSnoc(init: seq<Packet>, p: Packet)
    ensures Keys(init + [p]) == Keys(init) + {p.key}
  {
  }

  /** Until the map is full every flow has an entry; after that it stays full. */
  lemma {:induction false} AdmittedCount(trace: seq<Packet>)
    ensures Admitted(trace) <= Keys(trace)
    ensures |Keys(trace)| <= 8192 ==> Admitted(trace) == Keys(trace)
    ensures |Keys(trace)| > 8192 ==> |Admitted(trace)| == 8192
  {
    if trace != [] {
      var init, p := trace[..|trace| - 1], trace[|trace| - 1];
      assert trace == init + [p];
      KeysSnoc(init, p);
      AdmittedCount(init);
      AdmittedSnoc(init, p);
      if p.key in Keys(init) {
        assert Keys(init) + {p.key} == Keys(init);
      } else {
        assert p.key !in Admitted(init);
      }
    }
  }

  /** Packet i is the flow's first, and comes while there is room. */
  ghost predicate FirstWithRoom(trace: seq<Packet>, f: FlowKey, i: nat) {
    i < |trace| && trace[i].key == f && f !in Keys(trace[..i]) && |Keys(trace[..i])| < 8192
  }

  lemma FirstWithRoomInit(trace: seq<Packet>, f: FlowKey, i: nat)
    requires i < |trace| - 1
    ensures FirstWithRoom(trace, f, i) <==> FirstWithRoom(trace[..|trace| - 1], f, i)
  {
    assert trace[..|trace| - 1][..i] == trace[..i];
  }

  /** A flow is admitted exactly when fewer than the capacity of other flows came before its first packet. */
  lemma {:induction false} AdmittedIff(trace: seq<Packet>, f: FlowKey)
    ensures f in Admitted(trace) <==> exists i :: FirstWithRoom(trace, f, i)
  {
    if trace != [] {
      var init := trace[..|trace| - 1];
      AdmittedIff(init, f);
      forall i: nat | i < |init|
        ensures FirstWithRoom(trace, f, i) <==> FirstWithRoom(init, f, i)
      {
        FirstWithRoomInit(trace, f, i);
      }
      LastAdmitted(trace, f);
    }
  }

  /** The last packet admits its flow exactly when it is that flow's first with room. */
  lemma LastAdmitted(trace: seq<Packet>, f: FlowKey)
    requires trace != []
    ensures var init := trace[..|trace| - 1];
      f in Admitted(trace) <==> f in Admitted(init) || FirstWithRoom(trace, f, |init|)
  {
    AdmittedCount(trace[..|trace| - 1]);
  }
}
