// bpftool/src/cfg.c: the control-flow graph builder.
// Instruction pointers are indices into the instruction array.
module Ebpf {
  type Byte = x: int | 0 <= x < 256

  type S16 = x: int | -0x8000 <= x < 0x8000

  /** The fields of `struct bpf_insn` the builder looks at. */
  datatype Insn = Insn(code: Byte, srcReg: nat, off: S16)

  const BPF_JMP: int := 0x05
  const BPF_JMP32: int := 0x06
  const BPF_JA: int := 0x00
  const BPF_CALL: int := 0x80
  const BPF_EXIT: int := 0x90
  const BPF_PSEUDO_CALL: int := 1
  const BPF_LD_IMM_DW: int := 0x18

  /** BPF_CLASS: the low three bits. */
  function Class(code: Byte): int { code % 8 }

  /** BPF_OP: the high four bits. */
  function Op(code: Byte): int { code / 16 * 16 }

  predicate IsJmpInsn(code: Byte) { Class(code) == BPF_JMP || Class(code) == BPF_JMP32 }

  predicate IsPseudoCall(i: Insn) { i.code == BPF_JMP + BPF_CALL && i.srcReg == BPF_PSEUDO_CALL }

  predicate IsExit(i: Insn) { IsJmpInsn(i.code) && Op(i.code) == BPF_EXIT }

  predicate IsCall(i: Insn) { IsJmpInsn(i.code) && Op(i.code) == BPF_CALL }

  predicate IsJa(i: Insn) { IsJmpInsn(i.code) && Op(i.code) == BPF_JA }

  predicate IsCond(i: Insn) { IsJmpInsn(i.code) && !IsExit(i) && !IsCall(i) && !IsJa(i) }

  /** A jump inside a function: JA or conditional. */
  predicate IsBranch(i: Insn) { IsJa(i) || IsCond(i) }

  predicate IsWide(i: Insn) { i.code == BPF_LD_IMM_DW }

  function Target(pc: int, i: Insn): int { pc + i.off + 1 }

  /** Function starts: the first instruction and every bpf-to-bpf call target. */
  ghost predicate IsFuncStart(insns: seq<Insn>, s: int) {
    s == 0 || exists pc :: 0 <= pc < |insns| && IsPseudoCall(insns[pc]) && Target(pc, insns[pc]) == s
  }

  /** [s, e] runs from one function start to just before the next one, or to the last instruction. */
  ghost predicate IsFuncRange(insns: seq<Insn>, s: int, e: int) {
    && 0 <= s <= e < |insns|
    && IsFuncStart(insns, s)
    && (e == |insns| - 1 || IsFuncStart(insns, e + 1))
    && forall k :: s < k <= e ==> !IsFuncStart(insns, k)
  }

  /** Block leaders of the function [s, e]: its start, branch targets and conditional fall-throughs. */
  ghost predicate IsLeader(insns: seq<Insn>, s: int, e: int, h: int)
    requires 0 <= s <= e < |insns|
  {
    || h == s
    || (exists pc :: s <= pc <= e && IsBranch(insns[pc]) && Target(pc, insns[pc]) == h)
    || (s < h <= e + 1 && IsCond(insns[h - 1]))
  }

  /** What the kernel verifier has established about one function. */
  ghost predicate WellFormedFunc(insns: seq<Insn>, s: int, e: int) {
    && 0 <= s <= e < |insns|
    && (IsExit(insns[e]) || IsJa(insns[e]))
    && (forall pc :: s <= pc <= e && IsBranch(insns[pc]) ==> s <= Target(pc, insns[pc]) <= e)
    && (forall pc :: s <= pc < e && IsWide(insns[pc]) ==>
          insns[pc + 1].code == 0 && !IsLeader(insns, s, e, pc + 1))
  }

  /** What the kernel verifier has established about the whole program. */
  ghost predicate WellFormed(insns: seq<Insn>) {
    && |insns| > 0
    && (forall pc :: 0 <= pc < |insns| && IsPseudoCall(insns[pc]) ==> 0 <= Target(pc, insns[pc]) < |insns|)
    && (forall s, e :: IsFuncRange(insns, s, e) ==> WellFormedFunc(insns, s, e))
  }
}

module Cfg {
  import opened Prelude
  import opened Ebpf

  /** No jump of an instruction leads to NULL: offsets have 16 bits. */
  const NULL: int := -0x1_0000

  const ENTRY_BLOCK_INDEX: nat := 0
  const EXIT_BLOCK_INDEX: nat := 1
  const NUM_FIXED_BLOCKS: nat := 2
  const EDGE_FLAG_FALLTHROUGH: nat := 1
  const EDGE_FLAG_JUMP: nat := 2

  /** An edge; blocks are named by their position in the function's list, a NULL `dst` is None. */
  datatype Edge = Edge(src: nat, dst: Option<nat>, flags: nat)

  datatype Bb = Bb(head: int, tail: int, idx: nat, prevs: seq<Edge>, succs: seq<Edge>)

  /** A block as calloc and func_append_bb leave it. */
  function FreshBb(head: int): Bb { Bb(head, NULL, 0, [], []) }

  ghost predicate AllFresh(bbs: seq<Bb>) {
    forall i :: 0 <= i < |bbs| ==> bbs[i] == FreshBb(bbs[i].head)
  }

  ghost predicate HeadsSorted(bbs: seq<Bb>) {
    forall i, j :: 0 <= i < j < |bbs| ==> bbs[i].head < bbs[j].head
  }

  ghost predicate HasHead(bbs: seq<Bb>, h: int) {
    exists i :: 0 <= i < |bbs| && bbs[i].head == h
  }

  /** The list func_partition_bb_head must produce: the leaders, each once, in order. */
  ghost predicate HeadsAreLeaders(insns: seq<Insn>, s: int, e: int, bbs: seq<Bb>)
    requires 0 <= s <= e < |insns|
  {
    && HeadsSorted(bbs)
    && forall h :: HasHead(bbs, h) <==> IsLeader(insns, s, e, h)
  }

  /** The blocks tile [s, e]: each ends just before the next head, the last one at e. */
  ghost predicate Tiled(e: int, bbs: seq<Bb>) {
    && |bbs| > 0
    && bbs[|bbs| - 1].tail == e
    && forall i :: 0 <= i < |bbs| - 1 ==> bbs[i].tail == bbs[i + 1].head - 1
  }

  /** The list between ENTRY and EXIT. */
  ghost function Inner(bbs: seq<Bb>): seq<Bb>
    requires |bbs| >= 2
  {
    bbs[1..|bbs| - 1]
  }

  /** dst is what func_search_bb_with_head finds: the first block with that head, if any. */
  ghost predicate Resolves(bbs: seq<Bb>, insn: int, dst: Option<nat>) {
    match dst
    case Some(p) => p < |bbs| && bbs[p].head == insn && forall k :: 0 <= k < p ==> bbs[k].head != insn
    case None => !HasHead(bbs, insn)
  }

  /** The successor list of block k, by the kind of its tail. */
  ghost predicate TailEdges(insns: seq<Insn>, bbs: seq<Bb>, k: int)
    requires 0 < k < |bbs| - 1
  {
    var t := bbs[k].tail;
    var out := bbs[k].succs;
    && 0 <= t < |insns|
    && if !IsJmpInsn(insns[t].code) || IsExit(insns[t]) then
         out == [Edge(k, Some(k + 1), EDGE_FLAG_FALLTHROUGH)]
       else if IsJa(insns[t]) then
         |out| == 1 && out[0] == Edge(k, out[0].dst, EDGE_FLAG_JUMP) && Resolves(bbs, Target(t, insns[t]), out[0].dst)
       else
         && |out| == 2
         && out[0] == Edge(k, Some(k + 1), EDGE_FLAG_FALLTHROUGH)
         && out[1] == Edge(k, out[1].dst, EDGE_FLAG_JUMP)
         && Resolves(bbs, Target(t, insns[t]), out[1].dst)
  }

  ghost predicate EdgesDone(insns: seq<Insn>, bbs: seq<Bb>, b: int)
    requires b <= |bbs| - 1
  {
    forall k {:trigger TailEdges(insns, bbs, k)} :: 0 < k < b ==> TailEdges(insns, bbs, k)
  }

  /** Everything cfg_build promises about one function's finished list. */
  ghost predicate Built(insns: seq<Insn>, s: int, e: int, bbs: seq<Bb>) {
    && 0 <= s <= e < |insns|
    && |bbs| >= 3
    && HeadsAreLeaders(insns, s, e, Inner(bbs))
    && Tiled(e, Inner(bbs))
    && (forall k :: 0 < k < |bbs| - 1 ==> bbs[k].idx == k + 1 && bbs[k].prevs == [])
    && bbs[0] == Bb(NULL, NULL, ENTRY_BLOCK_INDEX, [], [Edge(0, Some(1), EDGE_FLAG_FALLTHROUGH)])
    && bbs[|bbs| - 1] == Bb(NULL, NULL, EXIT_BLOCK_INDEX,
                            [Edge(|bbs| - 2, Some(|bbs| - 1), EDGE_FLAG_FALLTHROUGH)], [])
    && EdgesDone(insns, bbs, |bbs| - 1)
  }

  /** struct func_node with its block list. */
  class Func {
    var start: int
    var end: int
    var idx: nat
    var bbs: seq<Bb>
    var bbNum: nat

    constructor (start: int, idx: nat)
      ensures this.start == start && this.end == NULL && this.idx == idx && bbs == [] && bbNum == 0
    {
      this.start, this.end, this.idx, this.bbs, this.bbNum := start, NULL, idx, [], 0;
    }

    /** func_append_bb: sorted insertion; an existing head is found again, not duplicated. */
    method AppendBb(insn: int)
      requires HeadsSorted(bbs) && AllFresh(bbs)
      modifies this`bbs
      ensures HeadsSorted(bbs) && AllFresh(bbs) && |bbs| > 0
      ensures forall h :: HasHead(bbs, h) <==> HasHead(old(bbs), h) || h == insn
    {
      var i := 0;
      while i < |bbs|
        invariant i <= |bbs|
        invariant forall k :: 0 <= k < i ==> bbs[k].head < insn
      {
        if bbs[i].head == insn {
          return;
        } else if bbs[i].head > insn {
          break;
        }
        i := i + 1;
      }
      ghost var was := bbs;
      bbs := bbs[..i] + [FreshBb(insn)] + bbs[i..];
      InsertedHeads(was, bbs, i, insn);
    }

    /** func_partition_bb_head. */
    method PartitionBbHead(insns: seq<Insn>)
      requires 0 <= start <= end < |insns|
      modifies this`bbs
      ensures AllFresh(bbs) && HeadsAreLeaders(insns, start, end, bbs)
    {
      bbs := [];
      var cur := start;
      AppendBb(cur);
      while cur <= end
        invariant start <= cur <= end + 1
        invariant HeadsSorted(bbs) && AllFresh(bbs)
        invariant forall h :: HasHead(bbs, h) <==> LeaderBefore(insns, start, cur, h)
      {
        ghost var was := bbs;
        LeaderBeforeStep(insns, start, cur);
        if IsJmpInsn(insns[cur].code) {
          var opcode := Op(insns[cur].code);
          if opcode == BPF_EXIT || opcode == BPF_CALL {
            cur := cur + 1;
            continue;
          }
          AppendBb(Target(cur, insns[cur]));
          if opcode != BPF_JA {
            AppendBb(cur + 1);
          }
        }
        cur := cur + 1;
      }
      LeaderBeforeEnd(insns, start, end);
    }

    /** func_partition_bb_tail. */
    method PartitionBbTail()
      requires |bbs| > 0 && AllFresh(bbs)
      modifies this`bbs, this`bbNum
      ensures |bbs| == old(|bbs|) && Tiled(end, bbs)
      ensures forall k :: 0 <= k < |bbs| ==>
        bbs[k] == FreshBb(old(bbs)[k].head).(tail := bbs[k].tail, idx := NUM_FIXED_BLOCKS + k)
      ensures bbNum == |bbs| + NUM_FIXED_BLOCKS
    {
      var bbIdx := NUM_FIXED_BLOCKS;
      var last := |bbs| - 1;
      bbs := bbs[last := bbs[last].(tail := end)];
      var b := 0;
      while b != last
        invariant 0 <= b <= last && last == |bbs| - 1 && |bbs| == old(|bbs|)
        invariant bbIdx == NUM_FIXED_BLOCKS + b
        invariant bbs[last] == FreshBb(old(bbs)[last].head).(tail := end)
        invariant forall k :: 0 <= k < |bbs| ==> bbs[k].head == old(bbs)[k].head
        invariant forall k :: b <= k < last ==> bbs[k] == FreshBb(old(bbs)[k].head)
        invariant forall k :: 0 <= k < b ==>
          bbs[k] == FreshBb(old(bbs)[k].head).(tail := bbs[k].tail, idx := NUM_FIXED_BLOCKS + k)
        invariant forall k :: 0 <= k < b ==> bbs[k].tail == bbs[k + 1].head - 1
        decreases last - b
      {
        bbs := bbs[b := bbs[b].(tail := bbs[b + 1].head - 1, idx := bbIdx)];
        bbIdx := bbIdx + 1;
        b := b + 1;
      }
      bbs := bbs[last := bbs[last].(idx := bbIdx)];
      bbIdx := bbIdx + 1;
      bbNum := bbIdx;
    }

    /** func_add_special_bb. */
    method AddSpecialBb()
      modifies this`bbs
      ensures bbs == [FreshBb(NULL).(idx := ENTRY_BLOCK_INDEX)] + old(bbs) + [FreshBb(NULL).(idx := EXIT_BLOCK_INDEX)]
    {
      bbs := [FreshBb(NULL).(idx := ENTRY_BLOCK_INDEX)] + bbs;
      bbs := bbs + [FreshBb(NULL).(idx := EXIT_BLOCK_INDEX)];
    }

    /** func_search_bb_with_head. */
    method SearchBbWithHead(insn: int) returns (bb: Option<nat>)
      ensures Resolves(bbs, insn, bb)
    {
      var i := 0;
      while i < |bbs|
        invariant i <= |bbs|
        invariant forall k :: 0 <= k < i ==> bbs[k].head != insn
      {
        if bbs[i].head == insn {
          return Some(i);
        }
        i := i + 1;
      }
      return None;
    }

    /** The body of func_add_bb_edges' loop: the out-edges of block b, by the kind of its tail. */
    method AddTailEdges(insns: seq<Insn>, b: nat)
      requires 0 < b < |bbs| - 1 && bbs[b].succs == [] && 0 <= bbs[b].tail < |insns|
      modifies this`bbs
      ensures |bbs| == old(|bbs|) && bbs == old(bbs)[b := old(bbs)[b].(succs := bbs[b].succs)]
      ensures TailEdges(insns, bbs, b)
    {
      var tail := bbs[b].tail;
      var insn := insns[tail];
      if !IsJmpInsn(insn.code) || Op(insn.code) == BPF_EXIT {
        bbs := bbs[b := bbs[b].(succs := [Edge(b, Some(b + 1), EDGE_FLAG_FALLTHROUGH)])];
        return;
      }
      var dst := SearchBbWithHead(Target(tail, insn));
      ghost var was := bbs;
      if Op(insn.code) == BPF_JA {
        bbs := bbs[b := bbs[b].(succs := [Edge(b, dst, EDGE_FLAG_JUMP)])];
      } else {
        bbs := bbs[b := bbs[b].(succs := [Edge(b, Some(b + 1), EDGE_FLAG_FALLTHROUGH), Edge(b, dst, EDGE_FLAG_JUMP)])];
      }
      SameHeadsResolve(was, bbs, Target(tail, insn), dst);
    }

    /** func_add_bb_edges. */
    method AddBbEdges(insns: seq<Insn>)
      requires |bbs| >= 3
      requires forall k :: 0 <= k < |bbs| ==> bbs[k].prevs == [] && bbs[k].succs == []
      requires forall k :: 0 < k < |bbs| - 1 ==> 0 <= bbs[k].tail < |insns|
      modifies this`bbs
      ensures |bbs| == old(|bbs|)
      ensures forall k :: 0 <= k < |bbs| ==>
        bbs[k] == old(bbs)[k].(prevs := bbs[k].prevs, succs := bbs[k].succs)
      ensures bbs[0].prevs == [] && bbs[0].succs == [Edge(0, Some(1), EDGE_FLAG_FALLTHROUGH)]
      ensures bbs[|bbs| - 1].prevs == [Edge(|bbs| - 2, Some(|bbs| - 1), EDGE_FLAG_FALLTHROUGH)]
      ensures bbs[|bbs| - 1].succs == []
      ensures forall k :: 0 < k < |bbs| - 1 ==> bbs[k].prevs == []
      ensures EdgesDone(insns, bbs, |bbs| - 1)
    {
      ghost var was := bbs;
      var exit := |bbs| - 1;
      bbs := bbs[0 := bbs[0].(succs := [Edge(0, Some(1), EDGE_FLAG_FALLTHROUGH)])];
      bbs := bbs[exit := bbs[exit].(prevs := [Edge(exit - 1, Some(exit), EDGE_FLAG_FALLTHROUGH)])];
      var b := 1;
      while b != exit
        invariant 1 <= b <= exit && |bbs| == |was| && exit == |bbs| - 1
        invariant forall k :: 0 <= k < |bbs| ==> bbs[k] == was[k].(prevs := bbs[k].prevs, succs := bbs[k].succs)
        invariant forall k :: b <= k < exit ==> bbs[k] == was[k]
        invariant bbs[0] == was[0].(succs := [Edge(0, Some(1), EDGE_FLAG_FALLTHROUGH)])
        invariant bbs[exit] == was[exit].(prevs := [Edge(exit - 1, Some(exit), EDGE_FLAG_FALLTHROUGH)])
        invariant forall k :: 0 < k < exit ==> bbs[k].prevs == []
        invariant EdgesDone(insns, bbs, b)
        decreases exit - b
      {
        ghost var before := bbs;
        AddTailEdges(insns, b);
        EdgesDoneStep(insns, before, bbs, b);
        b := b + 1;
      }
    }

    /** func_partition_bb: heads, tails and the special blocks. */
    method PartitionBb(insns: seq<Insn>) returns (ghost inner: seq<Bb>)
      requires WellFormedFunc(insns, start, end)
      modifies this`bbs, this`bbNum
      ensures |inner| > 0 && HeadsAreLeaders(insns, start, end, inner) && Tiled(end, inner)
      ensures forall k :: 0 <= k < |inner| ==>
        inner[k] == FreshBb(inner[k].head).(tail := inner[k].tail, idx := k + NUM_FIXED_BLOCKS)
      ensures bbs == [FreshBb(NULL).(idx := ENTRY_BLOCK_INDEX)] + inner + [FreshBb(NULL).(idx := EXIT_BLOCK_INDEX)]
      ensures bbNum == |bbs|
    {
      PartitionBbHead(insns);
      ghost var heads := bbs;
      StartIsHead(insns, start, end, heads);
      PartitionBbTail();
      inner := bbs;
      SameHeads(heads, inner);
      AddSpecialBb();
    }

    /** The loop body of cfg_build for one function. */
    method BuildBlocks(insns: seq<Insn>)
      requires WellFormedFunc(insns, start, end)
      modifies this`bbs, this`bbNum
      ensures Built(insns, start, end, bbs)
      ensures bbNum == |bbs|
    {
      ghost var inner := PartitionBb(insns);
      ghost var full := bbs;
      TailsInRange(insns, start, end, inner);
      AddBbEdges(insns);
      BuiltFromPasses(insns, start, end, inner, full, bbs);
    }
  }

  lemma StartIsHead(insns: seq<Insn>, s: int, e: int, bbs: seq<Bb>)
    requires 0 <= s <= e < |insns| && HeadsAreLeaders(insns, s, e, bbs)
    ensures |bbs| > 0
  {
    assert IsLeader(insns, s, e, s);
    assert HasHead(bbs, s);
  }

  /** The passes compose: partitioned inner blocks, special blocks around them, then edges. */
  lemma BuiltFromPasses(insns: seq<Insn>, s: int, e: int, inner: seq<Bb>, full: seq<Bb>, bbs: seq<Bb>)
    requires 0 <= s <= e < |insns| && |inner| > 0
    requires HeadsAreLeaders(insns, s, e, inner) && Tiled(e, inner)
    requires forall k :: 0 <= k < |inner| ==>
      inner[k] == FreshBb(inner[k].head).(tail := inner[k].tail, idx := NUM_FIXED_BLOCKS + k)
    requires |bbs| == |full| == |inner| + 2
    requires full[0] == FreshBb(NULL).(idx := ENTRY_BLOCK_INDEX)
    requires full[|inner| + 1] == FreshBb(NULL).(idx := EXIT_BLOCK_INDEX)
    requires forall k :: 0 <= k < |inner| ==> full[k + 1] == inner[k]
    requires forall k :: 0 <= k < |bbs| ==> bbs[k] == full[k].(prevs := bbs[k].prevs, succs := bbs[k].succs)
    requires bbs[0].prevs == [] && bbs[0].succs == [Edge(0, Some(1), EDGE_FLAG_FALLTHROUGH)]
    requires bbs[|bbs| - 1].prevs == [Edge(|bbs| - 2, Some(|bbs| - 1), EDGE_FLAG_FALLTHROUGH)]
    requires bbs[|bbs| - 1].succs == []
    requires forall k :: 0 < k < |bbs| - 1 ==> bbs[k].prevs == []
    requires EdgesDone(insns, bbs, |bbs| - 1)
    ensures Built(insns, s, e, bbs)
  {
    InnerKeepsHeads(inner, bbs);
    SameHeads(inner, Inner(bbs));
    assert Tiled(e, Inner(bbs));
    forall k | 0 < k < |bbs| - 1
      ensures bbs[k].idx == k + 1
    {
      assert full[k - 1 + 1] == inner[k - 1];
    }
  }

  /** Inserting at the first larger head keeps the list sorted and adds that one head. */
  lemma InsertedHeads(was: seq<Bb>, now: seq<Bb>, i: nat, insn: int)
    requires HeadsSorted(was) && i <= |was|
    requires forall k :: 0 <= k < i ==> was[k].head < insn
    requires i < |was| ==> was[i].head > insn
    requires now == was[..i] + [FreshBb(insn)] + was[i..]
    ensures HeadsSorted(now)
    ensures forall h :: HasHead(now, h) <==> HasHead(was, h) || h == insn
  {
    assert forall k :: 0 <= k < |now| ==> now[k] == if k < i then was[k] else if k == i then FreshBb(insn) else was[k - 1];
    forall h | HasHead(was, h)
      ensures HasHead(now, h)
    {
      var k :| 0 <= k < |was| && was[k].head == h;
      assert now[if k < i then k else k + 1].head == h;
    }
    assert now[i].head == insn;
  }

  /** Leaders contributed by the instructions before `cur`. */
  ghost predicate LeaderBefore(insns: seq<Insn>, s: int, cur: int, h: int)
    requires 0 <= s <= cur <= |insns|
  {
    || h == s
    || (exists pc :: s <= pc < cur && IsBranch(insns[pc]) && Target(pc, insns[pc]) == h)
    || (s < h <= cur && IsCond(insns[h - 1]))
  }

  lemma LeaderBeforeStep(insns: seq<Insn>, s: int, cur: int)
    requires 0 <= s <= cur < |insns|
    ensures forall h :: LeaderBefore(insns, s, cur + 1, h) <==>
      || LeaderBefore(insns, s, cur, h)
      || (IsBranch(insns[cur]) && h == Target(cur, insns[cur]))
      || (IsCond(insns[cur]) && h == cur + 1)
  {
  }

  lemma LeaderBeforeEnd(insns: seq<Insn>, s: int, e: int)
    requires 0 <= s <= e < |insns|
    ensures forall h :: LeaderBefore(insns, s, e + 1, h) <==> IsLeader(insns, s, e, h)
  {
  }

  /** Passes that keep every head keep the leader property. */
  lemma SameHeads(a: seq<Bb>, b: seq<Bb>)
    requires |a| == |b| && forall k :: 0 <= k < |a| ==> a[k].head == b[k].head
    ensures HeadsSorted(a) ==> HeadsSorted(b)
    ensures forall h :: HasHead(a, h) <==> HasHead(b, h)
  {
  }

  lemma SameHeadsResolve(a: seq<Bb>, b: seq<Bb>, insn: int, dst: Option<nat>)
    requires |a| == |b| && forall k :: 0 <= k < |a| ==> a[k].head == b[k].head
    requires Resolves(a, insn, dst)
    ensures Resolves(b, insn, dst)
  {
  }

  lemma EdgesDoneStep(insns: seq<Insn>, a: seq<Bb>, b: seq<Bb>, n: int)
    requires |a| == |b| && 0 < n < |a| - 1 && forall k :: 0 <= k < |a| ==> a[k].head == b[k].head
    requires forall k :: 0 <= k < |a| && k != n ==> a[k] == b[k]
    requires EdgesDone(insns, a, n) && TailEdges(insns, b, n)
    ensures EdgesDone(insns, b, n + 1)
  {
    forall k | 0 < k < n + 1
      ensures TailEdges(insns, b, k)
    {
      assert k < n ==> TailEdges(insns, a, k);
    }
  }

  /** With in-range targets every leader, and so every tail, lies in the function. */
  lemma TailsInRange(insns: seq<Insn>, s: int, e: int, bbs: seq<Bb>)
    requires WellFormedFunc(insns, s, e)
    requires HeadsAreLeaders(insns, s, e, bbs) && Tiled(e, bbs)
    ensures forall k :: 0 <= k < |bbs| ==> s <= bbs[k].head <= bbs[k].tail <= e
    ensures bbs[0].head == s
  {
    forall k | 0 <= k < |bbs|
      ensures s <= bbs[k].head <= e
    {
      assert HasHead(bbs, bbs[k].head);
    }
    assert HasHead(bbs, s);
    forall k | 0 <= k < |bbs|
      ensures bbs[k].head <= bbs[k].tail <= e
    {
      if k < |bbs| - 1 {
        assert bbs[k].head < bbs[k + 1].head;
      }
    }
  }

  lemma InnerKeepsHeads(inner: seq<Bb>, bbs: seq<Bb>)
    requires |bbs| == |inner| + 2
    requires forall k :: 0 <= k < |inner| ==> bbs[k + 1].head == inner[k].head && bbs[k + 1].tail == inner[k].tail
    ensures |Inner(bbs)| == |inner|
    ensures forall k :: 0 <= k < |inner| ==> Inner(bbs)[k].head == inner[k].head && Inner(bbs)[k].tail == inner[k].tail
  {
  }

  ghost predicate Increasing(s: seq<int>) { forall i, j :: 0 <= i < j < |s| ==> s[i] < s[j] }

  /** Creation order numbers the functions 0 .. n-1 without repeats. */
  ghost predicate Numbering(s: seq<nat>) {
    && (forall i :: 0 <= i < |s| ==> s[i] < |s|)
    && forall i, j :: 0 <= i < j < |s| ==> s[i] != s[j]
  }

  function InsertAt<T>(s: seq<T>, i: nat, x: T): (r: seq<T>)
    requires i <= |s|
    ensures |r| == |s| + 1
    ensures forall k {:trigger r[k]} :: 0 <= k < |r| ==> r[k] == if k < i then s[k] else if k == i then x else s[k - 1]
  {
    s[..i] + [x] + s[i..]
  }

  lemma InsertIncreasing(s: seq<int>, i: nat, x: int)
    requires Increasing(s) && i <= |s|
    requires forall k :: 0 <= k < i ==> s[k] < x
    requires i < |s| ==> x < s[i]
    ensures Increasing(InsertAt(s, i, x))
    ensures forall y :: y in InsertAt(s, i, x) <==> y in s || y == x
  {
  }

  lemma InsertNumbering(s: seq<nat>, i: nat)
    requires Numbering(s) && i <= |s|
    ensures Numbering(InsertAt(s, i, |s|))
  {
  }

  ghost predicate AllBuilt(insns: seq<Insn>, starts: seq<int>, ends: seq<int>, graphs: seq<seq<Bb>>) {
    && |graphs| <= |starts| == |ends|
    && forall k {:trigger Built(insns, starts[k], ends[k], graphs[k])} ::
      0 <= k < |graphs| ==> Built(insns, starts[k], ends[k], graphs[k])
  }

  /** The functions, in list order, are exactly the ranges between consecutive function starts. */
  ghost predicate FuncsTile(insns: seq<Insn>, starts: seq<int>, ends: seq<int>) {
    && |starts| == |ends| > 0
    && Increasing(starts)
    && (forall s :: s in starts <==> IsFuncStart(insns, s))
    && ends == EndsOf(starts, |insns|)
  }

  /** Where functions with these starts end: before the next start, the last one with the program. */
  ghost function EndsOf(starts: seq<int>, n: nat): (ends: seq<int>)
    ensures |ends| == |starts|
  {
    seq(|starts|, k requires 0 <= k < |starts| => if k == |starts| - 1 then n - 1 else starts[k + 1] - 1)
  }

  lemma StartsTile(insns: seq<Insn>, starts: seq<int>)
    requires Increasing(starts) && forall s :: s in starts <==> StartBefore(insns, |insns|, s)
    ensures |starts| > 0 && FuncsTile(insns, starts, EndsOf(starts, |insns|))
  {
    assert forall s :: s in starts <==> IsFuncStart(insns, s);
    assert 0 in starts;
  }

  /** Each listed function is a range between starts, so the verifier's guarantee applies to it. */
  lemma FuncIsRange(insns: seq<Insn>, starts: seq<int>, ends: seq<int>, k: nat)
    requires WellFormed(insns) && FuncsTile(insns, starts, ends) && k < |starts|
    ensures IsFuncRange(insns, starts[k], ends[k])
    ensures WellFormedFunc(insns, starts[k], ends[k])
  {
    var s, e := starts[k], ends[k];
    assert s in starts && starts[|starts| - 1] in starts;
    if k < |starts| - 1 {
      assert starts[k + 1] in starts && starts[k] < starts[k + 1] <= starts[|starts| - 1];
    }
    forall j | s < j <= e
      ensures !IsFuncStart(insns, j)
    {
      if j in starts {
        var m :| 0 <= m < |starts| && starts[m] == j;
      }
    }
  }

  lemma NotBetween(starts: seq<int>, ends: seq<int>, k: nat, m: nat)
    requires |starts| == |ends| && Increasing(starts) && k < |starts| && m < |starts|
    requires k < |starts| - 1 ==> ends[k] == starts[k + 1] - 1
    ensures starts[m] <= starts[k] || (k < |starts| - 1 && ends[k] < starts[m])
  {
  }

  ghost predicate InFunc(starts: seq<int>, ends: seq<int>, k: int, pc: int) {
    0 <= k < |starts| == |ends| && starts[k] <= pc <= ends[k]
  }

  /** Functions tile the program: every instruction is in exactly one of them. */
  lemma FuncsCover(insns: seq<Insn>, starts: seq<int>, ends: seq<int>, pc: int)
    requires WellFormed(insns) && FuncsTile(insns, starts, ends)
    ensures 0 <= pc < |insns| <==> exists k :: InFunc(starts, ends, k, pc)
    ensures forall j, k :: InFunc(starts, ends, j, pc) && InFunc(starts, ends, k, pc) ==> j == k
  {
    assert starts[0] in starts && IsFuncStart(insns, 0);
    if 0 <= pc < |insns| {
      var z :| 0 <= z < |starts| && starts[z] == 0;
      var k := FindFunc(insns, starts, ends, pc, 0);
      assert InFunc(starts, ends, k, pc);
    }
    forall j, k | InFunc(starts, ends, j, pc) && InFunc(starts, ends, k, pc)
      ensures j == k && 0 <= pc < |insns|
    {
      assert starts[j] in starts;
      NotBetween(starts, ends, j, k);
      NotBetween(starts, ends, k, j);
      FuncIsRange(insns, starts, ends, j);
    }
  }

  lemma {:induction false} FindFunc(
      insns: seq<Insn>, starts: seq<int>, ends: seq<int>, pc: int, from: nat) returns (k: nat)
    requires FuncsTile(insns, starts, ends) && from < |starts| && starts[from] <= pc < |insns|
    ensures InFunc(starts, ends, k, pc)
    decreases |starts| - from
  {
    if pc <= ends[from] {
      k := from;
    } else {
      k := FindFunc(insns, starts, ends, pc, from + 1);
    }
  }

  lemma AllBuiltSnoc(insns: seq<Insn>, starts: seq<int>, ends: seq<int>, graphs: seq<seq<Bb>>, g: seq<Bb>)
    requires AllBuilt(insns, starts, ends, graphs) && |graphs| < |starts|
    requires Built(insns, starts[|graphs|], ends[|graphs|], g)
    ensures AllBuilt(insns, starts, ends, graphs + [g])
  {
  }

  /** struct cfg. The ghost fields are the function nodes' fields, in list order. */
  class Graph {
    var funcs: seq<Func>
    var funcNum: nat
    ghost var starts: seq<int>
    ghost var indices: seq<nat>
    ghost var ends: seq<int>
    ghost var graphs: seq<seq<Bb>>

    constructor ()
      ensures Valid() && funcs == []
    {
      funcs, funcNum, starts, indices, ends, graphs := [], 0, [], [], [], [];
    }

    /** The list is sorted by start and numbered in creation order. */
    ghost predicate Valid()
      reads this, funcs
    {
      && |starts| == |indices| == |funcs| == funcNum
      && (forall k {:trigger funcs[k]} :: 0 <= k < |funcs| ==> funcs[k].start == starts[k] && funcs[k].idx == indices[k])
      && Increasing(starts)
      && Numbering(indices)
    }

    ghost predicate EndsSet()
      reads this, funcs
    {
      |ends| == |funcs| && forall k {:trigger funcs[k]} :: 0 <= k < |funcs| ==> funcs[k].end == ends[k]
    }

    ghost predicate BlocksBuilt()
      reads this, funcs
    {
      && |graphs| == |funcs|
      && forall k {:trigger funcs[k]} :: 0 <= k < |funcs| ==>
           funcs[k].bbs == graphs[k] && funcs[k].bbNum == |graphs[k]|
    }

    /** cfg_append_func: sorted insertion of a function start. */
    method AppendFunc(insn: int)
      requires Valid()
      modifies this
      ensures Valid()
      ensures forall s :: s in starts <==> s in old(starts) || s == insn
      ensures forall k :: 0 <= k < |funcs| ==> funcs[k] in old(funcs) || fresh(funcs[k])
    {
      var i := 0;
      while i < |funcs|
        invariant i <= |funcs|
        invariant forall k :: 0 <= k < i ==> starts[k] < insn
      {
        if funcs[i].start == insn {
          return;
        } else if funcs[i].start > insn {
          break;
        }
        i := i + 1;
      }
      InsertFunc(i, insn);
    }

    /** A new function at position i of the sorted list. */
    method InsertFunc(i: nat, insn: int)
      requires Valid() && i <= |funcs|
      requires (forall k :: 0 <= k < i ==> starts[k] < insn) && (i < |starts| ==> insn < starts[i])
      modifies this
      ensures Valid()
      ensures forall s :: s in starts <==> s in old(starts) || s == insn
      ensures forall k :: 0 <= k < |funcs| ==> funcs[k] in old(funcs) || fresh(funcs[k])
    {
      var newFunc := new Func(insn, funcNum);
      InsertIncreasing(starts, i, insn);
      InsertNumbering(indices, i);
      funcs := InsertAt(funcs, i, newFunc);
      starts, indices := InsertAt(starts, i, insn), InsertAt(indices, i, funcNum);
      funcNum := funcNum + 1;
    }

    /** cfg_partition_funcs. */
    method PartitionFuncs(insns: seq<Insn>)
      requires |insns| > 0 && Valid() && funcs == []
      modifies this
      ensures Valid() && EndsSet() && FuncsTile(insns, starts, ends)
      ensures forall k :: 0 <= k < |funcs| ==> fresh(funcs[k])
    {
      AppendFunc(0);
      var cur := 0;
      while cur < |insns|
        invariant 0 <= cur <= |insns| && Valid()
        invariant forall k :: 0 <= k < |funcs| ==> fresh(funcs[k])
        invariant forall s :: s in starts <==> StartBefore(insns, cur, s)
      {
        if IsPseudoCall(insns[cur]) {
          AppendFunc(Target(cur, insns[cur]));
        }
        cur := cur + 1;
      }
      StartsTile(insns, starts);
      SetEnds(|insns|);
    }

    /** Sets one function's end; functions with other starts are other objects. */
    method SetEnd(f: Func, k: nat, end: int)
      requires Valid() && k < |funcs| && funcs[k] == f
      modifies f`end
      ensures Valid() && f.end == end
      ensures forall j :: 0 <= j < |funcs| && j != k ==> funcs[j].end == old(funcs[j].end)
    {
      OtherFuncs(k);
      f.end := end;
    }

    /** The second half of cfg_partition_funcs: each function ends where the next one starts. */
    method SetEnds(n: nat)
      requires Valid() && |funcs| > 0
      modifies this`ends, funcs
      ensures Valid() && EndsSet()
      ensures ends == EndsOf(starts, n)
    {
      ends := EndsOf(starts, n);
      var last := |funcs| - 1;
      SetEnd(funcs[last], last, n - 1);
      var f := 0;
      while f != last
        invariant 0 <= f <= last && Valid()
        invariant forall k {:trigger funcs[k]} :: 0 <= k < |funcs| && (k < f || k == last) ==> funcs[k].end == ends[k]
        decreases last - f
        modifies funcs
      {
        assert ends[f] == funcs[f + 1].start - 1;
        SetEnd(funcs[f], f, funcs[f + 1].start - 1);
        f := f + 1;
      }
    }

    /** cfg_build: partition into functions, then build every function's graph. */
    method Build(insns: seq<Insn>)
      requires WellFormed(insns) && Valid() && funcs == []
      modifies this
      ensures Valid() && EndsSet() && BlocksBuilt()
      ensures FuncsTile(insns, starts, ends)
      ensures AllBuilt(insns, starts, ends, graphs)
    {
      PartitionFuncs(insns);
      BuildFuncs(insns);
    }

    /** cfg_build for one function; the others are other objects. */
    method BuildFunc(insns: seq<Insn>, k: nat, f: Func)
      requires WellFormed(insns) && Valid() && EndsSet() && FuncsTile(insns, starts, ends)
      requires k < |funcs| && funcs[k] == f
      modifies f`bbs, f`bbNum
      ensures Built(insns, starts[k], ends[k], f.bbs) && f.bbNum == |f.bbs|
      ensures forall j :: 0 <= j < |funcs| && j != k ==>
        funcs[j].bbs == old(funcs[j].bbs) && funcs[j].bbNum == old(funcs[j].bbNum)
    {
      OtherFuncs(k);
      FuncIsRange(insns, starts, ends, k);
      f.BuildBlocks(insns);
    }

    lemma OtherFuncs(k: nat)
      requires Valid() && k < |funcs|
      ensures forall j :: 0 <= j < |funcs| && j != k ==> funcs[j] != funcs[k]
    {
      forall j | 0 <= j < |funcs| && j != k
        ensures funcs[j] != funcs[k]
      {
        assert starts[j] != starts[k];
      }
    }

    /** The loop of cfg_build over the functions. */
    method BuildFuncs(insns: seq<Insn>)
      requires WellFormed(insns) && Valid() && EndsSet() && FuncsTile(insns, starts, ends)
      modifies this`graphs, funcs
      ensures Valid() && EndsSet() && BlocksBuilt()
      ensures AllBuilt(insns, starts, ends, graphs)
    {
      ghost var built: seq<seq<Bb>> := [];
      var i := 0;
      while i < |funcs|
        invariant i <= |funcs| && i == |built| && Valid() && EndsSet()
        invariant forall k {:trigger funcs[k]} :: 0 <= k < i ==> funcs[k].bbs == built[k] && funcs[k].bbNum == |built[k]|
        invariant AllBuilt(insns, starts, ends, built)
        modifies funcs
      {
        BuildFunc(insns, i, funcs[i]);
        AllBuiltSnoc(insns, starts, ends, built, funcs[i].bbs);
        built := built + [funcs[i].bbs];
        i := i + 1;
      }
      graphs := built;
    }
  }

  ghost predicate StartBefore(insns: seq<Insn>, cur: int, s: int)
    requires 0 <= cur <= |insns|
  {
    s == 0 || exists pc :: 0 <= pc < cur && IsPseudoCall(insns[pc]) && Target(pc, insns[pc]) == s
  }
}
