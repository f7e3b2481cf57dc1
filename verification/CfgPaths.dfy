// What the graph of bpftool/src/cfg.c means: executions and graph paths correspond.
module CfgPaths {
  import opened Prelude
  import opened Ebpf
  import opened Cfg

  /** What the instruction set says of a code: 5 and 6 are the jump classes, the high four bits tell jumps apart. */
  datatype Control = Falls | FallsTwo | Jumps | Branches | Calls | Exits

  function ControlOf(code: Byte): Control {
    if code == 0x18 then FallsTwo
    else if code % 8 != 5 && code % 8 != 6 then Falls
    else if code / 16 == 0 then Jumps
    else if code / 16 == 8 then Calls
    else if code / 16 == 9 then Exits
    else Branches
  }

  /** The builder tells the same kinds of instructions apart. */
  lemma KindsAgree(i: Insn)
    ensures IsJmpInsn(i.code) <==> !ControlOf(i.code).Falls? && !ControlOf(i.code).FallsTwo?
    ensures IsJa(i) <==> ControlOf(i.code) == Jumps
    ensures IsCond(i) <==> ControlOf(i.code) == Branches
    ensures IsCall(i) <==> ControlOf(i.code) == Calls
    ensures IsExit(i) <==> ControlOf(i.code) == Exits
    ensures IsWide(i) <==> ControlOf(i.code) == FallsTwo
    ensures IsPseudoCall(i) <==> i.code == 0x85 && i.srcReg == 1
  {
  }

  /** One step of control inside a function; a call runs elsewhere and comes back to the next instruction. */
  ghost predicate Step(insns: seq<Insn>, pc: int, next: int)
    requires 0 <= pc < |insns|
  {
    var i := insns[pc];
    if IsExit(i) then false
    else if IsJa(i) then next == Target(pc, i)
    else if IsCond(i) then next == pc + 1 || next == Target(pc, i)
    else if IsWide(i) then next == pc + 2
    else next == pc + 1
  }

  /** The steps of the instruction set, by code and offset. */
  lemma StepByCode(insns: seq<Insn>, pc: int, next: int)
    requires 0 <= pc < |insns|
    ensures Step(insns, pc, next) <==>
      match ControlOf(insns[pc].code)
      case Exits => false
      case Jumps => next == pc + 1 + insns[pc].off
      case Branches => next == pc + 1 || next == pc + 1 + insns[pc].off
      case FallsTwo => next == pc + 2
      case _ => next == pc + 1
  {
    KindsAgree(insns[pc]);
  }

  /** A finite run of [s, e] from its start; it ends at the latest at the first EXIT, which has no step. */
  ghost predicate Execution(insns: seq<Insn>, s: int, e: int, tr: seq<int>)
    requires 0 <= s <= e < |insns|
  {
    && |tr| > 0 && tr[0] == s
    && (forall i :: 0 <= i < |tr| ==> s <= tr[i] <= e)
    && forall i :: 0 <= i < |tr| - 1 ==> Step(insns, tr[i], tr[i + 1])
  }

  ghost predicate Real(bbs: seq<Bb>, p: int) { 0 < p < |bbs| - 1 }

  ghost predicate InBlock(bbs: seq<Bb>, p: int, pc: int) {
    Real(bbs, p) && bbs[p].head <= pc <= bbs[p].tail
  }

  ghost predicate HeadIs(bbs: seq<Bb>, p: int, pc: int) { Real(bbs, p) && bbs[p].head == pc }

  ghost predicate HasEdge(bbs: seq<Bb>, p: int, q: int)
    requires 0 <= p < |bbs|
  {
    exists i :: 0 <= i < |bbs[p].succs| && bbs[p].succs[i].dst == Some(q)
  }

  /** A path from ENTRY along successor edges. */
  ghost predicate IsPath(bbs: seq<Bb>, path: seq<int>) {
    && |path| > 0 && path[0] == 0
    && (forall i :: 0 <= i < |path| ==> 0 <= path[i] < |bbs|)
    && forall i :: 0 <= i < |path| - 1 ==> HasEdge(bbs, path[i], path[i + 1])
  }

  /** The blocks a run enters, in order, after ENTRY: one for each time control is at a head. */
  ghost function Project(bbs: seq<Bb>, tr: seq<int>): (path: seq<int>)
    ensures |path| > 0
  {
    if tr == [] then [0]
    else
      var pc := tr[|tr| - 1];
      var before := Project(bbs, tr[..|tr| - 1]);
      if q :| HeadIs(bbs, q, pc) then before + [q] else before
  }

  /** A JA or EXIT is the last instruction or is followed by a leader, as after dead-code removal. */
  ghost predicate Sealed(insns: seq<Insn>, s: int, e: int)
    requires 0 <= s <= e < |insns|
  {
    forall pc :: s <= pc < e && (IsJa(insns[pc]) || IsExit(insns[pc])) ==> IsLeader(insns, s, e, pc + 1)
  }

  /** A function the verifier accepted and the graph cfg_build made for it. */
  ghost predicate Graphed(insns: seq<Insn>, s: int, e: int, bbs: seq<Bb>) {
    WellFormedFunc(insns, s, e) && Built(insns, s, e, bbs)
  }

  /** The facts about a finished list the proofs below use. */
  ghost predicate Shaped(insns: seq<Insn>, s: int, e: int, bbs: seq<Bb>) {
    && 0 <= s <= e < |insns| && |bbs| >= 3
    && bbs[1].head == s && bbs[|bbs| - 2].tail == e
    && (forall p :: Real(bbs, p) ==> s <= bbs[p].head <= bbs[p].tail <= e)
    && (forall p :: Real(bbs, p) && p < |bbs| - 2 ==> bbs[p].tail + 1 == bbs[p + 1].head)
    && (forall p, q :: Real(bbs, p) && Real(bbs, q) && p < q ==> bbs[p].tail < bbs[q].head)
    && (forall h :: (exists p :: HeadIs(bbs, p, h)) <==> IsLeader(insns, s, e, h))
    && bbs[0].head == NULL && bbs[|bbs| - 1].head == NULL
    && bbs[0].succs == [Edge(0, Some(1), EDGE_FLAG_FALLTHROUGH)]
    && EdgesDone(insns, bbs, |bbs| - 1)
  }

  lemma {:induction false} SortedTails(e: int, inner: seq<Bb>, p: nat, q: nat)
    requires HeadsSorted(inner) && Tiled(e, inner) && p < q < |inner|
    ensures inner[p].tail < inner[q].head
  {
    if p + 1 < q {
      assert inner[p + 1].head < inner[q].head;
    }
  }

  lemma HeadsShape(insns: seq<Insn>, s: int, e: int, bbs: seq<Bb>)
    requires 0 <= s <= e < |insns| && |bbs| >= 3 && HeadsAreLeaders(insns, s, e, Inner(bbs))
    ensures forall h :: (exists p :: HeadIs(bbs, p, h)) <==> IsLeader(insns, s, e, h)
  {
    var inner := Inner(bbs);
    forall h
      ensures (exists p :: HeadIs(bbs, p, h)) <==> IsLeader(insns, s, e, h)
    {
      assert HasHead(inner, h) <==> IsLeader(insns, s, e, h);
      if p :| HeadIs(bbs, p, h) {
        assert inner[p - 1].head == h;
      }
      if k :| 0 <= k < |inner| && inner[k].head == h {
        assert HeadIs(bbs, k + 1, h);
      }
    }
  }

  lemma Shape(insns: seq<Insn>, s: int, e: int, bbs: seq<Bb>)
    requires Graphed(insns, s, e, bbs)
    ensures Shaped(insns, s, e, bbs)
  {
    TailsInRange(insns, s, e, Inner(bbs));
    HeadsShape(insns, s, e, bbs);
    InnerShape(s, e, bbs);
  }

  /** The tiling of the inner list, in terms of the whole list. */
  lemma InnerShape(s: int, e: int, bbs: seq<Bb>)
    requires |bbs| >= 3 && HeadsSorted(Inner(bbs)) && Tiled(e, Inner(bbs)) && Inner(bbs)[0].head == s
    requires forall k :: 0 <= k < |bbs| - 2 ==> s <= Inner(bbs)[k].head <= Inner(bbs)[k].tail <= e
    ensures bbs[1].head == s && bbs[|bbs| - 2].tail == e
    ensures forall p :: Real(bbs, p) ==> s <= bbs[p].head <= bbs[p].tail <= e
    ensures forall p :: Real(bbs, p) && p < |bbs| - 2 ==> bbs[p].tail + 1 == bbs[p + 1].head
    ensures forall p, q :: Real(bbs, p) && Real(bbs, q) && p < q ==> bbs[p].tail < bbs[q].head
  {
    var inner := Inner(bbs);
    forall p | Real(bbs, p)
      ensures s <= bbs[p].head <= bbs[p].tail <= e
      ensures p < |bbs| - 2 ==> bbs[p].tail + 1 == bbs[p + 1].head
    {
      assert bbs[p] == inner[p - 1];
      if p < |bbs| - 2 {
        assert bbs[p + 1] == inner[p - 1 + 1];
      }
    }
    forall p, q | Real(bbs, p) && Real(bbs, q) && p < q
      ensures bbs[p].tail < bbs[q].head
    {
      SortedTails(e, inner, p - 1, q - 1);
      assert bbs[p] == inner[p - 1] && bbs[q] == inner[q - 1];
    }
  }

  /** Blocks tile the function: every instruction is in exactly one of them. */
  lemma BlocksTile(insns: seq<Insn>, s: int, e: int, bbs: seq<Bb>, pc: int)
    requires Graphed(insns, s, e, bbs)
    ensures s <= pc <= e <==> exists p :: InBlock(bbs, p, pc)
    ensures forall p, q :: InBlock(bbs, p, pc) && InBlock(bbs, q, pc) ==> p == q
  {
    Shape(insns, s, e, bbs);
    if s <= pc <= e {
      var p := FindBlock(insns, s, e, bbs, pc, 1);
      assert InBlock(bbs, p, pc);
    }
  }

  lemma {:induction false} FindBlock(insns: seq<Insn>, s: int, e: int, bbs: seq<Bb>, pc: int, from: int) returns (p: int)
    requires Shaped(insns, s, e, bbs) && Real(bbs, from) && bbs[from].head <= pc <= e
    ensures InBlock(bbs, p, pc)
    decreases |bbs| - from
  {
    if pc <= bbs[from].tail {
      p := from;
    } else {
      assert Real(bbs, from + 1);
      p := FindBlock(insns, s, e, bbs, pc, from + 1);
    }
  }

  /** A resolved jump edge leads to the block that starts at the target. */
  lemma ResolvesToHead(insns: seq<Insn>, s: int, e: int, bbs: seq<Bb>, insn: int, dst: Option<nat>)
    requires Shaped(insns, s, e, bbs) && Resolves(bbs, insn, dst) && insn != NULL
    ensures dst.Some? <==> IsLeader(insns, s, e, insn)
    ensures dst.Some? ==> HeadIs(bbs, dst.value, insn)
    ensures forall q :: HeadIs(bbs, q, insn) ==> dst == Some(q)
  {
    forall q | HeadIs(bbs, q, insn)
      ensures dst == Some(q)
    {
      assert HasHead(bbs, insn);
    }
    if IsLeader(insns, s, e, insn) {
      var q :| HeadIs(bbs, q, insn);
    }
    if dst.Some? {
      assert HeadIs(bbs, dst.value, insn);
    }
  }

  /** One step stays inside the block, above pc and at no head, or arrives at the head of some block. */
  ghost predicate Lands(bbs: seq<Bb>, p: int, pc: int, next: int) {
    (exists q :: HeadIs(bbs, q, next)) || Stays(bbs, p, pc, next)
  }

  ghost predicate Stays(bbs: seq<Bb>, p: int, pc: int, next: int) {
    InBlock(bbs, p, next) && pc < next && forall q :: !HeadIs(bbs, q, next)
  }

  /** What the graph must say about one step: it stays inside the block, or it enters a block along an edge. */
  ghost predicate StepMatches(bbs: seq<Bb>, p: int, pc: int, next: int)
    requires 0 <= p < |bbs|
  {
    (exists q :: HeadIs(bbs, q, next) && HasEdge(bbs, p, q)) || Stays(bbs, p, pc, next)
  }

  /** The last instruction of the block that holds pc, read off the instructions alone. */
  ghost function BlockEnd(insns: seq<Insn>, s: int, e: int, pc: int): (t: int)
    requires 0 <= s <= pc <= e < |insns|
    ensures pc <= t <= e
    decreases e - pc
  {
    if pc == e || IsLeader(insns, s, e, pc + 1) then pc else BlockEnd(insns, s, e, pc + 1)
  }

  /**
   * The jump of the JA at pc is one of those at the end of its block: the fall-through to the next block, which every
   * tail but JA has, or the jump of the tail itself.
   */
  ghost predicate Rejoins(insns: seq<Insn>, s: int, e: int, pc: int)
    requires 0 <= s <= pc <= e < |insns|
  {
    var t := BlockEnd(insns, s, e, pc);
    || (!IsJa(insns[t]) && t < e && Target(pc, insns[pc]) == t + 1)
    || ((IsBranch(insns[t]) || IsCall(insns[t])) && Target(pc, insns[pc]) == Target(t, insns[t]))
  }

  lemma {:induction false} BlockEndIsTail(insns: seq<Insn>, s: int, e: int, bbs: seq<Bb>, p: int, pc: int)
    requires Shaped(insns, s, e, bbs) && InBlock(bbs, p, pc)
    ensures BlockEnd(insns, s, e, pc) == bbs[p].tail
    decreases e - pc
  {
    if pc == bbs[p].tail {
      if pc < e {
        assert HeadIs(bbs, p + 1, pc + 1);
      }
    } else {
      if IsLeader(insns, s, e, pc + 1) {
        TailOfBlock(insns, s, e, bbs, p, pc);
      }
      BlockEndIsTail(insns, s, e, bbs, p, pc + 1);
    }
  }

  lemma NextPc(insns: seq<Insn>, s: int, e: int, bbs: seq<Bb>, p: int, pc: int)
    requires Shaped(insns, s, e, bbs) && InBlock(bbs, p, pc) && pc < e
    requires pc == bbs[p].tail ==> !IsJa(insns[pc]) && !IsExit(insns[pc])
    ensures StepMatches(bbs, p, pc, pc + 1)
  {
    if pc < bbs[p].tail {
      assert InBlock(bbs, p, pc + 1);
      assert forall q :: Real(bbs, q) && q < p ==> bbs[q].tail < bbs[p].head;
      assert forall q :: Real(bbs, q) && p < q ==> bbs[p].tail < bbs[q].head;
    } else {
      assert TailEdges(insns, bbs, p);
      assert bbs[p].succs[0].dst == Some(p + 1);
      assert HeadIs(bbs, p + 1, pc + 1);
    }
  }

  /** A JA arrives at a head; its block has an edge there exactly when it rejoins. */
  lemma JaStep(insns: seq<Insn>, s: int, e: int, bbs: seq<Bb>, p: int, pc: int)
    requires Shaped(insns, s, e, bbs) && WellFormedFunc(insns, s, e)
    requires InBlock(bbs, p, pc) && IsJa(insns[pc])
    ensures exists q :: HeadIs(bbs, q, Target(pc, insns[pc]))
    ensures StepMatches(bbs, p, pc, Target(pc, insns[pc])) <==> Rejoins(insns, s, e, pc)
  {
    var h := Target(pc, insns[pc]);
    assert IsBranch(insns[pc]) && IsLeader(insns, s, e, h);
    var q :| HeadIs(bbs, q, h);
    OneHead(insns, s, e, bbs, h);
    BlockEndIsTail(insns, s, e, bbs, p, pc);
    TailHasEdge(insns, s, e, bbs, p, q, h);
  }

  /** Which heads the tail of a block has an edge to. */
  lemma TailHasEdge(insns: seq<Insn>, s: int, e: int, bbs: seq<Bb>, p: int, q: int, h: int)
    requires Shaped(insns, s, e, bbs) && WellFormedFunc(insns, s, e) && Real(bbs, p) && HeadIs(bbs, q, h)
    ensures var t := bbs[p].tail;
      HasEdge(bbs, p, q) <==>
        || (!IsJa(insns[t]) && t < e && h == t + 1)
        || ((IsBranch(insns[t]) || IsCall(insns[t])) && h == Target(t, insns[t]))
  {
    var t := bbs[p].tail;
    assert TailEdges(insns, bbs, p);
    EdgeList(bbs, p, q);
    OneHead(insns, s, e, bbs, h);
    NextHead(insns, s, e, bbs, p, q, h);
    if IsBranch(insns[t]) || IsCall(insns[t]) {
      var dst := bbs[p].succs[if IsJa(insns[t]) then 0 else 1].dst;
      ResolvesToHead(insns, s, e, bbs, Target(t, insns[t]), dst);
    }
  }

  lemma NextHead(insns: seq<Insn>, s: int, e: int, bbs: seq<Bb>, p: int, q: int, h: int)
    requires Shaped(insns, s, e, bbs) && Real(bbs, p) && HeadIs(bbs, q, h)
    ensures q == p + 1 <==> bbs[p].tail < e && h == bbs[p].tail + 1
  {
    if p < |bbs| - 2 {
      assert HeadIs(bbs, p + 1, bbs[p].tail + 1);
      OneHead(insns, s, e, bbs, h);
    }
  }

  /** The graph follows one step exactly when the step is not that of a JA that does not rejoin. */
  lemma StepFollowsGraph(insns: seq<Insn>, s: int, e: int, bbs: seq<Bb>, p: int, pc: int, next: int)
    requires Shaped(insns, s, e, bbs) && WellFormedFunc(insns, s, e)
    requires InBlock(bbs, p, pc) && Step(insns, pc, next)
    ensures s <= next <= e && Lands(bbs, p, pc, next)
    ensures StepMatches(bbs, p, pc, next) <==> (IsJa(insns[pc]) ==> Rejoins(insns, s, e, pc))
  {
    var i := insns[pc];
    if IsJa(i) {
      JaStep(insns, s, e, bbs, p, pc);
    } else if IsCond(i) && next == Target(pc, i) {
      TailOfBlock(insns, s, e, bbs, p, pc);
      assert IsLeader(insns, s, e, next);
      var q :| HeadIs(bbs, q, next);
      TailHasEdge(insns, s, e, bbs, p, q, next);
    } else {
      assert pc < e;
      NextPc(insns, s, e, bbs, p, pc);
      if IsWide(i) {
        assert insns[pc + 1].code == 0 && !IsLeader(insns, s, e, pc + 1);
        NextPc(insns, s, e, bbs, p, pc + 1);
      }
    }
  }

  /** The graph follows every step of a function exactly when every JA rejoins. */
  lemma GraphCoversIff(insns: seq<Insn>, s: int, e: int, bbs: seq<Bb>)
    requires Graphed(insns, s, e, bbs)
    ensures (forall p, pc, next ::
               InBlock(bbs, p, pc) && s <= pc <= e && Step(insns, pc, next) ==> StepMatches(bbs, p, pc, next))
      <==> (forall pc :: s <= pc <= e && IsJa(insns[pc]) ==> Rejoins(insns, s, e, pc))
  {
    Shape(insns, s, e, bbs);
    forall p, pc, next | InBlock(bbs, p, pc) && s <= pc <= e && Step(insns, pc, next)
      ensures StepMatches(bbs, p, pc, next) <==> (IsJa(insns[pc]) ==> Rejoins(insns, s, e, pc))
    {
      StepFollowsGraph(insns, s, e, bbs, p, pc, next);
    }
    forall pc | s <= pc <= e && IsJa(insns[pc])
      ensures exists p :: InBlock(bbs, p, pc) && Step(insns, pc, Target(pc, insns[pc]))
    {
      var p := FindBlock(insns, s, e, bbs, pc, 1);
      assert Step(insns, pc, Target(pc, insns[pc]));
    }
  }

  /** A branch, and in a sealed function an EXIT too, is the last instruction of its block. */
  lemma TailOfBlock(insns: seq<Insn>, s: int, e: int, bbs: seq<Bb>, p: int, pc: int)
    requires Shaped(insns, s, e, bbs) && InBlock(bbs, p, pc)
    requires IsCond(insns[pc]) || pc == e || IsLeader(insns, s, e, pc + 1)
    ensures pc == bbs[p].tail
  {
    if pc < e {
      assert IsLeader(insns, s, e, pc + 1);
      var q :| HeadIs(bbs, q, pc + 1);
      assert InBlock(bbs, q, pc + 1);
    }
  }

  /** Every JA the run takes rejoins. */
  ghost predicate TakesRejoining(insns: seq<Insn>, s: int, e: int, tr: seq<int>)
    requires 0 <= s <= e < |insns| && forall i :: 0 <= i < |tr| ==> s <= tr[i] <= e
  {
    forall i :: 0 <= i < |tr| - 1 && IsJa(insns[tr[i]]) ==> Rejoins(insns, s, e, tr[i])
  }

  /**
   * The blocks an execution enters end with the block of its last instruction, and they form a path of the graph
   * exactly when every JA the execution takes rejoins.
   */
  lemma {:induction false} ExecutionProjects(insns: seq<Insn>, s: int, e: int, bbs: seq<Bb>, tr: seq<int>)
    requires Graphed(insns, s, e, bbs) && Execution(insns, s, e, tr)
    ensures InBlock(bbs, Project(bbs, tr)[|Project(bbs, tr)| - 1], tr[|tr| - 1])
    ensures IsPath(bbs, Project(bbs, tr)) <==> TakesRejoining(insns, s, e, tr)
  {
    Shape(insns, s, e, bbs);
    ProjectsFrom(insns, s, e, bbs, tr);
  }

  /** The path of an execution ends in the block of pc; it is a path of the graph iff every JA taken rejoins. */
  ghost predicate Projected(insns: seq<Insn>, s: int, e: int, bbs: seq<Bb>, tr: seq<int>)
    requires 0 <= s <= e < |insns| && |tr| > 0 && forall i :: 0 <= i < |tr| ==> s <= tr[i] <= e
  {
    var path := Project(bbs, tr);
    InBlock(bbs, path[|path| - 1], tr[|tr| - 1]) && (IsPath(bbs, path) <==> TakesRejoining(insns, s, e, tr))
  }

  lemma {:induction false} ProjectsFrom(insns: seq<Insn>, s: int, e: int, bbs: seq<Bb>, tr: seq<int>)
    requires Shaped(insns, s, e, bbs) && WellFormedFunc(insns, s, e) && Execution(insns, s, e, tr)
    ensures Projected(insns, s, e, bbs, tr)
  {
    if |tr| == 1 {
      ProjectEntry(insns, s, e, bbs);
      assert tr == [s];
    } else {
      ExecutionInit(insns, s, e, tr);
      ProjectsFrom(insns, s, e, bbs, tr[..|tr| - 1]);
      ProjectStep(insns, s, e, bbs, tr);
    }
  }

  lemma ProjectEntry(insns: seq<Insn>, s: int, e: int, bbs: seq<Bb>)
    requires Shaped(insns, s, e, bbs)
    ensures Project(bbs, [s]) == [0, 1] && IsPath(bbs, [0, 1]) && HeadIs(bbs, 1, s)
    ensures Projected(insns, s, e, bbs, [s])
  {
    assert HeadIs(bbs, 1, s);
    assert bbs[0].succs[0].dst == Some(1);
    assert [s][..0] == [];
    assert Project(bbs, []) == [0];
    ProjectSnoc(insns, s, e, bbs, [s], 1);
  }

  lemma ExecutionInit(insns: seq<Insn>, s: int, e: int, tr: seq<int>)
    requires 0 <= s <= e < |insns| && Execution(insns, s, e, tr) && |tr| > 1
    ensures Execution(insns, s, e, tr[..|tr| - 1])
    ensures s <= tr[|tr| - 2] <= e && Step(insns, tr[|tr| - 2], tr[|tr| - 1])
  {
    assert Step(insns, tr[|tr| - 2], tr[|tr| - 2 + 1]);
  }

  lemma TakesOneMore(insns: seq<Insn>, s: int, e: int, tr: seq<int>)
    requires 0 <= s <= e < |insns| && |tr| > 1 && forall i :: 0 <= i < |tr| ==> s <= tr[i] <= e
    ensures TakesRejoining(insns, s, e, tr) <==>
      && TakesRejoining(insns, s, e, tr[..|tr| - 1])
      && (IsJa(insns[tr[|tr| - 2]]) ==> Rejoins(insns, s, e, tr[|tr| - 2]))
  {
    var init := tr[..|tr| - 1];
    assert forall i :: 0 <= i < |init| ==> init[i] == tr[i];
  }

  lemma ProjectStep(insns: seq<Insn>, s: int, e: int, bbs: seq<Bb>, tr: seq<int>)
    requires Shaped(insns, s, e, bbs) && WellFormedFunc(insns, s, e)
    requires |tr| >= 2 && (forall i :: 0 <= i < |tr| ==> s <= tr[i] <= e)
    requires Step(insns, tr[|tr| - 2], tr[|tr| - 1]) && Projected(insns, s, e, bbs, tr[..|tr| - 1])
    ensures Projected(insns, s, e, bbs, tr)
  {
    var path := Project(bbs, tr[..|tr| - 1]);
    TakesOneMore(insns, s, e, tr);
    PathStep(insns, s, e, bbs, tr, path, path[|path| - 1], tr[|tr| - 2], tr[|tr| - 1]);
  }

  lemma PathStep(
      insns: seq<Insn>, s: int, e: int, bbs: seq<Bb>, tr: seq<int>, path: seq<int>, p: int, pc: int, next: int)
    requires Shaped(insns, s, e, bbs) && WellFormedFunc(insns, s, e)
    requires |tr| >= 2 && next == tr[|tr| - 1] && path == Project(bbs, tr[..|tr| - 1]) && p == path[|path| - 1]
    requires InBlock(bbs, p, pc) && Step(insns, pc, next)
    ensures InBlock(bbs, Project(bbs, tr)[|Project(bbs, tr)| - 1], next)
    ensures IsPath(bbs, Project(bbs, tr)) <==> IsPath(bbs, path) && (IsJa(insns[pc]) ==> Rejoins(insns, s, e, pc))
  {
    StepFollowsGraph(insns, s, e, bbs, p, pc, next);
    if q :| HeadIs(bbs, q, next) {
      ProjectSnoc(insns, s, e, bbs, tr, q);
      ExtendPath(bbs, path, q);
      EntersByEdge(insns, s, e, bbs, p, pc, next, q);
    }
  }

  lemma EntersByEdge(insns: seq<Insn>, s: int, e: int, bbs: seq<Bb>, p: int, pc: int, next: int, q: int)
    requires Shaped(insns, s, e, bbs) && 0 <= p < |bbs| && HeadIs(bbs, q, next)
    ensures StepMatches(bbs, p, pc, next) <==> HasEdge(bbs, p, q)
  {
    OneHead(insns, s, e, bbs, next);
  }

  /** Arriving at a head adds that block to the projection. */
  lemma ProjectSnoc(insns: seq<Insn>, s: int, e: int, bbs: seq<Bb>, tr: seq<int>, q: int)
    requires Shaped(insns, s, e, bbs) && |tr| > 0 && HeadIs(bbs, q, tr[|tr| - 1])
    ensures Project(bbs, tr) == Project(bbs, tr[..|tr| - 1]) + [q]
  {
  }

  lemma OneHead(insns: seq<Insn>, s: int, e: int, bbs: seq<Bb>, pc: int)
    requires Shaped(insns, s, e, bbs)
    ensures forall p, q :: HeadIs(bbs, p, pc) && HeadIs(bbs, q, pc) ==> p == q
  {
  }

  lemma ExtendPath(bbs: seq<Bb>, path: seq<int>, q: int)
    requires |path| > 0 && 0 <= path[|path| - 1] < |bbs| && 0 <= q < |bbs|
    ensures IsPath(bbs, path + [q]) <==> IsPath(bbs, path) && HasEdge(bbs, path[|path| - 1], q)
  {
    var longer := path + [q];
    assert forall i :: 0 <= i < |path| ==> longer[i] == path[i];
    if IsPath(bbs, longer) {
      assert HasEdge(bbs, longer[|path| - 1], longer[|path| - 1 + 1]);
      forall i | 0 <= i < |path| - 1
        ensures HasEdge(bbs, path[i], path[i + 1])
      {
        assert HasEdge(bbs, longer[i], longer[i + 1]);
      }
    }
  }

  // ----- exactness of the edges -----

  /** The instruction at the tail of block p. */
  ghost function TailInsn(insns: seq<Insn>, bbs: seq<Bb>, p: int): Insn
    requires |insns| > 0 && 0 <= p < |bbs|
  {
    if 0 <= bbs[p].tail < |insns| then insns[bbs[p].tail] else insns[0]
  }

  lemma EdgeList(bbs: seq<Bb>, p: int, q: int)
    requires 0 <= p < |bbs|
    ensures |bbs[p].succs| == 1 ==> (HasEdge(bbs, p, q) <==> bbs[p].succs[0].dst == Some(q))
    ensures |bbs[p].succs| == 2 ==>
      (HasEdge(bbs, p, q) <==> bbs[p].succs[0].dst == Some(q) || bbs[p].succs[1].dst == Some(q))
  {
  }

  /** A plain, JA or conditional tail has exactly the edges its steps need. */
  lemma EdgesExact(insns: seq<Insn>, s: int, e: int, bbs: seq<Bb>, p: int, q: int)
    requires Graphed(insns, s, e, bbs) && Real(bbs, p)
    requires !IsExit(TailInsn(insns, bbs, p)) && !IsCall(TailInsn(insns, bbs, p))
    ensures 0 <= bbs[p].tail < |insns|
    ensures HasEdge(bbs, p, q) <==> exists next :: Step(insns, bbs[p].tail, next) && HeadIs(bbs, q, next)
  {
    Shape(insns, s, e, bbs);
    WideIsNoTail(insns, s, e, bbs, p);
    ExactFromShape(insns, s, e, bbs, p, q);
  }

  lemma ExactFromShape(insns: seq<Insn>, s: int, e: int, bbs: seq<Bb>, p: int, q: int)
    requires Shaped(insns, s, e, bbs) && WellFormedFunc(insns, s, e) && Real(bbs, p)
    requires var i := TailInsn(insns, bbs, p); !IsExit(i) && !IsCall(i) && !IsWide(i)
    ensures HasEdge(bbs, p, q) <==> exists next :: Step(insns, bbs[p].tail, next) && HeadIs(bbs, q, next)
  {
    var t := bbs[p].tail;
    var i := insns[t];
    assert TailEdges(insns, bbs, p);
    EdgeList(bbs, p, q);
    if IsBranch(i) {
      BranchDst(insns, s, e, bbs, p, q);
      assert Step(insns, t, Target(t, i));
    }
    if !IsJa(i) {
      FallDst(insns, s, e, bbs, p, q);
      assert Step(insns, t, t + 1);
    }
  }

  lemma BranchDst(insns: seq<Insn>, s: int, e: int, bbs: seq<Bb>, p: int, q: int)
    requires Shaped(insns, s, e, bbs) && WellFormedFunc(insns, s, e) && Real(bbs, p)
    requires IsBranch(TailInsn(insns, bbs, p)) && TailEdges(insns, bbs, p)
    ensures HeadIs(bbs, q, Target(bbs[p].tail, TailInsn(insns, bbs, p)))
      <==> bbs[p].succs[if IsJa(TailInsn(insns, bbs, p)) then 0 else 1].dst == Some(q)
  {
  }

  lemma FallDst(insns: seq<Insn>, s: int, e: int, bbs: seq<Bb>, p: int, q: int)
    requires Shaped(insns, s, e, bbs) && WellFormedFunc(insns, s, e) && Real(bbs, p)
    requires var i := TailInsn(insns, bbs, p); !IsExit(i) && !IsJa(i)
    ensures HeadIs(bbs, q, bbs[p].tail + 1) <==> q == p + 1
  {
    assert bbs[p].tail < e;
    assert HeadIs(bbs, p + 1, bbs[p].tail + 1);
    OneHead(insns, s, e, bbs, bbs[p].tail + 1);
  }

  /** The second half of a 16-byte load stays in its block, so the first half is never a tail. */
  lemma WideIsNoTail(insns: seq<Insn>, s: int, e: int, bbs: seq<Bb>, p: int)
    requires Shaped(insns, s, e, bbs) && WellFormedFunc(insns, s, e) && Real(bbs, p)
    ensures !IsWide(TailInsn(insns, bbs, p))
  {
    var t := bbs[p].tail;
    if IsWide(insns[t]) {
      assert t < e;
      assert HeadIs(bbs, p + 1, t + 1);
    }
  }

  /** An EXIT tail falls through to the next block in the list, so it reaches EXIT only from the last block. */
  lemma ExitTail(insns: seq<Insn>, s: int, e: int, bbs: seq<Bb>, p: int, q: int)
    requires Graphed(insns, s, e, bbs) && Real(bbs, p) && IsExit(TailInsn(insns, bbs, p))
    ensures HasEdge(bbs, p, q) <==> q == p + 1
    ensures HasEdge(bbs, p, |bbs| - 1) <==> bbs[p].tail == e
  {
    Shape(insns, s, e, bbs);
    assert TailEdges(insns, bbs, p);
    EdgeList(bbs, p, q);
    EdgeList(bbs, p, |bbs| - 1);
    if p < |bbs| - 2 {
      assert bbs[p].tail + 1 == bbs[p + 1].head;
    }
  }

  /** A CALL tail keeps the fall-through and gains an edge to any block that starts at pc + off + 1. */
  lemma CallTail(insns: seq<Insn>, s: int, e: int, bbs: seq<Bb>, p: int, q: int)
    requires Graphed(insns, s, e, bbs) && Real(bbs, p) && IsCall(TailInsn(insns, bbs, p))
    ensures HasEdge(bbs, p, q) <==> q == p + 1 || HeadIs(bbs, q, Target(bbs[p].tail, TailInsn(insns, bbs, p)))
  {
    Shape(insns, s, e, bbs);
    assert TailEdges(insns, bbs, p);
    ResolvesToHead(insns, s, e, bbs, Target(bbs[p].tail, TailInsn(insns, bbs, p)), bbs[p].succs[1].dst);
    EdgeList(bbs, p, q);
  }

  ghost predicate AllResolved(bbs: seq<Bb>, p: int)
    requires 0 <= p < |bbs|
  {
    forall k :: 0 <= k < |bbs[p].succs| ==> bbs[p].succs[k].dst.Some?
  }

  /** Block p does not end in a call to somewhere that is not a leader of this function. */
  ghost predicate CallStaysHere(insns: seq<Insn>, s: int, e: int, bbs: seq<Bb>, p: int)
    requires 0 <= s <= e < |insns| && 0 <= p < |bbs|
  {
    Real(bbs, p) && IsCall(TailInsn(insns, bbs, p)) ==>
      IsLeader(insns, s, e, Target(bbs[p].tail, TailInsn(insns, bbs, p)))
  }

  /** Every edge has a destination exactly when no block ends in a call to somewhere that is not a leader here. */
  lemma EdgesResolved(insns: seq<Insn>, s: int, e: int, bbs: seq<Bb>)
    requires Graphed(insns, s, e, bbs)
    ensures (forall p :: 0 <= p < |bbs| ==> AllResolved(bbs, p))
      <==> (forall p :: 0 <= p < |bbs| ==> CallStaysHere(insns, s, e, bbs, p))
  {
    Shape(insns, s, e, bbs);
    forall p | 0 <= p < |bbs|
      ensures AllResolved(bbs, p) <==> CallStaysHere(insns, s, e, bbs, p)
    {
      if Real(bbs, p) {
        BlockResolved(insns, s, e, bbs, p);
      }
    }
  }

  lemma BlockResolved(insns: seq<Insn>, s: int, e: int, bbs: seq<Bb>, p: int)
    requires Shaped(insns, s, e, bbs) && WellFormedFunc(insns, s, e) && Real(bbs, p)
    ensures AllResolved(bbs, p) <==> CallStaysHere(insns, s, e, bbs, p)
  {
    assert TailEdges(insns, bbs, p);
    var t := bbs[p].tail;
    var i := insns[t];
    if IsCall(i) || IsBranch(i) {
      var dst := bbs[p].succs[if IsJa(i) then 0 else 1].dst;
      ResolvesToHead(insns, s, e, bbs, Target(t, i), dst);
      assert IsBranch(i) ==> IsLeader(insns, s, e, Target(t, i));
    }
  }

  ghost predicate LeavesBlock(insns: seq<Insn>, pc: int) {
    0 <= pc < |insns| && (IsJa(insns[pc]) || IsExit(insns[pc]))
  }

  /** Control leaves blocks only at tails exactly when the function is sealed. */
  lemma SealedIffTails(insns: seq<Insn>, s: int, e: int, bbs: seq<Bb>)
    requires Graphed(insns, s, e, bbs)
    ensures Sealed(insns, s, e) <==>
      forall p, pc :: InBlock(bbs, p, pc) && LeavesBlock(insns, pc) ==> pc == bbs[p].tail
  {
    Shape(insns, s, e, bbs);
    if Sealed(insns, s, e) {
      forall p, pc | InBlock(bbs, p, pc) && LeavesBlock(insns, pc)
        ensures pc == bbs[p].tail
      {
        TailOfBlock(insns, s, e, bbs, p, pc);
      }
    }
    if forall p, pc :: InBlock(bbs, p, pc) && LeavesBlock(insns, pc) ==> pc == bbs[p].tail {
      forall pc | s <= pc < e && (IsJa(insns[pc]) || IsExit(insns[pc]))
        ensures IsLeader(insns, s, e, pc + 1)
      {
        var p := FindBlock(insns, s, e, bbs, pc, 1);
        assert HeadIs(bbs, p + 1, pc + 1);
      }
    }
  }

  /** In a sealed function every JA rejoins, so the graph covers it. */
  lemma SealedRejoins(insns: seq<Insn>, s: int, e: int, pc: int)
    requires 0 <= s <= pc <= e < |insns| && Sealed(insns, s, e) && IsJa(insns[pc])
    ensures Rejoins(insns, s, e, pc)
  {
  }

  // ----- every path is an execution -----

  /** Where control leaves straight-line code from pc to t: at the first JA or EXIT, or at t. */
  ghost function Leaver(insns: seq<Insn>, pc: int, t: int): (x: int)
    requires 0 <= pc <= t < |insns|
    ensures pc <= x <= t && (x == t || IsJa(insns[x]) || IsExit(insns[x]))
    ensures forall j :: pc <= j < x ==> !IsJa(insns[j]) && !IsExit(insns[j])
    decreases t - pc
  {
    if pc == t || IsJa(insns[pc]) || IsExit(insns[pc]) then pc else Leaver(insns, pc + 1, t)
  }

  /** The instruction at which control leaves block p. */
  ghost function LeaverOf(insns: seq<Insn>, bbs: seq<Bb>, p: int): (x: int)
    requires 0 <= p < |bbs| && 0 <= bbs[p].head <= bbs[p].tail < |insns|
    ensures bbs[p].head <= x <= bbs[p].tail
  {
    Leaver(insns, bbs[p].head, bbs[p].tail)
  }

  /** A hop whose edge stands for a step: control leaves p for the head of q. */
  ghost predicate RealHop(insns: seq<Insn>, bbs: seq<Bb>, p: int, q: int)
    requires 0 <= p < |bbs|
  {
    && Real(bbs, p) && Real(bbs, q) && HasEdge(bbs, p, q)
    && 0 <= bbs[p].head <= bbs[p].tail < |insns|
    && Step(insns, LeaverOf(insns, bbs, p), bbs[q].head)
  }

  ghost predicate RealPath(insns: seq<Insn>, bbs: seq<Bb>, path: seq<int>) {
    && |insns| > 0 && |bbs| >= 3 && |path| >= 2 && path[0] == 0 && path[1] == 1
    && (forall i :: 0 <= i < |path| ==> 0 <= path[i] < |bbs|)
    && forall i :: 1 <= i < |path| - 1 ==> RealHop(insns, bbs, path[i], path[i + 1])
  }

  /** Steps inside one block that arrive at no head. */
  ghost predicate Inside(insns: seq<Insn>, bbs: seq<Bb>, p: int, run: seq<int>) {
    && |run| > 0 && Real(bbs, p)
    && (forall i :: 0 <= i < |run| ==> InBlock(bbs, p, run[i]) && 0 <= run[i] < |insns|)
    && (forall i :: 1 <= i < |run| ==> bbs[p].head < run[i])
    && forall i :: 0 <= i < |run| - 1 ==> Step(insns, run[i], run[i + 1])
  }

  /** pc is the last instruction a run executes in block p: its leaver, or the 16-byte load that ends there. */
  ghost predicate LastInBlock(insns: seq<Insn>, bbs: seq<Bb>, p: int, pc: int)
    requires 0 <= pc < |insns| && 0 <= p < |bbs| && 0 <= bbs[p].head <= bbs[p].tail < |insns|
  {
    pc == LeaverOf(insns, bbs, p) || (IsWide(insns[pc]) && pc + 1 == LeaverOf(insns, bbs, p))
  }

  lemma {:induction false} RunBlock(
      insns: seq<Insn>, s: int, e: int, bbs: seq<Bb>, p: int, pc: int) returns (run: seq<int>)
    requires Shaped(insns, s, e, bbs) && WellFormedFunc(insns, s, e)
    requires InBlock(bbs, p, pc) && pc <= LeaverOf(insns, bbs, p)
    ensures Inside(insns, bbs, p, run) && run[0] == pc && LastInBlock(insns, bbs, p, run[|run| - 1])
    decreases bbs[p].tail - pc
  {
    assert 0 <= pc < |insns|;
    if LastInBlock(insns, bbs, p, pc) {
      run := [pc];
    } else {
      if IsCond(insns[pc]) {
        TailOfBlock(insns, s, e, bbs, p, pc);
      }
      var next := if IsWide(insns[pc]) then pc + 2 else pc + 1;
      assert Step(insns, pc, next);
      var rest := RunBlock(insns, s, e, bbs, p, next);
      run := [pc] + rest;
    }
  }

  /** Instructions that are no heads leave the projection alone. */
  lemma {:induction false} ProjectInside(
      insns: seq<Insn>, s: int, e: int, bbs: seq<Bb>, p: int, tr: seq<int>, more: seq<int>)
    requires Shaped(insns, s, e, bbs)
    requires forall i :: 0 <= i < |more| ==> InBlock(bbs, p, more[i]) && bbs[p].head < more[i]
    ensures Project(bbs, tr + more) == Project(bbs, tr)
  {
    if more == [] {
      assert tr + more == tr;
    } else {
      var init := more[..|more| - 1];
      var pc := more[|more| - 1];
      assert (tr + more)[..|tr + more| - 1] == tr + init;
      ProjectInside(insns, s, e, bbs, p, tr, init);
      forall q
        ensures !HeadIs(bbs, q, pc)
      {
        assert InBlock(bbs, p, pc);
      }
    }
  }

  /** The last instruction executed in a block can step to the head of any block a real hop leads to. */
  lemma HopIsStep(insns: seq<Insn>, s: int, e: int, bbs: seq<Bb>, p: int, q: int, pc: int)
    requires Shaped(insns, s, e, bbs) && WellFormedFunc(insns, s, e)
    requires 0 <= p < |bbs| && RealHop(insns, bbs, p, q)
    requires InBlock(bbs, p, pc) && LastInBlock(insns, bbs, p, pc)
    ensures Step(insns, pc, bbs[q].head)
  {
    if pc != LeaverOf(insns, bbs, p) {
      assert insns[pc + 1].code == 0;
    }
  }

  /** Every path over real hops is the projection of an execution that ends at its last block's head. */
  lemma {:induction false} PathIsExecution(
      insns: seq<Insn>, s: int, e: int, bbs: seq<Bb>, path: seq<int>) returns (tr: seq<int>)
    requires Graphed(insns, s, e, bbs) && RealPath(insns, bbs, path)
    ensures Execution(insns, s, e, tr) && Project(bbs, tr) == path
    ensures tr[|tr| - 1] == bbs[path[|path| - 1]].head
  {
    Shape(insns, s, e, bbs);
    tr := Realize(insns, s, e, bbs, path);
  }

  lemma {:induction false} Realize(insns: seq<Insn>, s: int, e: int, bbs: seq<Bb>, path: seq<int>) returns (tr: seq<int>)
    requires Shaped(insns, s, e, bbs) && WellFormedFunc(insns, s, e)
    requires RealPath(insns, bbs, path)
    ensures Execution(insns, s, e, tr) && Project(bbs, tr) == path
    ensures HeadIs(bbs, path[|path| - 1], tr[|tr| - 1])
  {
    if |path| == 2 {
      tr := [s];
      ProjectEntry(insns, s, e, bbs);
      assert path == [0, 1];
    } else {
      var init := path[..|path| - 1];
      RealPathInit(insns, bbs, path);
      var tr0 := Realize(insns, s, e, bbs, init);
      tr := RealizeHop(insns, s, e, bbs, tr0, path[|path| - 2], path[|path| - 1]);
      assert path == init + [path[|path| - 1]];
    }
  }

  lemma RealPathInit(insns: seq<Insn>, bbs: seq<Bb>, path: seq<int>)
    requires RealPath(insns, bbs, path) && |path| > 2
    ensures RealPath(insns, bbs, path[..|path| - 1])
    ensures RealHop(insns, bbs, path[|path| - 2], path[|path| - 1])
  {
  }

  lemma RealizeHop(insns: seq<Insn>, s: int, e: int, bbs: seq<Bb>, tr0: seq<int>, p: int, q: int) returns (tr: seq<int>)
    requires Shaped(insns, s, e, bbs) && WellFormedFunc(insns, s, e)
    requires Execution(insns, s, e, tr0) && HeadIs(bbs, p, tr0[|tr0| - 1])
    requires RealHop(insns, bbs, p, q)
    ensures Execution(insns, s, e, tr) && HeadIs(bbs, q, tr[|tr| - 1])
    ensures Project(bbs, tr) == Project(bbs, tr0) + [q]
  {
    var run := RunBlock(insns, s, e, bbs, p, bbs[p].head);
    HopIsStep(insns, s, e, bbs, p, q, run[|run| - 1]);
    var mid := tr0 + run[1..];
    ProjectInside(insns, s, e, bbs, p, tr0, run[1..]);
    tr := mid + [bbs[q].head];
    assert tr[..|tr| - 1] == mid;
    ProjectSnoc(insns, s, e, bbs, tr, q);
    RunThenHop(insns, s, e, tr0, run, bbs[q].head);
  }

  /** A run joined at its first instruction, and one more step. */
  lemma RunThenHop(insns: seq<Insn>, s: int, e: int, tr0: seq<int>, run: seq<int>, h: int)
    requires 0 <= s <= e < |insns| && Execution(insns, s, e, tr0) && |run| > 0 && run[0] == tr0[|tr0| - 1]
    requires (forall i :: 0 <= i < |run| ==> s <= run[i] <= e) && s <= h <= e
    requires (forall i :: 0 <= i < |run| - 1 ==> Step(insns, run[i], run[i + 1])) && Step(insns, run[|run| - 1], h)
    ensures Execution(insns, s, e, tr0 + run[1..] + [h])
  {
    var tr, n := tr0 + run[1..] + [h], |tr0| - 1;
    forall i | 0 <= i < |tr| - 1
      ensures Step(insns, tr[i], tr[i + 1])
    {
      if i < n {
        assert tr[i] == tr0[i] && tr[i + 1] == tr0[i + 1];
      } else if i < n + |run| - 1 {
        assert tr[i] == run[i - n] && tr[i + 1] == run[i - n + 1];
      } else {
        assert tr[i] == run[|run| - 1] && tr[i + 1] == h;
      }
    }
  }

  /** A step that enters a block is the step of its block's leaver; one that stays does not pass the leaver. */
  lemma StepAtLeaver(insns: seq<Insn>, s: int, e: int, bbs: seq<Bb>, p: int, pc: int, next: int)
    requires Shaped(insns, s, e, bbs) && WellFormedFunc(insns, s, e)
    requires InBlock(bbs, p, pc) && pc <= LeaverOf(insns, bbs, p) && Step(insns, pc, next)
    ensures (exists q :: HeadIs(bbs, q, next)) ==> Step(insns, LeaverOf(insns, bbs, p), next)
    ensures Stays(bbs, p, pc, next) ==> next <= LeaverOf(insns, bbs, p)
  {
    if IsCond(insns[pc]) {
      TailOfBlock(insns, s, e, bbs, p, pc);
      assert IsBranch(insns[pc]);
      if next == Target(pc, insns[pc]) {
        assert IsLeader(insns, s, e, next);
      }
    } else if IsJa(insns[pc]) {
      JaStep(insns, s, e, bbs, p, pc);
    } else {
      assert pc < e;
      if q :| HeadIs(bbs, q, next) {
        HeadPastTail(insns, s, e, bbs, p, q, next);
      }
      if IsWide(insns[pc]) {
        assert insns[pc + 1].code == 0 && !IsLeader(insns, s, e, pc + 1);
        SecondHalfInside(insns, s, e, bbs, p, pc);
      }
    }
  }

  lemma HeadPastTail(insns: seq<Insn>, s: int, e: int, bbs: seq<Bb>, p: int, q: int, next: int)
    requires Shaped(insns, s, e, bbs) && Real(bbs, p) && HeadIs(bbs, q, next) && next > bbs[p].head
    ensures next > bbs[p].tail
  {
  }

  lemma SecondHalfInside(insns: seq<Insn>, s: int, e: int, bbs: seq<Bb>, p: int, pc: int)
    requires Shaped(insns, s, e, bbs) && InBlock(bbs, p, pc) && pc < e && !IsLeader(insns, s, e, pc + 1)
    ensures InBlock(bbs, p, pc + 1)
  {
    if pc == bbs[p].tail {
      assert HeadIs(bbs, p + 1, pc + 1);
    }
  }

  /** A path of real hops that ends in the block of pc, not past its leaver. */
  ghost predicate HopsTo(insns: seq<Insn>, bbs: seq<Bb>, path: seq<int>, pc: int) {
    && RealPath(insns, bbs, path)
    && var p := path[|path| - 1];
       InBlock(bbs, p, pc) && 0 <= bbs[p].head && bbs[p].tail < |insns| && pc <= LeaverOf(insns, bbs, p)
  }

  /** The blocks an execution enters, if they form a path at all, form one of real hops. */
  lemma {:induction false} ExecutionHops(insns: seq<Insn>, s: int, e: int, bbs: seq<Bb>, tr: seq<int>)
    requires Shaped(insns, s, e, bbs) && WellFormedFunc(insns, s, e) && Execution(insns, s, e, tr)
    requires IsPath(bbs, Project(bbs, tr))
    ensures HopsTo(insns, bbs, Project(bbs, tr), tr[|tr| - 1])
  {
    if |tr| == 1 {
      ProjectEntry(insns, s, e, bbs);
      assert tr == [s];
    } else {
      var init := tr[..|tr| - 1];
      ExecutionInit(insns, s, e, tr);
      ProjectsFrom(insns, s, e, bbs, init);
      ProjectsFrom(insns, s, e, bbs, tr);
      TakesOneMore(insns, s, e, tr);
      ExecutionHops(insns, s, e, bbs, init);
      OneMoreHop(insns, s, e, bbs, tr, Project(bbs, init), tr[|tr| - 2], tr[|tr| - 1]);
    }
  }

  lemma OneMoreHop(insns: seq<Insn>, s: int, e: int, bbs: seq<Bb>, tr: seq<int>, path: seq<int>, pc: int, next: int)
    requires Shaped(insns, s, e, bbs) && WellFormedFunc(insns, s, e)
    requires |tr| >= 2 && next == tr[|tr| - 1] && path == Project(bbs, tr[..|tr| - 1])
    requires HopsTo(insns, bbs, path, pc) && Step(insns, pc, next) && IsPath(bbs, Project(bbs, tr))
    ensures HopsTo(insns, bbs, Project(bbs, tr), next)
  {
    var p := path[|path| - 1];
    StepFollowsGraph(insns, s, e, bbs, p, pc, next);
    StepAtLeaver(insns, s, e, bbs, p, pc, next);
    if q :| HeadIs(bbs, q, next) {
      ProjectSnoc(insns, s, e, bbs, tr, q);
      ExtendPath(bbs, path, q);
      EnterByHop(insns, s, e, bbs, path, q, next);
    }
  }

  lemma EnterByHop(insns: seq<Insn>, s: int, e: int, bbs: seq<Bb>, path: seq<int>, q: int, next: int)
    requires Shaped(insns, s, e, bbs) && RealPath(insns, bbs, path) && HeadIs(bbs, q, next)
    requires var p := path[|path| - 1];
      && Real(bbs, p) && HasEdge(bbs, p, q) && 0 <= bbs[p].head <= bbs[p].tail < |insns|
      && Step(insns, LeaverOf(insns, bbs, p), next)
    ensures HopsTo(insns, bbs, path + [q], next)
  {
    ExtendRealPath(insns, bbs, path, q);
  }

  lemma ExtendRealPath(insns: seq<Insn>, bbs: seq<Bb>, path: seq<int>, q: int)
    requires RealPath(insns, bbs, path) && RealHop(insns, bbs, path[|path| - 1], q)
    ensures RealPath(insns, bbs, path + [q])
  {
    var longer := path + [q];
    forall i | 1 <= i < |longer| - 1
      ensures RealHop(insns, bbs, longer[i], longer[i + 1])
    {
      if i < |path| - 1 {
        assert RealHop(insns, bbs, path[i], path[i + 1]);
      }
    }
  }

  /** The paths of real hops are exactly the paths that executions project to. */
  lemma RealPathIff(insns: seq<Insn>, s: int, e: int, bbs: seq<Bb>, path: seq<int>)
    requires Graphed(insns, s, e, bbs) && IsPath(bbs, path)
    ensures RealPath(insns, bbs, path) <==> exists tr :: Execution(insns, s, e, tr) && Project(bbs, tr) == path
  {
    Shape(insns, s, e, bbs);
    if RealPath(insns, bbs, path) {
      var tr := PathIsExecution(insns, s, e, bbs, path);
    }
    if tr :| Execution(insns, s, e, tr) && Project(bbs, tr) == path {
      ExecutionHops(insns, s, e, bbs, tr);
    }
  }

  // ----- a program whose graph misses a step -----

  /**
   * A main that ends in a backward JA, followed by a callback that only a BPF_PSEUDO_FUNC load names:
   * map and callback addresses, two zero arguments, the helper call, a test, EXIT, the JA to it; then the callback.
   */
  const CALLBACK: seq<Insn> := [
    Insn(0x18, 1, 0), Insn(0, 0, 0), Insn(0x18, 4, 0), Insn(0, 0, 0), Insn(0xb7, 0, 0), Insn(0xb7, 0, 0),
    Insn(0x85, 0, 0), Insn(0x55, 0, 1), Insn(0x95, 0, 0), Insn(0x05, 0, -2), Insn(0xb7, 0, 0), Insn(0x95, 0, 0)]

  lemma CallbackKinds(pc: nat)
    requires pc < 12
    ensures IsJa(CALLBACK[pc]) <==> pc == 9
    ensures IsExit(CALLBACK[pc]) <==> pc == 8 || pc == 11
    ensures IsCond(CALLBACK[pc]) <==> pc == 7
    ensures IsCall(CALLBACK[pc]) <==> pc == 6
    ensures IsWide(CALLBACK[pc]) <==> pc == 0 || pc == 2
    ensures !IsPseudoCall(CALLBACK[pc])
  {
  }

  lemma CallbackLeaders(h: int)
    ensures IsLeader(CALLBACK, 0, 11, h) <==> h == 0 || h == 8 || h == 9
  {
    forall pc: nat | pc < 12
      ensures IsBranch(CALLBACK[pc]) <==> pc == 7 || pc == 9
      ensures IsCond(CALLBACK[pc]) <==> pc == 7
    {
      CallbackKinds(pc);
    }
    assert IsBranch(CALLBACK[7]) && Target(7, CALLBACK[7]) == 9;
    assert IsBranch(CALLBACK[9]) && Target(9, CALLBACK[9]) == 8;
  }

  lemma CallbackWellFormed()
    ensures WellFormed(CALLBACK)
  {
    forall pc: nat | pc < 12
      ensures !IsPseudoCall(CALLBACK[pc])
    {
      CallbackKinds(pc);
    }
    forall s, e | IsFuncRange(CALLBACK, s, e)
      ensures WellFormedFunc(CALLBACK, s, e)
    {
      assert s == 0 && e == 11;
      CallbackFunc();
    }
  }

  lemma CallbackFunc()
    ensures WellFormedFunc(CALLBACK, 0, 11)
  {
    CallbackKinds(11);
    CallbackLeaders(1);
    CallbackLeaders(3);
    forall pc: nat | pc < 12
      ensures IsBranch(CALLBACK[pc]) ==> 0 <= Target(pc, CALLBACK[pc]) <= 11
      ensures IsWide(CALLBACK[pc]) ==> pc == 0 || pc == 2
    {
      CallbackKinds(pc);
    }
  }

  lemma CallbackRun()
    ensures Execution(CALLBACK, 0, 11, [0, 2, 4, 5, 6, 7, 9, 8])
  {
    forall pc: nat | pc < 12
      ensures IsJa(CALLBACK[pc]) <==> pc == 9
      ensures IsExit(CALLBACK[pc]) <==> pc == 8 || pc == 11
      ensures IsCond(CALLBACK[pc]) <==> pc == 7
      ensures IsWide(CALLBACK[pc]) <==> pc == 0 || pc == 2
    {
      CallbackKinds(pc);
    }
  }

  lemma CallbackDoesNotRejoin()
    ensures !Rejoins(CALLBACK, 0, 11, 9)
  {
    CallbackLeaders(10);
    CallbackLeaders(11);
    CallbackKinds(11);
    assert BlockEnd(CALLBACK, 0, 11, 11) == 11;
    assert BlockEnd(CALLBACK, 0, 11, 10) == 11;
    assert BlockEnd(CALLBACK, 0, 11, 9) == 11;
  }

  /** In whatever graph cfg_build makes of it, an execution of that main is no path. */
  lemma CallbackStepLost(bbs: seq<Bb>)
    requires Built(CALLBACK, 0, 11, bbs)
    ensures WellFormed(CALLBACK) && Execution(CALLBACK, 0, 11, [0, 2, 4, 5, 6, 7, 9, 8])
    ensures !IsPath(bbs, Project(bbs, [0, 2, 4, 5, 6, 7, 9, 8]))
  {
    var tr := [0, 2, 4, 5, 6, 7, 9, 8];
    CallbackWellFormed();
    CallbackFunc();
    CallbackRun();
    CallbackDoesNotRejoin();
    CallbackKinds(9);
    ExecutionProjects(CALLBACK, 0, 11, bbs, tr);
    assert tr[6] == 9;
  }

  // ----- the graph, by code -----

  /** A block starts where the function does, where an instruction jumps to, and behind every conditional jump. */
  lemma HeadsByCode(insns: seq<Insn>, s: int, e: int, bbs: seq<Bb>, h: int)
    requires Graphed(insns, s, e, bbs)
    ensures (exists p :: HeadIs(bbs, p, h)) <==>
      || h == s
      || (exists pc :: s <= pc <= e && JumpsTo(insns, pc, h))
      || (s < h <= e && ControlOf(insns[h - 1].code) == Branches)
  {
    Shape(insns, s, e, bbs);
    forall pc | s <= pc <= e
      ensures JumpsTo(insns, pc, h) <==> IsBranch(insns[pc]) && Target(pc, insns[pc]) == h
    {
      KindsAgree(insns[pc]);
    }
    if s < h <= e {
      KindsAgree(insns[h - 1]);
    }
    KindsAgree(insns[e]);
    assert !IsCond(insns[e]);
    if pc :| s <= pc <= e && IsBranch(insns[pc]) && Target(pc, insns[pc]) == h {
      assert JumpsTo(insns, pc, h);
    }
    assert (exists p :: HeadIs(bbs, p, h)) <==> IsLeader(insns, s, e, h);
  }

  ghost predicate JumpsTo(insns: seq<Insn>, pc: int, h: int)
    requires 0 <= pc < |insns|
  {
    ControlOf(insns[pc].code) in {Jumps, Branches} && h == pc + 1 + insns[pc].off
  }

  /** The edges of block p by the code of its tail: 1 marks a fall-through, 2 a jump, to the block at the target if any. */
  lemma EdgesByCode(insns: seq<Insn>, s: int, e: int, bbs: seq<Bb>, p: int)
    requires Graphed(insns, s, e, bbs) && Real(bbs, p)
    ensures 0 <= bbs[p].tail < |insns|
    ensures var t, succs := bbs[p].tail, bbs[p].succs;
      match ControlOf(insns[t].code)
      case Jumps => |succs| == 1 && JumpEdge(bbs, p, succs[0], t + 1 + insns[t].off)
      case Branches =>
        |succs| == 2 && succs[0] == Edge(p, Some(p + 1), 1) && JumpEdge(bbs, p, succs[1], t + 1 + insns[t].off)
      case Calls =>
        |succs| == 2 && succs[0] == Edge(p, Some(p + 1), 1) && JumpEdge(bbs, p, succs[1], t + 1 + insns[t].off)
      case _ => succs == [Edge(p, Some(p + 1), 1)]
  {
    Shape(insns, s, e, bbs);
    assert TailEdges(insns, bbs, p);
    var t := bbs[p].tail;
    KindsAgree(insns[t]);
    if IsJa(insns[t]) {
      ResolvesToHead(insns, s, e, bbs, Target(t, insns[t]), bbs[p].succs[0].dst);
    } else if IsCond(insns[t]) || IsCall(insns[t]) {
      ResolvesToHead(insns, s, e, bbs, Target(t, insns[t]), bbs[p].succs[1].dst);
    }
  }

  ghost predicate JumpEdge(bbs: seq<Bb>, p: int, edge: Edge, target: int) {
    && edge.src == p && edge.flags == 2
    && (forall q :: HeadIs(bbs, q, target) ==> edge.dst == Some(q))
    && (edge.dst.Some? ==> HeadIs(bbs, edge.dst.value, target))
  }

  /** ENTRY has index 0, EXIT index 1 and the blocks between them 2, 3, ...; ENTRY falls through to the first block. */
  lemma BlocksNumbered(insns: seq<Insn>, s: int, e: int, bbs: seq<Bb>)
    requires Graphed(insns, s, e, bbs)
    ensures bbs[0].idx == 0 && bbs[|bbs| - 1].idx == 1 && forall p :: Real(bbs, p) ==> bbs[p].idx == p + 1
    ensures bbs[0].succs == [Edge(0, Some(1), 1)] && bbs[0].prevs == []
    ensures bbs[|bbs| - 1].prevs == [Edge(|bbs| - 2, Some(|bbs| - 1), 1)] && bbs[|bbs| - 1].succs == []
  {
  }

  /** Functions start at instruction 0 and where a call with source register 1 leads by its offset. */
  lemma StartsByCode(insns: seq<Insn>, starts: seq<int>, ends: seq<int>)
    requires FuncsTile(insns, starts, ends)
    ensures forall s :: s in starts <==>
      s == 0 || exists pc :: 0 <= pc < |insns| && CallsTo(insns[pc], pc, s)
    ensures forall k :: 0 <= k < |starts| ==>
      ends[k] == if k + 1 < |starts| then starts[k + 1] - 1 else |insns| - 1
  {
    forall s, pc | 0 <= pc < |insns|
      ensures CallsTo(insns[pc], pc, s) <==> IsPseudoCall(insns[pc]) && Target(pc, insns[pc]) == s
    {
      KindsAgree(insns[pc]);
    }
    forall s
      ensures s in starts <==> s == 0 || exists pc :: 0 <= pc < |insns| && CallsTo(insns[pc], pc, s)
    {
      assert s in starts <==> IsFuncStart(insns, s);
    }
  }

  predicate CallsTo(i: Insn, pc: int, s: int) { i.code == 0x85 && i.srcReg == 1 && s == pc + 1 + i.off }
}
