// bpftool/src/gen.c: recording relocations. The marks stay closed and cover every recorded path.
module BtfgenRecord {
  import opened Prelude
  import opened Btf
  import opened Btfgen

  /** The references of a marked type that must be marked too: all but members and pointees. */
  function Needs(b: Body): seq<nat> {
    if b.Composite? || b.Ptr? then [] else Refs(b)
  }

  ghost predicate MemberOk(src: seq<BtfType>, m: MarkSet, i: nat, k: nat) {
    && i in m.types && i < |src| && src[i].body.Composite? && k < |src[i].body.members|
    && (src[i].body.members[k].typ == 0 || src[i].body.members[k].typ in m.types)
  }

  /** Marked members have marked types; what a marked array, modifier, typedef or prototype refers to is marked. */
  ghost predicate Closed(src: seq<BtfType>, m: MarkSet) {
    && (forall i :: i in m.types ==> 0 < i < |src|)
    && (forall i, r {:trigger r in Needs(src[i].body)} ::
          i in m.types && r in Needs(src[i].body) ==> r == 0 || r in m.types)
    && forall i, k :: (i, k) in m.members ==> MemberOk(src, m, i, k)
  }

  // ----- skipping modifiers and typedefs -----

  /** Skip at most `depth` modifiers and typedefs. */
  function Skip(btf: seq<BtfType>, id: nat, depth: nat): (r: Option<nat>)
    requires ValidBtf(btf) && id < |btf|
    ensures r.Some? ==> r.value < |btf| && !btf[r.value].body.Ref?
    decreases depth
  {
    if !btf[id].body.Ref? then Some(id)
    else if depth == 0 then None
    else
      assert btf[id].body.typ in Refs(btf[id].body);
      Skip(btf, btf[id].body.typ, depth - 1)
  }

  ghost function Depth(btf: seq<BtfType>): nat { |AllNodes(btf)| }

  ghost function RankOf(btf: seq<BtfType>, id: nat): nat { Rank(btf, NoFollow, Node(id, false)) }

  ghost predicate AcyclicAt(src: seq<BtfType>, id: nat) { AcyclicFrom(src, NoFollow, Node(id, false)) }

  ghost predicate Markable(src: seq<BtfType>, id: nat) {
    id < |src| && AllSupported(src, NoFollow, Reach(src, NoFollow, Node(id, false)))
  }

  /** Whatever must be marked with a supported type is one of the calls its marker makes. */
  lemma NeedIsCall(src: seq<BtfType>, mode: Mode, m: Node, t: nat) returns (k: nat)
    requires m.id < |src| && Supported(mode, src[m.id].body) && t in Needs(src[m.id].body)
    ensures k < |Succ(src, mode, m)| && Succ(src, mode, m)[k].id == t
    ensures !m.behind ==> Succ(src, mode, m)[k] == Node(t, false)
  {
    var refs := Refs(src[m.id].body);
    k :| 0 <= k < |refs| && refs[k] == t;
  }

  /** A referent of a markable type is markable and of smaller rank. */
  lemma MarkableStep(src: seq<BtfType>, id: nat, t: nat)
    requires ValidBtf(src) && AcyclicAt(src, id) && Markable(src, id)
    requires t in Needs(src[id].body)
    ensures Markable(src, t) && AcyclicAt(src, t) && RankOf(src, t) < RankOf(src, id)
  {
    var n, s := Node(id, false), Node(t, false);
    SelfReach(src, NoFollow, n);
    assert Supported(NoFollow, src[id].body);
    var k := NeedIsCall(src, NoFollow, n, t);
    CallBelow(src, NoFollow, n, k);
    CallReaches(src, NoFollow, n, k);
    assert Reach(src, NoFollow, s) <= Reach(src, NoFollow, n);
  }

  lemma CallReaches(src: seq<BtfType>, mode: Mode, n: Node, k: nat)
    requires ValidBtf(src) && n.id < |src| && k < |Succ(src, mode, n)|
    ensures Reach(src, mode, Succ(src, mode, n)[k]) <= Reach(src, mode, n)
  {
    var succ := Succ(src, mode, n);
    ReachStep(src, mode, n);
    forall m | m in Reach(src, mode, succ[k])
      ensures m in ReachAll(src, mode, succ)
    {
      InReachAll(src, mode, succ, m);
    }
  }

  lemma {:induction false} SkipStable(src: seq<BtfType>, id: nat, d1: nat, d2: nat)
    requires ValidBtf(src) && AcyclicAt(src, id) && Markable(src, id)
    requires d1 >= RankOf(src, id) && d2 >= RankOf(src, id)
    ensures Skip(src, id, d1).Some? && Skip(src, id, d1) == Skip(src, id, d2)
    decreases RankOf(src, id)
  {
    if src[id].body.Ref? {
      var t := src[id].body.typ;
      assert t in Needs(src[id].body);
      MarkableStep(src, id, t);
      SkipStable(src, t, d1 - 1, d2 - 1);
    }
  }

  lemma RankBelow(src: seq<BtfType>, id: nat)
    ensures RankOf(src, id) <= Depth(src)
  {
    SubsetSmaller(Reach(src, NoFollow, Node(id, false)), AllNodes(src));
  }

  lemma {:induction false} SkipOne(src: seq<BtfType>, id: nat)
    requires ValidBtf(src) && AcyclicAt(src, id) && Markable(src, id)
    ensures !src[id].body.Ref? ==> Skip(src, id, Depth(src)) == Some(id)
    ensures src[id].body.Ref? ==>
      && src[id].body.typ < |src| && Markable(src, src[id].body.typ) && AcyclicAt(src, src[id].body.typ)
      && RankOf(src, src[id].body.typ) < RankOf(src, id)
      && Skip(src, id, Depth(src)) == Skip(src, src[id].body.typ, Depth(src))
  {
    if src[id].body.Ref? {
      var t := src[id].body.typ;
      assert t in Needs(src[id].body);
      MarkableStep(src, id, t);
      RankBelow(src, id);
      SkipStable(src, t, Depth(src) - 1, Depth(src));
    }
  }

  // ----- access paths -----

  /** Every member index of the target spec is one of its composite's members, and marking its type ends. */
  ghost predicate InBounds(src: seq<BtfType>, id: nat, spec: seq<nat>)
    requires ValidBtf(src) && id < |src|
    decreases |spec|
  {
    spec == [] ||
    match Skip(src, id, Depth(src))
    case None => true
    case Some(t) =>
      match src[t].body
      case Composite(_, _, ms) =>
        && spec[0] < |ms| && ms[spec[0]].typ < |src| && AcyclicAt(src, ms[spec[0]].typ)
        && InBounds(src, ms[spec[0]].typ, spec[1..])
      case Array(e, _, _) => e < |src| && InBounds(src, e, spec[1..])
      case _ => true
  }

  /** The path from type `id` along `spec` exists and everything on it is marked. */
  ghost predicate PathMarked(src: seq<BtfType>, m: MarkSet, id: nat, spec: seq<nat>)
    requires ValidBtf(src)
    decreases |spec|
  {
    && id < |src| && (id == 0 || id in m.types)
    && (spec == [] ||
        match Skip(src, id, Depth(src))
        case None => false
        case Some(t) =>
          match src[t].body
          case Composite(_, _, ms) =>
            spec[0] < |ms| && (t, spec[0]) in m.members && PathMarked(src, m, ms[spec[0]].typ, spec[1..])
          case Array(e, _, _) => PathMarked(src, m, e, spec[1..])
          case _ => false)
  }

  lemma {:induction false} PathMarkedMonotone(src: seq<BtfType>, a: MarkSet, b: MarkSet, id: nat, spec: seq<nat>)
    requires ValidBtf(src) && Within(a, b) && PathMarked(src, a, id, spec)
    ensures PathMarked(src, b, id, spec)
    decreases |spec|
  {
    if spec != [] {
      var t := Skip(src, id, Depth(src)).value;
      match src[t].body
      case Composite(_, _, ms) => PathMarkedMonotone(src, a, b, ms[spec[0]].typ, spec[1..]);
      case Array(e, _, _) => PathMarkedMonotone(src, a, b, e, spec[1..]);
      case _ =>
    }
  }

  // ----- closure -----

  lemma ReachNeeds(src: seq<BtfType>, mode: Mode, n: Node, m: Node, r: nat)
    requires ValidBtf(src) && n.id < |src| && m in Reach(src, mode, n)
    requires Supported(mode, src[m.id].body) && r in Needs(src[m.id].body)
    ensures r == 0 || r in Ids(Reach(src, mode, n))
  {
    var k := NeedIsCall(src, mode, m, r);
    ReachExtends(src, mode, n, m, Succ(src, mode, m)[k]);
  }

  lemma ReachExtends(src: seq<BtfType>, mode: Mode, n: Node, m: Node, s: Node)
    requires ValidBtf(src) && n.id < |src| && m in Reach(src, mode, n) && s in Succ(src, mode, m)
    ensures s in Reach(src, mode, n)
  {
    SuccInRange(src, mode, m, s);
    InAllNodes(src, s);
    var p :| IsWalk(src, mode, p) && p[0] == n && p[|p| - 1] == m;
    WalkExtends(src, mode, p, s);
    assert Reaches(src, mode, n, s);
  }

  lemma WalkExtends(src: seq<BtfType>, mode: Mode, p: seq<Node>, s: Node)
    requires IsWalk(src, mode, p) && s.id < |src| && s in Succ(src, mode, p[|p| - 1])
    ensures IsWalk(src, mode, p + [s]) && (p + [s])[0] == p[0] && (p + [s])[|p|] == s
  {
    forall i | 0 <= i < |p|
      ensures (p + [s])[i + 1] in Succ(src, mode, (p + [s])[i])
    {
      ExtendedStep(src, mode, p, s, i);
    }
  }

  lemma ExtendedStep(src: seq<BtfType>, mode: Mode, p: seq<Node>, s: Node, i: nat)
    requires IsWalk(src, mode, p) && s in Succ(src, mode, p[|p| - 1]) && i < |p|
    ensures (p + [s])[i].id < |src| && (p + [s])[i + 1] in Succ(src, mode, (p + [s])[i])
  {
    if i == |p| - 1 {
      assert (p + [s])[i + 1] == s;
    } else {
      assert p[i + 1] in Succ(src, mode, p[i]);
    }
  }

  lemma ReachRange(src: seq<BtfType>, mode: Mode, n: Node, i: nat)
    requires i in Ids(Reach(src, mode, n))
    ensures 0 < i < |src| && exists m :: m in Reach(src, mode, n) && m.id == i
  {
  }

  /** A successful marking keeps the marks closed. */
  lemma MarkingKeepsClosed(src: seq<BtfType>, mode: Mode, was: MarkSet, now: MarkSet, n: Node)
    requires ValidBtf(src) && n.id < |src| && Closed(src, was)
    requires Marks(src, mode, was, now, Reach(src, mode, n), true)
    ensures Closed(src, now)
  {
    var r := Reach(src, mode, n);
    forall i | i in now.types
      ensures 0 < i < |src|
    {
      if i !in was.types { ReachRange(src, mode, n, i); }
    }
    forall i, t | i in now.types && t in Needs(src[i].body)
      ensures t == 0 || t in now.types
    {
      if i !in was.types {
        ReachRange(src, mode, n, i);
        var m :| m in r && m.id == i;
        ReachNeeds(src, mode, n, m, t);
      }
    }
    forall i, k | (i, k) in now.members
      ensures MemberOk(src, now, i, k)
    {
      if (i, k) in was.members {
        assert MemberOk(src, was, i, k);
      } else {
        NewMemberOk(src, mode, was, now, n, i, k);
      }
    }
  }

  lemma NewMemberOk(src: seq<BtfType>, mode: Mode, was: MarkSet, now: MarkSet, n: Node, i: nat, k: nat)
    requires ValidBtf(src) && n.id < |src|
    requires now == Add(src, mode, was, Reach(src, mode, n)) && (i, k) in Mems(src, mode, Reach(src, mode, n))
    ensures MemberOk(src, now, i, k)
  {
    var m :| m in Reach(src, mode, n) && OpenComposite(src, m) && m.id == i && 0 <= k < |src[i].body.members|;
    var s := Succ(src, mode, m)[k];
    assert s in Succ(src, mode, m);
    ReachExtends(src, mode, n, m, s);
  }

  /** Marking a member and then its type keeps the marks closed. */
  lemma MemberKeepsClosed(src: seq<BtfType>, was: MarkSet, mid: MarkSet, now: MarkSet, t: nat, k: nat)
    requires ValidBtf(src) && Closed(src, was) && t in was.types
    requires src[t].body.Composite? && k < |src[t].body.members| && src[t].body.members[k].typ < |src|
    requires mid == was.(members := was.members + {(t, k)})
    requires Marks(src, NoFollow, mid, now, Reach(src, NoFollow, Node(src[t].body.members[k].typ, false)), true)
    ensures Closed(src, now)
  {
    var n := Node(src[t].body.members[k].typ, false);
    var plain := Add(src, NoFollow, was, Reach(src, NoFollow, n));
    MarkingKeepsClosed(src, NoFollow, was, plain, n);
    assert now == plain.(members := plain.members + {(t, k)});
    SelfReach(src, NoFollow, n);
    forall i, j | (i, j) in now.members
      ensures MemberOk(src, now, i, j)
    {
      assert (i, j) in plain.members ==> MemberOk(src, plain, i, j);
    }
  }

  // ----- recording -----

  /** A resolved relocation: its kind's group and the target spec. */
  datatype Relo =
    | FieldRelo(root: nat, spec: seq<nat>)
    | TypeIdLocal
    | TypeRelo(root: nat)
    | TypeMatchRelo(root: nat)
    | EnumvalRelo(root: nat)
    | UnknownRelo

  /** The accessors after the first, which the recording loop starts at; a spec may be empty. */
  function Tail(spec: seq<nat>): seq<nat> { if spec == [] then [] else spec[1..] }

  /** What the target specs and the type graph must satisfy for a relocation to be recorded at all. */
  ghost predicate ReloReady(src: seq<BtfType>, relo: Relo)
    requires ValidBtf(src)
  {
    match relo
    case FieldRelo(root, spec) =>
      && root < |src| && AcyclicAt(src, root)
      && InBounds(src, root, Tail(spec))
    case TypeRelo(root) => root < |src| && AcyclicFrom(src, Follow, Node(root, false))
    case TypeMatchRelo(root) => root < |src| && AcyclicFrom(src, Match, Node(root, false))
    case EnumvalRelo(root) => root < |src| && AcyclicAt(src, root)
    case _ => true
  }

  // ----- what a relocation marks, and when it can be recorded -----

  ghost function Plus(a: MarkSet, b: MarkSet): MarkSet { MarkSet(a.types + b.types, a.members + b.members) }

  const NOTHING: MarkSet := MarkSet({}, {})

  ghost function ReachMarks(src: seq<BtfType>, mode: Mode, id: nat): MarkSet {
    var r := Reach(src, mode, Node(id, false));
    MarkSet(Ids(r), Mems(src, mode, r))
  }

  ghost predicate Supports(src: seq<BtfType>, mode: Mode, id: nat) {
    AllSupported(src, mode, Reach(src, mode, Node(id, false)))
  }

  /** An accessor can be recorded at a composite whose member's types are supported, and at an array. */
  ghost predicate StepOk(src: seq<BtfType>, from: nat, idx: nat)
    requires ValidBtf(src) && from < |src|
  {
    match Skip(src, from, Depth(src))
    case None => false
    case Some(t) =>
      match src[t].body
      case Composite(_, _, ms) => idx < |ms| && Supports(src, NoFollow, ms[idx].typ)
      case Array(_, _, _) => true
      case _ => false
  }

  /** The type the walk stands on after an accessor. */
  ghost function StepTo(src: seq<BtfType>, from: nat, idx: nat): nat
    requires ValidBtf(src) && from < |src| && StepOk(src, from, idx)
  {
    var b := src[Skip(src, from, Depth(src)).value].body;
    if b.Composite? then b.members[idx].typ else b.elem
  }

  /** What an accessor marks: at a composite the member and what its type reaches, at an array nothing. */
  ghost function StepMarks(src: seq<BtfType>, from: nat, idx: nat): MarkSet
    requires ValidBtf(src) && from < |src| && StepOk(src, from, idx)
  {
    var t := Skip(src, from, Depth(src)).value;
    if src[t].body.Composite? then Plus(MarkSet({}, {(t, idx)}), ReachMarks(src, NoFollow, StepTo(src, from, idx)))
    else NOTHING
  }

  ghost predicate PathOk(src: seq<BtfType>, id: nat, spec: seq<nat>)
    requires ValidBtf(src)
    decreases |spec|
  {
    spec == [] || (id < |src| && StepOk(src, id, spec[0]) && PathOk(src, StepTo(src, id, spec[0]), spec[1..]))
  }

  ghost function PathMarks(src: seq<BtfType>, id: nat, spec: seq<nat>): MarkSet
    requires ValidBtf(src) && PathOk(src, id, spec)
    decreases |spec|
  {
    if spec == [] then NOTHING
    else Plus(StepMarks(src, id, spec[0]), PathMarks(src, StepTo(src, id, spec[0]), spec[1..]))
  }

  /** When a relocation is recorded rather than refused. */
  ghost predicate Recordable(src: seq<BtfType>, relo: Relo)
    requires ValidBtf(src)
  {
    match relo
    case FieldRelo(root, spec) => Supports(src, NoFollow, root) && PathOk(src, root, Tail(spec))
    case TypeIdLocal => true
    case TypeRelo(root) => Supports(src, Follow, root)
    case TypeMatchRelo(root) => Supports(src, Match, root)
    case EnumvalRelo(root) => Supports(src, NoFollow, root)
    case UnknownRelo => false
  }

  /** Exactly what it marks. */
  ghost function ReloMarks(src: seq<BtfType>, relo: Relo): MarkSet
    requires ValidBtf(src) && Recordable(src, relo)
  {
    match relo
    case FieldRelo(root, spec) => Plus(ReachMarks(src, NoFollow, root), PathMarks(src, root, Tail(spec)))
    case TypeIdLocal => NOTHING
    case TypeRelo(root) => ReachMarks(src, Follow, root)
    case TypeMatchRelo(root) => ReachMarks(src, Match, root)
    case EnumvalRelo(root) => ReachMarks(src, NoFollow, root)
  }

  /** A relocation without a candidate leaves a zeroed spec: kind 0, no root, no accessors. It records nothing. */
  lemma UnresolvedMarksNothing(src: seq<BtfType>)
    requires ValidBtf(src)
    ensures ReloReady(src, FieldRelo(0, [])) && Recordable(src, FieldRelo(0, []))
    ensures ReloMarks(src, FieldRelo(0, [])) == NOTHING
  {
    var void := Node(0, false);
    forall p | IsWalk(src, NoFollow, p) && Reaches(src, NoFollow, void, p[0])
      ensures |p| == 1
    {
      OnlyVoid(src, p[0]);
      VoidWalk(src, p);
    }
    ReachStep(src, NoFollow, void);
    assert Reach(src, NoFollow, void) == {void};
    assert Mems(src, NoFollow, {void}) == {};
  }

  lemma VoidWalk(src: seq<BtfType>, p: seq<Node>)
    requires ValidBtf(src) && IsWalk(src, NoFollow, p) && p[0] == Node(0, false)
    ensures |p| == 1
  {
    assert |p| > 1 ==> p[0 + 1] in Succ(src, NoFollow, p[0]);
  }

  lemma OnlyVoid(src: seq<BtfType>, m: Node)
    requires ValidBtf(src) && Reaches(src, NoFollow, Node(0, false), m)
    ensures m == Node(0, false)
  {
    var p :| IsWalk(src, NoFollow, p) && p[0] == Node(0, false) && p[|p| - 1] == m;
    VoidWalk(src, p);
  }

  ghost predicate AllRecordable(src: seq<BtfType>, relos: seq<Relo>)
    requires ValidBtf(src)
  {
    forall k :: 0 <= k < |relos| ==> Recordable(src, relos[k])
  }

  ghost function AllMarks(src: seq<BtfType>, relos: seq<Relo>): MarkSet
    requires ValidBtf(src) && AllRecordable(src, relos)
  {
    if relos == [] then NOTHING
    else Plus(AllMarks(src, relos[..|relos| - 1]), ReloMarks(src, relos[|relos| - 1]))
  }

  lemma PlusAssoc(a: MarkSet, b: MarkSet, c: MarkSet)
    ensures Plus(Plus(a, b), c) == Plus(a, Plus(b, c))
    ensures Plus(a, NOTHING) == a
  {
  }

  /** A marking is recorded exactly when it is supported, and then adds exactly what it reaches. */
  lemma MarksAdded(src: seq<BtfType>, mode: Mode, was: MarkSet, now: MarkSet, id: nat, ok: bool)
    requires Marks(src, mode, was, now, Reach(src, mode, Node(id, false)), ok)
    ensures ok <==> Supports(src, mode, id)
    ensures ok ==> now == Plus(was, ReachMarks(src, mode, id))
  {
  }

  /** Marking a member and then its type adds exactly the step's marks. */
  lemma StepAdded(src: seq<BtfType>, was: MarkSet, mid: MarkSet, now: MarkSet, from: nat, t: nat, idx: nat, ok: bool)
    requires ValidBtf(src) && from < |src| && Skip(src, from, Depth(src)) == Some(t)
    requires src[t].body.Composite? && idx < |src[t].body.members|
    requires mid == was.(members := was.members + {(t, idx)})
    requires Marks(src, NoFollow, mid, now, Reach(src, NoFollow, Node(src[t].body.members[idx].typ, false)), ok)
    ensures ok <==> StepOk(src, from, idx)
    ensures ok ==> now == Plus(was, StepMarks(src, from, idx))
  {
    MarksAdded(src, NoFollow, mid, now, src[t].body.members[idx].typ, ok);
    PlusAssoc(was, MarkSet({}, {(t, idx)}), ReachMarks(src, NoFollow, src[t].body.members[idx].typ));
  }

  /** Any later marks that continue the path from `id` complete the path from `root`. */
  ghost predicate Continues(src: seq<BtfType>, m: MarkSet, id: nat, rest: seq<nat>, root: nat, spec: seq<nat>)
    requires ValidBtf(src)
  {
    forall later: MarkSet :: Within(m, later) && PathMarked(src, later, id, rest) ==> PathMarked(src, later, root, spec)
  }

  /** btfgen_record_field_relo. */
  method RecordFieldRelo(info: BtfgenInfo, root: nat, spec: seq<nat>) returns (ok: bool)
    requires info.Valid() && ReloReady(info.src, FieldRelo(root, spec)) && Closed(info.src, info.marks)
    modifies info
    ensures info.Valid() && Within(old(info.marks), info.marks)
    ensures ok ==> Closed(info.src, info.marks) && PathMarked(info.src, info.marks, root, Tail(spec))
    ensures ok <==> Recordable(info.src, FieldRelo(root, spec))
    ensures ok ==> info.marks == Plus(old(info.marks), ReloMarks(info.src, FieldRelo(root, spec)))
  {
    ok := info.MarkType(root, false);
    MarksAdded(info.src, NoFollow, old(info.marks), info.marks, root, ok);
    if ok {
      MarkingKeepsClosed(info.src, NoFollow, old(info.marks), info.marks, Node(root, false));
      RootMarked(info.src, old(info.marks), info.marks, root);
      ok := RecordPath(info, root, spec);
      if ok {
        PlusAssoc(old(info.marks), ReachMarks(info.src, NoFollow, root), PathMarks(info.src, root, Tail(spec)));
      }
    }
  }

  /** The loop of btfgen_record_field_relo over the accessors after the first. */
  method RecordPath(info: BtfgenInfo, root: nat, spec: seq<nat>) returns (ok: bool)
    requires info.Valid() && Walking(info.src, info.marks, root, Tail(spec), root, Tail(spec))
    modifies info
    ensures info.Valid() && Within(old(info.marks), info.marks)
    ensures ok ==> Closed(info.src, info.marks) && PathMarked(info.src, info.marks, root, Tail(spec))
    ensures ok <==> PathOk(info.src, root, Tail(spec))
    ensures ok ==> info.marks == Plus(old(info.marks), PathMarks(info.src, root, Tail(spec)))
  {
    var typeId, i := root, 1;
    ghost var path, rest, start := Tail(spec), Tail(spec), info.marks;
    while i < |spec|
      invariant 1 <= i && info.Valid() && Within(start, info.marks)
      invariant rest == if i <= |spec| then spec[i..] else []
      invariant OnPath(info.src, start, info.marks, typeId, rest, root, path)
    {
      ok, typeId := RecordAccessor(info, typeId, spec[i], rest, start, root, path);
      if !ok {
        return;
      }
      rest := rest[1..];
      i := i + 1;
    }
    WalkEnds(info.src, start, info.marks, typeId, rest, root, path);
    return true;
  }

  /** Where the loop stands: what is marked and what is left to do. */
  ghost predicate OnPath(
    src: seq<BtfType>, start: MarkSet, now: MarkSet, id: nat, rest: seq<nat>, root: nat, spec: seq<nat>)
    requires ValidBtf(src)
  {
    Walking(src, now, id, rest, root, spec) && Recording(src, start, now, id, rest, root, spec)
  }

  /** One turn of the loop. */
  method RecordAccessor(
    info: BtfgenInfo, from: nat, idx: nat,
    ghost rest: seq<nat>, ghost start: MarkSet, ghost root: nat, ghost spec: seq<nat>)
    returns (ok: bool, next: nat)
    requires info.Valid() && |rest| > 0 && rest[0] == idx
    requires OnPath(info.src, start, info.marks, from, rest, root, spec)
    modifies info
    ensures info.Valid() && Within(old(info.marks), info.marks)
    ensures ok ==> OnPath(info.src, start, info.marks, next, rest[1..], root, spec)
    ensures !ok ==> !PathOk(info.src, root, spec)
  {
    ghost var was := info.marks;
    ok, next := RecordStep(info, from, idx, rest);
    RecordedStep(info.src, start, was, info.marks, from, rest, next, root, spec, ok);
    if ok {
      ContinueStep(info.src, was, info.marks, from, rest, next, root, spec);
    }
  }

  /** The rest of the path is recordable iff the whole is, and completes exactly its marks. */
  ghost predicate Recording(
    src: seq<BtfType>, was: MarkSet, now: MarkSet, id: nat, rest: seq<nat>, root: nat, spec: seq<nat>)
    requires ValidBtf(src)
  {
    && (PathOk(src, id, rest) <==> PathOk(src, root, spec))
    && (PathOk(src, id, rest) ==> Plus(now, PathMarks(src, id, rest)) == Plus(was, PathMarks(src, root, spec)))
  }

  lemma RecordedStep(src: seq<BtfType>, start: MarkSet, was: MarkSet, now: MarkSet, from: nat, rest: seq<nat>, next: nat,
                     root: nat, spec: seq<nat>, ok: bool)
    requires ValidBtf(src) && from < |src| && |rest| > 0 && Recording(src, start, was, from, rest, root, spec)
    requires ok <==> StepOk(src, from, rest[0])
    requires ok ==> now == Plus(was, StepMarks(src, from, rest[0])) && next == StepTo(src, from, rest[0])
    ensures if ok then Recording(src, start, now, next, rest[1..], root, spec) else !PathOk(src, root, spec)
  {
    if ok && PathOk(src, next, rest[1..]) {
      PlusAssoc(was, StepMarks(src, from, rest[0]), PathMarks(src, next, rest[1..]));
    }
  }

  /** The state of the walk: on `id`, with `rest` to go of the path `spec` from `root`. */
  ghost predicate Walking(src: seq<BtfType>, m: MarkSet, id: nat, rest: seq<nat>, root: nat, spec: seq<nat>)
    requires ValidBtf(src)
  {
    && Closed(src, m) && Reached(src, m, id)
    && InBounds(src, id, rest) && Continues(src, m, id, rest, root, spec)
  }

  lemma WalkEnds(src: seq<BtfType>, start: MarkSet, now: MarkSet, id: nat, rest: seq<nat>, root: nat, spec: seq<nat>)
    requires ValidBtf(src) && OnPath(src, start, now, id, rest, root, spec) && rest == []
    ensures Closed(src, now) && PathMarked(src, now, root, spec)
    ensures PathOk(src, root, spec) && now == Plus(start, PathMarks(src, root, spec))
  {
    PlusAssoc(now, NOTHING, NOTHING);
  }

  /** A type the walk stands on: marked, and the marker accepts all it refers to. */
  ghost predicate Reached(src: seq<BtfType>, m: MarkSet, id: nat) {
    Markable(src, id) && AcyclicAt(src, id) && (id == 0 || id in m.types)
  }

  /** One accessor leads from type `from` to type `next` over marked types and members. */
  ghost predicate StepMarked(src: seq<BtfType>, m: MarkSet, from: nat, idx: nat, next: nat)
    requires ValidBtf(src) && from < |src|
  {
    match Skip(src, from, Depth(src))
    case None => false
    case Some(t) =>
      match src[t].body
      case Composite(_, _, ms) => idx < |ms| && (t, idx) in m.members && next == ms[idx].typ
      case Array(e, _, _) => next == e
      case _ => false
  }

  /** The body of btfgen_record_field_relo's loop. */
  method RecordStep(info: BtfgenInfo, from: nat, idx: nat, ghost rest: seq<nat>) returns (ok: bool, next: nat)
    requires info.Valid()
    requires Closed(info.src, info.marks) && Reached(info.src, info.marks, from)
    requires |rest| > 0 && rest[0] == idx && InBounds(info.src, from, rest)
    modifies info
    ensures info.Valid() && Within(old(info.marks), info.marks)
    ensures ok ==> Closed(info.src, info.marks) && Reached(info.src, info.marks, next)
    ensures ok ==> StepMarked(info.src, info.marks, from, idx, next) && InBounds(info.src, next, rest[1..])
    ensures ok <==> StepOk(info.src, from, idx)
    ensures ok ==>
      info.marks == Plus(old(info.marks), StepMarks(info.src, from, idx)) && next == StepTo(info.src, from, idx)
  {
    var src := info.src;
    next := from;
    var t := SkipMods(info, from);
    ghost var was := info.marks;
    match src[t].body {
      case Composite(_, _, ms) =>
        info.MarkMember(t, idx);
        ghost var mid := info.marks;
        next := ms[idx].typ;
        ok := info.MarkType(next, false);
        StepAdded(src, was, mid, info.marks, from, t, idx, ok);
        if ok {
          MemberKeepsClosed(src, was, mid, info.marks, t, idx);
          RootMarked(src, mid, info.marks, next);
        }
      case Array(e, _, _) =>
        ElemMarked(src, info.marks, t);
        PlusAssoc(info.marks, NOTHING, NOTHING);
        next := e;
        ok := true;
      case _ =>
        ok := false;
    }
  }

  /** The inner loop of btfgen_record_field_relo. */
  method SkipMods(info: BtfgenInfo, typeId: nat) returns (t: nat)
    requires info.Valid() && Closed(info.src, info.marks) && AcyclicAt(info.src, typeId)
    requires Markable(info.src, typeId) && (typeId == 0 || typeId in info.marks.types)
    ensures Skip(info.src, typeId, Depth(info.src)) == Some(t)
    ensures Markable(info.src, t) && AcyclicAt(info.src, t) && !info.src[t].body.Ref? && (t == 0 || t in info.marks.types)
  {
    t := typeId;
    SkipOne(info.src, t);
    while info.src[t].body.Ref?
      invariant Markable(info.src, t) && AcyclicAt(info.src, t) && (t == 0 || t in info.marks.types)
      invariant Skip(info.src, t, Depth(info.src)) == Skip(info.src, typeId, Depth(info.src))
      decreases RankOf(info.src, t)
    {
      SkipOne(info.src, t);
      assert info.src[t].body.typ in Needs(info.src[t].body);
      t := info.src[t].body.typ;
    }
    SkipOne(info.src, t);
  }

  lemma RootMarked(src: seq<BtfType>, was: MarkSet, now: MarkSet, id: nat)
    requires ValidBtf(src) && id < |src| && Marks(src, NoFollow, was, now, Reach(src, NoFollow, Node(id, false)), true)
    ensures Markable(src, id) && (id == 0 || id in now.types)
  {
    SelfReach(src, NoFollow, Node(id, false));
  }

  lemma ElemMarked(src: seq<BtfType>, m: MarkSet, t: nat)
    requires ValidBtf(src) && AcyclicAt(src, t) && Closed(src, m) && t in m.types
    requires Markable(src, t) && src[t].body.Array?
    ensures Markable(src, src[t].body.elem) && AcyclicAt(src, src[t].body.elem)
    ensures src[t].body.elem == 0 || src[t].body.elem in m.types
  {
    assert Refs(src[t].body)[0] in Needs(src[t].body);
    MarkableStep(src, t, src[t].body.elem);
  }

  lemma ContinueStep(
      src: seq<BtfType>, was: MarkSet, now: MarkSet, from: nat, rest: seq<nat>, next: nat, root: nat,
      spec: seq<nat>)
    requires ValidBtf(src) && Walking(src, was, from, rest, root, spec) && Within(was, now) && |rest| > 0
    requires Closed(src, now) && Reached(src, now, next) && InBounds(src, next, rest[1..])
    requires StepMarked(src, now, from, rest[0], next)
    ensures Walking(src, now, next, rest[1..], root, spec)
  {
  }

  /** btfgen_record_reloc. */
  method RecordReloc(info: BtfgenInfo, relo: Relo) returns (ok: bool)
    requires info.Valid() && ReloReady(info.src, relo) && Closed(info.src, info.marks)
    modifies info
    ensures info.Valid() && Within(old(info.marks), info.marks)
    ensures ok ==> Closed(info.src, info.marks)
    ensures ok && relo.FieldRelo? ==> PathMarked(info.src, info.marks, relo.root, Tail(relo.spec))
    ensures ok <==> Recordable(info.src, relo)
    ensures ok ==> info.marks == Plus(old(info.marks), ReloMarks(info.src, relo))
  {
    match relo {
      case FieldRelo(root, spec) =>
        ok := RecordFieldRelo(info, root, spec);
      case TypeIdLocal =>
        PlusAssoc(info.marks, NOTHING, NOTHING);
        return true;
      case TypeRelo(root) =>
        ok := info.MarkType(root, true);
        MarksAdded(info.src, Follow, old(info.marks), info.marks, root, ok);
        if ok { MarkingKeepsClosed(info.src, Follow, old(info.marks), info.marks, Node(root, false)); }
      case TypeMatchRelo(root) =>
        ok := info.MarkTypeMatch(root, false);
        MarksAdded(info.src, Match, old(info.marks), info.marks, root, ok);
        if ok { MarkingKeepsClosed(info.src, Match, old(info.marks), info.marks, Node(root, false)); }
      case EnumvalRelo(root) =>
        ok := info.MarkType(root, false);
        MarksAdded(info.src, NoFollow, old(info.marks), info.marks, root, ok);
        if ok { MarkingKeepsClosed(info.src, NoFollow, old(info.marks), info.marks, Node(root, false)); }
      case UnknownRelo =>
        return false;
    }
  }

  ghost predicate AllPathsMarked(src: seq<BtfType>, m: MarkSet, relos: seq<Relo>)
    requires ValidBtf(src)
  {
    forall k :: 0 <= k < |relos| && relos[k].FieldRelo? ==> PathMarked(src, m, relos[k].root, Tail(relos[k].spec))
  }

  /** The accessors after the first, which only indexes an array of roots. */
  /** The loop of btfgen_record_obj: all of an object's relocations, stopping at the first that fails. */
  method RecordObj(info: BtfgenInfo, relos: seq<Relo>) returns (ok: bool)
    requires info.Valid() && Closed(info.src, info.marks)
    requires forall k :: 0 <= k < |relos| ==> ReloReady(info.src, relos[k])
    modifies info
    ensures info.Valid() && Within(old(info.marks), info.marks)
    ensures ok ==> Closed(info.src, info.marks) && AllPathsMarked(info.src, info.marks, relos)
    ensures ok <==> AllRecordable(info.src, relos)
    ensures ok ==> info.marks == Plus(old(info.marks), AllMarks(info.src, relos))
  {
    var k := 0;
    PlusAssoc(info.marks, NOTHING, NOTHING);
    while k < |relos|
      invariant k <= |relos| && info.Valid() && Within(old(info.marks), info.marks)
      invariant Closed(info.src, info.marks) && AllPathsMarked(info.src, info.marks, relos[..k])
      invariant AllRecordable(info.src, relos[..k])
      invariant info.marks == Plus(old(info.marks), AllMarks(info.src, relos[..k]))
    {
      ghost var was := info.marks;
      ok := RecordReloc(info, relos[k]);
      if !ok {
        return;
      }
      PathsStayMarked(info.src, was, info.marks, relos, k);
      OneMoreRelo(info.src, old(info.marks), relos, k);
      k := k + 1;
    }
    assert relos[..k] == relos;
    return true;
  }

  lemma OneMoreRelo(src: seq<BtfType>, was: MarkSet, relos: seq<Relo>, k: nat)
    requires ValidBtf(src) && k < |relos| && AllRecordable(src, relos[..k]) && Recordable(src, relos[k])
    ensures AllRecordable(src, relos[..k + 1])
    ensures Plus(Plus(was, AllMarks(src, relos[..k])), ReloMarks(src, relos[k]))
         == Plus(was, AllMarks(src, relos[..k + 1]))
  {
    assert relos[..k + 1] == relos[..k] + [relos[k]];
    AllMarksNext(src, relos[..k], relos[k]);
    PlusAssoc(was, AllMarks(src, relos[..k]), ReloMarks(src, relos[k]));
  }

  lemma AllMarksNext(src: seq<BtfType>, relos: seq<Relo>, relo: Relo)
    requires ValidBtf(src) && AllRecordable(src, relos) && Recordable(src, relo)
    ensures AllRecordable(src, relos + [relo])
    ensures AllMarks(src, relos + [relo]) == Plus(AllMarks(src, relos), ReloMarks(src, relo))
  {
    assert (relos + [relo])[..|relos|] == relos;
  }

  lemma {:induction false} AllMarksConcat(src: seq<BtfType>, a: seq<Relo>, b: seq<Relo>)
    requires ValidBtf(src) && AllRecordable(src, a) && AllRecordable(src, b)
    ensures AllRecordable(src, a + b) && AllMarks(src, a + b) == Plus(AllMarks(src, a), AllMarks(src, b))
  {
    if b == [] {
      assert a + b == a;
      PlusAssoc(AllMarks(src, a), NOTHING, NOTHING);
    } else {
      var init, last := b[..|b| - 1], b[|b| - 1];
      assert Recordable(src, last) && b == init + [last] && a + b == (a + init) + [last];
      AllMarksConcat(src, a, init);
      AllMarksNext(src, a + init, last);
      AllMarksNext(src, init, last);
      PlusAssoc(AllMarks(src, a), AllMarks(src, init), ReloMarks(src, last));
    }
  }

  /** The order of relocations does not matter, nor does repeating them: objects can be recorded in any order. */
  lemma RelosCommute(src: seq<BtfType>, a: seq<Relo>, b: seq<Relo>)
    requires ValidBtf(src) && AllRecordable(src, a) && AllRecordable(src, b)
    ensures AllRecordable(src, a + b) && AllRecordable(src, b + a) && AllRecordable(src, a + b + a)
    ensures AllMarks(src, a + b) == AllMarks(src, b + a) == AllMarks(src, a + b + a)
  {
    AllMarksConcat(src, a, b);
    AllMarksConcat(src, b, a);
    AllMarksConcat(src, a + b, a);
  }

  lemma PathsStayMarked(src: seq<BtfType>, was: MarkSet, now: MarkSet, relos: seq<Relo>, k: nat)
    requires ValidBtf(src) && Within(was, now) && k < |relos| && AllPathsMarked(src, was, relos[..k])
    requires relos[k].FieldRelo? ==> PathMarked(src, now, relos[k].root, Tail(relos[k].spec))
    ensures AllPathsMarked(src, now, relos[..k + 1])
  {
    forall j | 0 <= j <= k && relos[j].FieldRelo?
      ensures PathMarked(src, now, relos[j].root, Tail(relos[j].spec))
    {
      if j < k {
        assert relos[..k][j] == relos[j];
        PathMarkedMonotone(src, was, now, relos[j].root, Tail(relos[j].spec));
      }
    }
  }
}
