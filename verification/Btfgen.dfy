// bpftool/src/gen.c: BTFGen's markers.
module Btfgen {
  import opened Prelude
  import opened Btf

  ghost predicate TypeMarked(marked: seq<BtfType>, i: int) {
    0 <= i < |marked| && marked[i].name == Marked
  }

  ghost predicate MemberMarked(marked: seq<BtfType>, i: int, k: int) {
    && 0 <= i < |marked| && marked[i].body.Composite?
    && 0 <= k < |marked[i].body.members| && marked[i].body.members[k].name == Marked
  }

  /** Forget the names: what marking must not change. */
  function Unnamed(b: Body): Body {
    match b
    case Composite(u, s, ms) =>
      Composite(u, s, seq(|ms|, k requires 0 <= k < |ms| => ms[k].(name := Off(""))))
    case _ => b
  }

  /** The clone differs from the source in names only. */
  ghost predicate SameShape(src: seq<BtfType>, marked: seq<BtfType>) {
    && |marked| == |src|
    && forall i :: 0 <= i < |src| ==> Unnamed(marked[i].body) == Unnamed(src[i].body)
  }

  /** No name of a parsed BTF has the sentinel offset. */
  ghost predicate NoMarks(btf: seq<BtfType>) {
    && (forall i :: !TypeMarked(btf, i))
    && forall i, k :: !MemberMarked(btf, i, k)
  }

  /** The marks a clone carries: type ids, and (type id, member index) pairs. */
  datatype MarkSet = MarkSet(types: set<nat>, members: set<(nat, nat)>)

  ghost predicate Carries(marked: seq<BtfType>, m: MarkSet) {
    && (forall i :: TypeMarked(marked, i) <==> i in m.types)
    && (forall i, k :: MemberMarked(marked, i, k) <==> i >= 0 && k >= 0 && (i, k) in m.members)
  }

  ghost predicate Within(a: MarkSet, b: MarkSet) { a.types <= b.types && a.members <= b.members }

  /** The members the calls `r` of the match marker mark: all those of composites not behind a pointer. */
  ghost function Mems(src: seq<BtfType>, mode: Mode, r: set<Node>): set<(nat, nat)> {
    if mode != Match then {}
    else set n, k | n in r && OpenComposite(src, n) && 0 <= k < |src[n.id].body.members| :: (n.id, k)
  }

  ghost predicate OpenComposite(src: seq<BtfType>, n: Node) {
    n.id < |src| && src[n.id].body.Composite? && !n.behind
  }

  /** All that the calls `r` mark. */
  ghost function Add(src: seq<BtfType>, mode: Mode, was: MarkSet, r: set<Node>): MarkSet {
    MarkSet(was.types + Ids(r), was.members + Mems(src, mode, r))
  }

  /** Marking went from `was` to `now` for the calls `r`: all of them on success, some of them on failure. */
  ghost predicate Marks(src: seq<BtfType>, mode: Mode, was: MarkSet, now: MarkSet, r: set<Node>, ok: bool) {
    && Within(was, now) && Within(now, Add(src, mode, was, r))
    && (ok ==> now == Add(src, mode, was, r))
    && (ok <==> AllSupported(src, mode, r))
  }

  function ModeOf(followPointers: bool): Mode { if followPointers then Follow else NoFollow }

  /** struct btfgen_info. `marks` is what `marked` carries. */
  class BtfgenInfo {
    const src: seq<BtfType>
    var marked: seq<BtfType>
    ghost var marks: MarkSet

    ghost predicate Valid()
      reads this
    {
      ValidBtf(src) && SameShape(src, marked) && Carries(marked, marks)
    }

    constructor (btf: seq<BtfType>)
      requires ValidBtf(btf) && NoMarks(btf)
      ensures Valid() && src == btf && marks == MarkSet({}, {})
    {
      src, marked, marks := btf, btf, MarkSet({}, {});
    }

    /** btfgen_mark_member. */
    method MarkMember(typeId: nat, idx: nat)
      requires Valid() && typeId < |src| && src[typeId].body.Composite? && idx < |src[typeId].body.members|
      modifies this
      ensures Valid() && marks == old(marks).(members := old(marks).members + {(typeId, idx)})
    {
      SameShapeAt(src, marked, typeId);
      var t := marked[typeId];
      var ms := t.body.members;
      UnnamedMember(t.body, idx);
      ghost var was := marked;
      marked := marked[typeId := t.(body := t.body.(members := ms[idx := ms[idx].(name := Marked)]))];
      marks := marks.(members := marks.members + {(typeId, idx)});
      forall i, k
        ensures MemberMarked(marked, i, k) <==> MemberMarked(was, i, k) || (i == typeId && k == idx)
      {
      }
    }

    /** Overwriting one type's name_off. */
    method MarkName(typeId: nat)
      requires Valid() && 0 < typeId < |src|
      modifies this
      ensures Valid() && marks == old(marks).(types := old(marks).types + {typeId})
    {
      ghost var was := marked;
      marked := marked[typeId := marked[typeId].(name := Marked)];
      marks := marks.(types := marks.types + {typeId});
      assert forall i, k :: MemberMarked(marked, i, k) <==> MemberMarked(was, i, k);
    }

    // ----- btfgen_mark_type -----

    /** btfgen_mark_type: marks exactly what is reachable; fails exactly on a reachable unsupported kind. */
    method MarkType(typeId: nat, followPointers: bool) returns (ok: bool)
      requires Valid() && typeId < |src| && AcyclicFrom(src, ModeOf(followPointers), Node(typeId, false))
      modifies this
      ensures Valid()
      ensures var mode := ModeOf(followPointers);
        Marks(src, mode, old(marks), marks, Reach(src, mode, Node(typeId, false)), ok)
      decreases Rank(src, ModeOf(followPointers), Node(typeId, false)), 3
    {
      ghost var mode, n, was := ModeOf(followPointers), Node(typeId, false), marks;
      if typeId == 0 {
        MarksVoid(src, mode, was, n);
        return true;
      }
      MarkName(typeId);
      ok := MarkNeeded(typeId, followPointers);
      MarksNamed(src, mode, was, marks, n, ok);
    }

    /** The switch of btfgen_mark_type: the types the marked one needs. */
    method MarkNeeded(typeId: nat, followPointers: bool) returns (ok: bool)
      requires Valid() && typeId in marks.types && 0 < typeId < |src|
      requires AcyclicFrom(src, ModeOf(followPointers), Node(typeId, false))
      modifies this
      ensures Valid()
      ensures MarksNeeded(src, ModeOf(followPointers), old(marks), marks, Node(typeId, false), ok)
      decreases Rank(src, ModeOf(followPointers), Node(typeId, false)), 2
    {
      ghost var mode, n, was := ModeOf(followPointers), Node(typeId, false), marks;
      match src[typeId].body {
        case Leaf(_, _) =>
          ok := true;
          NoCalls(src, mode, was, n);
        case Composite(_, _, _) =>
          ok := true;
          NoCalls(src, mode, was, n);
        case Ptr(t) =>
          if followPointers {
            ok := MarkNext(typeId, t, followPointers);
          } else {
            ok := true;
            NoCalls(src, mode, was, n);
          }
        case Ref(k, t) =>
          if k == TypeTag {
            return false;
          }
          ok := MarkNext(typeId, t, followPointers);
        case Array(e, i, _) =>
          ok := MarkArray(typeId, e, i, followPointers);
          PlainNeeded(src, mode, was, marks, n, ok);
        case FuncProto(r, ps) =>
          ok := MarkProto(typeId, r, ps, followPointers);
          PlainNeeded(src, mode, was, marks, n, ok);
        case _ =>
          return false;
      }
    }

    /** The cases that go on to one type. */
    method MarkNext(typeId: nat, t: nat, followPointers: bool) returns (ok: bool)
      requires Valid() && typeId < |src| && AcyclicFrom(src, ModeOf(followPointers), Node(typeId, false))
      requires Supported(ModeOf(followPointers), src[typeId].body)
      requires Succ(src, ModeOf(followPointers), Node(typeId, false)) == [Node(t, false)]
      modifies this
      ensures Valid()
      ensures MarksNeeded(src, ModeOf(followPointers), old(marks), marks, Node(typeId, false), ok)
      decreases Rank(src, ModeOf(followPointers), Node(typeId, false)), 1
    {
      ghost var mode, n, was := ModeOf(followPointers), Node(typeId, false), marks;
      OneCall(src, mode, n, Node(t, false));
      ok := MarkType(t, followPointers);
      PlainNeeded(src, mode, was, marks, n, ok);
    }

    /** The ARRAY case: the element type, then the index type. */
    method MarkArray(typeId: nat, elem: nat, index: nat, followPointers: bool) returns (ok: bool)
      requires Valid() && typeId < |src| && AcyclicFrom(src, ModeOf(followPointers), Node(typeId, false))
      requires src[typeId].body.Array? && src[typeId].body.elem == elem && src[typeId].body.index == index
      modifies this
      ensures Valid()
      ensures MarksCalls(src, ModeOf(followPointers), old(marks), marks, Node(typeId, false), ok)
      decreases Rank(src, ModeOf(followPointers), Node(typeId, false)), 1
    {
      ghost var mode, was := ModeOf(followPointers), marks;
      ghost var a, b := Node(elem, false), Node(index, false);
      TwoCalls(src, mode, Node(typeId, false), a, b);
      ok := MarkType(elem, followPointers);
      MarksThen(src, mode, was, marks, Reach(src, mode, a), Reach(src, mode, b), ok);
      if ok {
        ghost var mid := marks;
        ok := MarkType(index, followPointers);
        MarksBoth(src, mode, was, mid, marks, Reach(src, mode, a), Reach(src, mode, b), ok);
      }
    }

    /** The FUNC_PROTO case: the return type, then every parameter type. */
    method MarkProto(typeId: nat, ret: nat, params: seq<nat>, followPointers: bool) returns (ok: bool)
      requires Valid() && typeId < |src| && AcyclicFrom(src, ModeOf(followPointers), Node(typeId, false))
      requires src[typeId].body == FuncProto(ret, params)
      modifies this
      ensures Valid()
      ensures MarksCalls(src, ModeOf(followPointers), old(marks), marks, Node(typeId, false), ok)
      decreases Rank(src, ModeOf(followPointers), Node(typeId, false)), 1
    {
      ghost var mode, n, was := ModeOf(followPointers), Node(typeId, false), marks;
      ghost var succ := Succ(src, mode, n);
      ListStart(src, mode, was, succ);
      var j := 0;
      ok := MarkCall(typeId, ret, params, ret, j, followPointers, was);
      while ok && j < |params|
        invariant j <= |params| && Valid()
        invariant MarksList(src, mode, was, marks, succ, j + 1, ok)
      {
        ok := MarkCall(typeId, ret, params, params[j], j + 1, followPointers, was);
        j := j + 1;
      }
      ProtoSucc(src, mode, n, ret, params, 0);
      WholeList(src, mode, was, marks, n, j + 1, ok);
    }

    /** The k-th type of a prototype. */
    method MarkCall(
      typeId: nat, ghost ret: nat, ghost params: seq<nat>, t: nat, ghost k: nat, followPointers: bool, ghost was: MarkSet)
      returns (ok: bool)
      requires Valid() && typeId < |src| && AcyclicFrom(src, ModeOf(followPointers), Node(typeId, false))
      requires src[typeId].body == FuncProto(ret, params) && k <= |params| && t == if k == 0 then ret else params[k - 1]
      requires var mode := ModeOf(followPointers);
        MarksList(src, mode, was, marks, Succ(src, mode, Node(typeId, false)), k, true)
      modifies this
      ensures Valid()
      ensures var mode := ModeOf(followPointers);
        MarksList(src, mode, was, marks, Succ(src, mode, Node(typeId, false)), k + 1, ok)
      decreases Rank(src, ModeOf(followPointers), Node(typeId, false)), 0
    {
      ghost var mode, n, mid := ModeOf(followPointers), Node(typeId, false), marks;
      ProtoCall(src, mode, n, ret, params, k);
      ok := MarkType(t, followPointers);
      NextCall(src, mode, was, mid, marks, Succ(src, mode, n), k, ok);
    }

    // ----- btfgen_mark_type_match -----

    /** btfgen_mark_type_match: as MarkType over calls (type, behind_ptr), and marks members too. */
    method MarkTypeMatch(typeId: nat, behindPtr: bool) returns (ok: bool)
      requires Valid() && typeId < |src| && AcyclicFrom(src, Match, Node(typeId, behindPtr))
      modifies this
      ensures Valid()
      ensures Marks(src, Match, old(marks), marks, Reach(src, Match, Node(typeId, behindPtr)), ok)
      decreases Rank(src, Match, Node(typeId, behindPtr)), 3
    {
      ghost var n, was := Node(typeId, behindPtr), marks;
      if typeId == 0 {
        MarksVoid(src, Match, was, n);
        return true;
      }
      MarkName(typeId);
      ok := MatchNeeded(typeId, behindPtr);
      MarksNamed(src, Match, was, marks, n, ok);
    }

    /** The switch of btfgen_mark_type_match. */
    method MatchNeeded(typeId: nat, behindPtr: bool) returns (ok: bool)
      requires Valid() && typeId in marks.types && 0 < typeId < |src| && AcyclicFrom(src, Match, Node(typeId, behindPtr))
      modifies this
      ensures Valid()
      ensures MarksNeeded(src, Match, old(marks), marks, Node(typeId, behindPtr), ok)
      decreases Rank(src, Match, Node(typeId, behindPtr)), 2
    {
      ghost var n, was := Node(typeId, behindPtr), marks;
      match src[typeId].body {
        case Leaf(_, _) =>
          ok := true;
          NoCalls(src, Match, was, n);
        case Composite(_, _, _) =>
          if behindPtr {
            ok := true;
            NoCalls(src, Match, was, n);
          } else {
            ok := MatchMembers(typeId);
          }
        case Ref(k, t) =>
          if k == TypeTag {
            return false;
          }
          ok := MatchNext(typeId, behindPtr, t, behindPtr);
        case Fwd(t) =>
          ok := MatchNext(typeId, behindPtr, t, behindPtr);
        case Ptr(t) =>
          ok := MatchNext(typeId, behindPtr, t, true);
        case Array(e, i, _) =>
          ok := MatchArray(typeId, behindPtr, e, i);
          PlainNeeded(src, Match, was, marks, n, ok);
        case FuncProto(r, ps) =>
          ok := MatchProto(typeId, behindPtr, r, ps);
          PlainNeeded(src, Match, was, marks, n, ok);
        case _ =>
          return false;
      }
    }

    /** The cases that go on to one type. */
    method MatchNext(typeId: nat, ghost behindPtr: bool, t: nat, nextBehind: bool) returns (ok: bool)
      requires Valid() && typeId < |src| && AcyclicFrom(src, Match, Node(typeId, behindPtr))
      requires !OpenComposite(src, Node(typeId, behindPtr)) && Supported(Match, src[typeId].body)
      requires Succ(src, Match, Node(typeId, behindPtr)) == [Node(t, nextBehind)]
      modifies this
      ensures Valid()
      ensures MarksNeeded(src, Match, old(marks), marks, Node(typeId, behindPtr), ok)
      decreases Rank(src, Match, Node(typeId, behindPtr)), 1
    {
      ghost var n, was := Node(typeId, behindPtr), marks;
      OneCall(src, Match, n, Node(t, nextBehind));
      ok := MarkTypeMatch(t, nextBehind);
      PlainNeeded(src, Match, was, marks, n, ok);
    }

    /** The STRUCT and UNION case: every member and its type. */
    method MatchMembers(typeId: nat) returns (ok: bool)
      requires Valid() && typeId < |src| && AcyclicFrom(src, Match, Node(typeId, false)) && src[typeId].body.Composite?
      modifies this
      ensures Valid()
      ensures MarksNeeded(src, Match, old(marks), marks, Node(typeId, false), ok)
      decreases Rank(src, Match, Node(typeId, false)), 1
    {
      ghost var was := marks;
      var ms := src[typeId].body.members;
      ghost var n := Node(typeId, false);
      ghost var succ := Succ(src, Match, n);
      MemberSucc(src, n, ms);
      ok := true;
      MembersStart(src, was, typeId, succ);
      var i := 0;
      while ok && i < |ms|
        invariant i <= |ms| && Valid()
        invariant ok ==> MembersPrefix(src, was, marks, typeId, succ, i)
        invariant !ok ==> MarksNeeded(src, Match, was, marks, Node(typeId, false), false)
      {
        ghost var mid := marks;
        MarkMember(typeId, i);
        ghost var flagged := marks;
        MemberCall(src, n, ms, i);
        ok := MarkTypeMatch(ms[i].typ, false);
        NextMember(src, was, mid, flagged, marks, typeId, succ, i, ok);
        i := if ok then i + 1 else i;
      }
      AllMembers(src, was, marks, typeId, succ, i, ok);
    }

    method MatchArray(typeId: nat, ghost behindPtr: bool, elem: nat, index: nat) returns (ok: bool)
      requires Valid() && typeId < |src| && AcyclicFrom(src, Match, Node(typeId, behindPtr))
      requires src[typeId].body.Array? && src[typeId].body.elem == elem && src[typeId].body.index == index
      modifies this
      ensures Valid()
      ensures MarksCalls(src, Match, old(marks), marks, Node(typeId, behindPtr), ok)
      decreases Rank(src, Match, Node(typeId, behindPtr)), 1
    {
      ghost var was, a, b := marks, Node(elem, false), Node(index, false);
      TwoCalls(src, Match, Node(typeId, behindPtr), a, b);
      ok := MarkTypeMatch(elem, false);
      MarksThen(src, Match, was, marks, Reach(src, Match, a), Reach(src, Match, b), ok);
      if ok {
        ghost var mid := marks;
        ok := MarkTypeMatch(index, false);
        MarksBoth(src, Match, was, mid, marks, Reach(src, Match, a), Reach(src, Match, b), ok);
      }
    }

    method MatchProto(typeId: nat, ghost behindPtr: bool, ret: nat, params: seq<nat>) returns (ok: bool)
      requires Valid() && typeId < |src| && AcyclicFrom(src, Match, Node(typeId, behindPtr))
      requires src[typeId].body == FuncProto(ret, params)
      modifies this
      ensures Valid()
      ensures MarksCalls(src, Match, old(marks), marks, Node(typeId, behindPtr), ok)
      decreases Rank(src, Match, Node(typeId, behindPtr)), 1
    {
      ghost var n, was := Node(typeId, behindPtr), marks;
      ghost var succ := Succ(src, Match, n);
      ListStart(src, Match, was, succ);
      var j := 0;
      ok := MatchCall(typeId, behindPtr, ret, params, ret, j, was);
      while ok && j < |params|
        invariant j <= |params| && Valid()
        invariant MarksList(src, Match, was, marks, succ, j + 1, ok)
      {
        ok := MatchCall(typeId, behindPtr, ret, params, params[j], j + 1, was);
        j := j + 1;
      }
      ProtoSucc(src, Match, n, ret, params, 0);
      WholeList(src, Match, was, marks, n, j + 1, ok);
    }

    method MatchCall(
      typeId: nat, ghost behindPtr: bool, ghost ret: nat, ghost params: seq<nat>, t: nat, ghost k: nat,
      ghost was: MarkSet)
      returns (ok: bool)
      requires Valid() && typeId < |src| && AcyclicFrom(src, Match, Node(typeId, behindPtr))
      requires src[typeId].body == FuncProto(ret, params) && k <= |params| && t == if k == 0 then ret else params[k - 1]
      requires MarksList(src, Match, was, marks, Succ(src, Match, Node(typeId, behindPtr)), k, true)
      modifies this
      ensures Valid()
      ensures MarksList(src, Match, was, marks, Succ(src, Match, Node(typeId, behindPtr)), k + 1, ok)
      decreases Rank(src, Match, Node(typeId, behindPtr)), 0
    {
      ghost var n, mid := Node(typeId, behindPtr), marks;
      ProtoCall(src, Match, n, ret, params, k);
      ok := MarkTypeMatch(t, false);
      NextCall(src, Match, was, mid, marks, Succ(src, Match, n), k, ok);
    }
  }

  // ----- how marks accumulate -----

  /** Marking went from `was` to `now` for the calls call n makes. */
  ghost predicate MarksCalls(src: seq<BtfType>, mode: Mode, was: MarkSet, now: MarkSet, n: Node, ok: bool)
    requires n.id < |src|
  {
    Marks(src, mode, was, now, ReachAll(src, mode, Succ(src, mode, n)), ok)
  }

  /** With n's own type marked already: its own members, then the calls it makes; an unsupported kind fails at once. */
  ghost predicate MarksNeeded(src: seq<BtfType>, mode: Mode, was: MarkSet, now: MarkSet, n: Node, ok: bool)
    requires n.id < |src|
  {
    var all := was.(members := was.members + Mems(src, mode, {n}));
    if !Supported(mode, src[n.id].body) then !ok && now == was
    else
      var r := ReachAll(src, mode, Succ(src, mode, n));
      && Within(was, now) && Within(now, Add(src, mode, all, r))
      && (ok ==> now == Add(src, mode, all, r))
      && (ok <==> AllSupported(src, mode, r))
  }

  lemma MarksVoid(src: seq<BtfType>, mode: Mode, was: MarkSet, n: Node)
    requires ValidBtf(src) && n.id == 0
    ensures Marks(src, mode, was, was, Reach(src, mode, n), true)
  {
    ReachStep(src, mode, n);
    assert Reach(src, mode, n) == {n};
    assert Mems(src, mode, {n}) == {};
  }

  lemma AddUnion(src: seq<BtfType>, mode: Mode, was: MarkSet, a: set<Node>, b: set<Node>)
    ensures Add(src, mode, was, a + b) == Add(src, mode, Add(src, mode, was, a), b)
  {
  }

  lemma PlainNeeded(src: seq<BtfType>, mode: Mode, was: MarkSet, now: MarkSet, n: Node, ok: bool)
    requires n.id < |src| && (mode != Match || !OpenComposite(src, n)) && Supported(mode, src[n.id].body)
    requires MarksCalls(src, mode, was, now, n, ok)
    ensures MarksNeeded(src, mode, was, now, n, ok)
  {
    assert Mems(src, mode, {n}) == {};
    assert was.(members := was.members + {}) == was;
  }

  lemma NoCalls(src: seq<BtfType>, mode: Mode, was: MarkSet, n: Node)
    requires n.id < |src| && (mode != Match || !OpenComposite(src, n)) && Supported(mode, src[n.id].body)
    requires Succ(src, mode, n) == []
    ensures MarksNeeded(src, mode, was, was, n, true)
  {
  }

  lemma MarksNamed(src: seq<BtfType>, mode: Mode, was: MarkSet, now: MarkSet, n: Node, ok: bool)
    requires ValidBtf(src) && 0 < n.id < |src|
    requires MarksNeeded(src, mode, was.(types := was.types + {n.id}), now, n, ok)
    ensures Marks(src, mode, was, now, Reach(src, mode, n), ok)
  {
    var r := ReachAll(src, mode, Succ(src, mode, n));
    ReachStep(src, mode, n);
    AddUnion(src, mode, was, {n}, r);
    AddSelf(src, mode, was, n);
    assert n in Reach(src, mode, n);
    if !Supported(mode, src[n.id].body) {
      assert !AllSupported(src, mode, Reach(src, mode, n));
      assert Within(Add(src, mode, was, {n}), Add(src, mode, Add(src, mode, was, {n}), r));
    } else {
      SupportedUnion(src, mode, n, r);
    }
  }

  lemma AddSelf(src: seq<BtfType>, mode: Mode, was: MarkSet, n: Node)
    requires 0 < n.id
    ensures Add(src, mode, was, {n}) == MarkSet(was.types + {n.id}, was.members + Mems(src, mode, {n}))
  {
  }

  lemma SupportedUnion(src: seq<BtfType>, mode: Mode, n: Node, r: set<Node>)
    requires n.id < |src| && Supported(mode, src[n.id].body)
    ensures AllSupported(src, mode, {n} + r) <==> AllSupported(src, mode, r)
  {
  }

  lemma MarksBoth(
      src: seq<BtfType>, mode: Mode, was: MarkSet, mid: MarkSet, now: MarkSet, a: set<Node>, b: set<Node>, ok: bool)
    requires Marks(src, mode, was, mid, a, true) && Marks(src, mode, mid, now, b, ok)
    ensures Marks(src, mode, was, now, a + b, ok)
  {
    AddUnion(src, mode, was, a, b);
  }

  lemma MarksThen(src: seq<BtfType>, mode: Mode, was: MarkSet, now: MarkSet, a: set<Node>, b: set<Node>, ok: bool)
    requires Marks(src, mode, was, now, a, ok)
    ensures !ok ==> Marks(src, mode, was, now, a + b, false)
  {
  }

  lemma OneCall(src: seq<BtfType>, mode: Mode, n: Node, s: Node)
    requires ValidBtf(src) && AcyclicFrom(src, mode, n) && n.id < |src| && Succ(src, mode, n) == [s]
    ensures s.id < |src| && AcyclicFrom(src, mode, s) && Rank(src, mode, s) < Rank(src, mode, n)
    ensures ReachAll(src, mode, Succ(src, mode, n)) == Reach(src, mode, s)
  {
    assert s in Succ(src, mode, n);
    RankDecreases(src, mode, n, s);
    ReachAllOne(src, mode, s);
  }

  lemma TwoCalls(src: seq<BtfType>, mode: Mode, n: Node, a: Node, b: Node)
    requires ValidBtf(src) && AcyclicFrom(src, mode, n) && n.id < |src| && Succ(src, mode, n) == [a, b]
    ensures a.id < |src| && AcyclicFrom(src, mode, a) && Rank(src, mode, a) < Rank(src, mode, n)
    ensures b.id < |src| && AcyclicFrom(src, mode, b) && Rank(src, mode, b) < Rank(src, mode, n)
    ensures ReachAll(src, mode, Succ(src, mode, n)) == Reach(src, mode, a) + Reach(src, mode, b)
  {
    assert a in Succ(src, mode, n) && b in Succ(src, mode, n);
    RankDecreases(src, mode, n, a);
    RankDecreases(src, mode, n, b);
    ReachAllTwo(src, mode, a, b);
  }

  lemma CallBelow(src: seq<BtfType>, mode: Mode, n: Node, k: nat)
    requires ValidBtf(src) && AcyclicFrom(src, mode, n) && n.id < |src| && k < |Succ(src, mode, n)|
    ensures var s := Succ(src, mode, n)[k];
      s.id < |src| && AcyclicFrom(src, mode, s) && Rank(src, mode, s) < Rank(src, mode, n)
  {
    RankDecreases(src, mode, n, Succ(src, mode, n)[k]);
  }

  /** Call k of a prototype: its return type first, then its parameters. */
  lemma ProtoCall(src: seq<BtfType>, mode: Mode, n: Node, ret: nat, params: seq<nat>, k: nat)
    requires ValidBtf(src) && AcyclicFrom(src, mode, n) && n.id < |src| && src[n.id].body == FuncProto(ret, params)
    requires k <= |params|
    ensures var t, succ := if k == 0 then ret else params[k - 1], Succ(src, mode, n);
      && |succ| == |params| + 1 && succ[k] == Node(t, false)
      && t < |src| && AcyclicFrom(src, mode, Node(t, false)) && Rank(src, mode, Node(t, false)) < Rank(src, mode, n)
  {
    ProtoSucc(src, mode, n, ret, params, k);
    CallBelow(src, mode, n, k);
  }

  lemma ProtoSucc(src: seq<BtfType>, mode: Mode, n: Node, ret: nat, params: seq<nat>, k: nat)
    requires n.id < |src| && src[n.id].body == FuncProto(ret, params) && k <= |params|
    ensures |Succ(src, mode, n)| == |params| + 1
    ensures Succ(src, mode, n)[k] == Node(if k == 0 then ret else params[k - 1], false)
  {
  }

  /** Call k of a composite: its member k. */
  lemma MemberCall(src: seq<BtfType>, n: Node, ms: seq<Member>, k: nat)
    requires ValidBtf(src) && AcyclicFrom(src, Match, n) && OpenComposite(src, n) && src[n.id].body.members == ms
    requires k < |ms|
    ensures var succ := Succ(src, Match, n);
      && |succ| == |ms| && succ[k] == Node(ms[k].typ, false)
      && ms[k].typ < |src| && AcyclicFrom(src, Match, Node(ms[k].typ, false))
      && Rank(src, Match, Node(ms[k].typ, false)) < Rank(src, Match, n)
  {
    MemberSucc(src, n, ms);
    CallBelow(src, Match, n, k);
  }

  lemma MemberSucc(src: seq<BtfType>, n: Node, ms: seq<Member>)
    requires OpenComposite(src, n) && src[n.id].body.members == ms
    ensures |Succ(src, Match, n)| == |ms|
    ensures forall k :: 0 <= k < |ms| ==> Succ(src, Match, n)[k] == Node(ms[k].typ, false)
  {
  }

  /** The first k calls have succeeded. */
  ghost predicate MarksPrefix(src: seq<BtfType>, mode: Mode, was: MarkSet, now: MarkSet, succ: seq<Node>, k: nat) {
    k <= |succ| && Marks(src, mode, was, now, ReachAll(src, mode, succ[..k]), true)
  }

  /** The first k calls have succeeded, or the list has failed. */
  ghost predicate MarksList(
      src: seq<BtfType>, mode: Mode, was: MarkSet, now: MarkSet, succ: seq<Node>, k: nat, ok: bool) {
    if ok then MarksPrefix(src, mode, was, now, succ, k)
    else Marks(src, mode, was, now, ReachAll(src, mode, succ), false)
  }

  lemma ListStart(src: seq<BtfType>, mode: Mode, was: MarkSet, succ: seq<Node>)
    ensures MarksList(src, mode, was, was, succ, 0, true)
  {
  }

  lemma NextCall(
      src: seq<BtfType>, mode: Mode, was: MarkSet, mid: MarkSet, now: MarkSet, succ: seq<Node>, k: nat, ok: bool)
    requires k < |succ| && MarksList(src, mode, was, mid, succ, k, true)
    requires Marks(src, mode, mid, now, Reach(src, mode, succ[k]), ok)
    ensures MarksList(src, mode, was, now, succ, k + 1, ok)
  {
    ReachAllSnoc(src, mode, succ, k);
    MarksBoth(src, mode, was, mid, now, ReachAll(src, mode, succ[..k]), Reach(src, mode, succ[k]), ok);
    StopEarly(src, mode, was, now, succ, k + 1, ok);
  }

  /** A failure after k calls is a failure of the whole list. */
  lemma StopEarly(src: seq<BtfType>, mode: Mode, was: MarkSet, now: MarkSet, succ: seq<Node>, k: nat, ok: bool)
    requires k <= |succ| && Marks(src, mode, was, now, ReachAll(src, mode, succ[..k]), ok)
    ensures !ok ==> Marks(src, mode, was, now, ReachAll(src, mode, succ), false)
  {
    var a, all := ReachAll(src, mode, succ[..k]), ReachAll(src, mode, succ);
    ReachAllPrefix(src, mode, succ, k);
    MarksThen(src, mode, was, now, a, all, ok);
    assert a + all == all;
  }

  lemma WholeList(src: seq<BtfType>, mode: Mode, was: MarkSet, now: MarkSet, n: Node, k: nat, ok: bool)
    requires n.id < |src|
    requires MarksList(src, mode, was, now, Succ(src, mode, n), k, ok) && (ok ==> k == |Succ(src, mode, n)|)
    ensures MarksCalls(src, mode, was, now, n, ok)
  {
    var succ := Succ(src, mode, n);
    assert succ[..|succ|] == succ;
  }

  // ----- members of a composite -----

  ghost function FirstMembers(typeId: nat, k: nat): set<(nat, nat)> {
    set j | 0 <= j < k :: (typeId, j)
  }

  /** The first k members and what their types reach are marked. */
  ghost predicate MembersPrefix(src: seq<BtfType>, was: MarkSet, now: MarkSet, typeId: nat, succ: seq<Node>, k: nat) {
    && k <= |succ|
    && AllSupported(src, Match, ReachAll(src, Match, succ[..k]))
    && now == Add(src, Match, was.(members := was.members + FirstMembers(typeId, k)), ReachAll(src, Match, succ[..k]))
  }

  lemma MembersStart(src: seq<BtfType>, was: MarkSet, typeId: nat, succ: seq<Node>)
    ensures MembersPrefix(src, was, was, typeId, succ, 0)
  {
  }

  lemma OwnMembers(src: seq<BtfType>, typeId: nat)
    requires typeId < |src| && src[typeId].body.Composite?
    ensures Mems(src, Match, {Node(typeId, false)}) == FirstMembers(typeId, |src[typeId].body.members|)
  {
  }

  lemma OneMoreFirst(typeId: nat, k: nat)
    ensures FirstMembers(typeId, k + 1) == FirstMembers(typeId, k) + {(typeId, k)}
  {
  }

  /** Flagging a member before or after marking other calls makes no difference. */
  lemma FlagAnyTime(src: seq<BtfType>, was: MarkSet, r: set<Node>, before: set<(nat, nat)>, one: (nat, nat))
    ensures var mid := Add(src, Match, was.(members := was.members + before), r);
      mid.(members := mid.members + {one}) == Add(src, Match, was.(members := was.members + (before + {one})), r)
  {
    var mems := Mems(src, Match, r);
    assert (was.members + before) + mems + {one} == (was.members + (before + {one})) + mems;
  }

  /** Flagging member k and marking its type adds both to the prefix. */
  lemma OneMoreMember(src: seq<BtfType>, was: MarkSet, mid: MarkSet, typeId: nat, succ: seq<Node>, k: nat)
    requires k < |succ| && MembersPrefix(src, was, mid, typeId, succ, k)
    ensures var base := was.(members := was.members + FirstMembers(typeId, k + 1));
      && Add(src, Match, mid.(members := mid.members + {(typeId, k)}), Reach(src, Match, succ[k]))
         == Add(src, Match, base, ReachAll(src, Match, succ[..k + 1]))
      && Within(was, mid)
  {
    var before, one := ReachAll(src, Match, succ[..k]), Reach(src, Match, succ[k]);
    ReachAllSnoc(src, Match, succ, k);
    OneMoreFirst(typeId, k);
    FlagAnyTime(src, was, before, FirstMembers(typeId, k), (typeId, k));
    AddUnion(src, Match, was.(members := was.members + FirstMembers(typeId, k + 1)), before, one);
  }

  lemma NextMember(
      src: seq<BtfType>, was: MarkSet, mid: MarkSet, flagged: MarkSet, now: MarkSet, typeId: nat, succ: seq<Node>,
      k: nat, ok: bool)
    requires typeId < |src| && src[typeId].body.Composite? && k < |src[typeId].body.members| == |succ|
    requires succ == Succ(src, Match, Node(typeId, false))
    requires MembersPrefix(src, was, mid, typeId, succ, k)
    requires flagged == mid.(members := mid.members + {(typeId, k)})
    requires Marks(src, Match, flagged, now, Reach(src, Match, succ[k]), ok)
    ensures ok ==> MembersPrefix(src, was, now, typeId, succ, k + 1)
    ensures !ok ==> MarksNeeded(src, Match, was, now, Node(typeId, false), false)
  {
    OneMoreMember(src, was, mid, typeId, succ, k);
    ReachAllSnoc(src, Match, succ, k);
    if !ok {
      FailedMember(src, was, was.(members := was.members + FirstMembers(typeId, k + 1)), now, typeId, succ, k);
    }
  }

  lemma FailedMember(src: seq<BtfType>, was: MarkSet, base: MarkSet, now: MarkSet, typeId: nat, succ: seq<Node>, k: nat)
    requires typeId < |src| && src[typeId].body.Composite? && k < |src[typeId].body.members| == |succ|
    requires succ == Succ(src, Match, Node(typeId, false))
    requires base == was.(members := was.members + FirstMembers(typeId, k + 1))
    requires Within(was, now) && Within(now, Add(src, Match, base, ReachAll(src, Match, succ[..k + 1])))
    requires !AllSupported(src, Match, ReachAll(src, Match, succ[..k + 1]))
    ensures MarksNeeded(src, Match, was, now, Node(typeId, false), false)
  {
    var some, all := ReachAll(src, Match, succ[..k + 1]), ReachAll(src, Match, succ);
    ReachAllPrefix(src, Match, succ, k + 1);
    AddUnion(src, Match, base, some, all);
    assert some + all == all;
    OwnMembers(src, typeId);
    assert FirstMembers(typeId, k + 1) <= FirstMembers(typeId, |succ|);
  }

  lemma AllMembers(src: seq<BtfType>, was: MarkSet, now: MarkSet, typeId: nat, succ: seq<Node>, k: nat, ok: bool)
    requires typeId < |src| && src[typeId].body.Composite? && |src[typeId].body.members| == |succ|
    requires succ == Succ(src, Match, Node(typeId, false))
    requires ok ==> k == |succ| && MembersPrefix(src, was, now, typeId, succ, k)
    requires !ok ==> MarksNeeded(src, Match, was, now, Node(typeId, false), false)
    ensures MarksNeeded(src, Match, was, now, Node(typeId, false), ok)
  {
    assert succ[..|succ|] == succ;
    OwnMembers(src, typeId);
  }

  lemma SameShapeAt(src: seq<BtfType>, marked: seq<BtfType>, i: nat)
    requires SameShape(src, marked) && i < |src|
    ensures src[i].body.Composite? ==>
      && marked[i].body.Composite? && |marked[i].body.members| == |src[i].body.members|
      && forall k :: 0 <= k < |src[i].body.members| ==>
           src[i].body.members[k] == marked[i].body.members[k].(name := src[i].body.members[k].name)
    ensures !src[i].body.Composite? ==> marked[i].body == src[i].body
  {
    var a, b := src[i].body, marked[i].body;
    assert Unnamed(a) == Unnamed(b);
    if a.Composite? {
      assert |Unnamed(a).members| == |a.members| && |Unnamed(b).members| == |b.members|;
      forall k | 0 <= k < |a.members|
        ensures a.members[k] == b.members[k].(name := a.members[k].name)
      {
        assert Unnamed(a).members[k] == Unnamed(b).members[k];
      }
    }
  }

  lemma UnnamedMember(b: Body, idx: nat)
    requires b.Composite? && idx < |b.members|
    ensures Unnamed(b.(members := b.members[idx := b.members[idx].(name := Marked)])) == Unnamed(b)
  {
  }
}
