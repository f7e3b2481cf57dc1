// bpftool/src/gen.c: what the three markers reach, by the kinds of types.
module BtfgenMarks {
  import opened Prelude
  import opened Btf
  import opened Btfgen
  import opened BtfgenRecord

  /**
   * What the calls S must hold with a call of n: all members of a composite in match mode unless it is behind a
   * pointer; the pointee unless pointers are not followed, in match mode as behind a pointer; the type behind a
   * modifier, a typedef or, in match mode, a forward declaration, as n is; elements, indices, returns and parameters.
   */
  ghost predicate Needed(src: seq<BtfType>, mode: Mode, n: Node, S: set<Node>)
    requires n.id < |src|
  {
    var b := src[n.id].body;
    && (b.Composite? && mode == Match && !n.behind ==>
          forall k :: 0 <= k < |b.members| ==> Node(b.members[k].typ, false) in S)
    && (b.Ptr? && mode == Follow ==> Node(b.typ, false) in S)
    && (b.Ptr? && mode == Match ==> Node(b.typ, true) in S)
    && (b.Ref? && b.ref != TypeTag ==> Node(b.typ, n.behind) in S)
    && (b.Fwd? && mode == Match ==> Node(b.typ, n.behind) in S)
    && (b.Array? ==> Node(b.elem, false) in S && Node(b.index, false) in S)
    && (b.FuncProto? ==>
          Node(b.ret, false) in S && forall k :: 0 <= k < |b.params| ==> Node(b.params[k], false) in S)
  }

  ghost predicate ClosedUnder(src: seq<BtfType>, mode: Mode, S: set<Node>) {
    forall n :: n in S ==> n.id < |src| && Needed(src, mode, n, S)
  }

  /** Needed is what the marker's calls are. */
  lemma NeededIff(src: seq<BtfType>, mode: Mode, n: Node, S: set<Node>)
    requires n.id < |src|
    ensures Needed(src, mode, n, S) <==> forall k :: 0 <= k < |Succ(src, mode, n)| ==> Succ(src, mode, n)[k] in S
  {
    var succ := Succ(src, mode, n);
    match src[n.id].body
    case Composite(_, _, ms) =>
      if mode == Match && !n.behind {
        assert forall k :: 0 <= k < |ms| ==> succ[k] == Node(ms[k].typ, false);
      }
    case FuncProto(r, ps) =>
      assert succ[0] == Node(r, false);
      assert forall k :: 0 <= k < |ps| ==> succ[k + 1] == Node(ps[k], false);
    case Array(e, i, _) => assert succ[0] == Node(e, false) && succ[1] == Node(i, false);
    case Ref(kind, t) => assert kind != TypeTag ==> succ[0] == Node(t, n.behind);
    case Ptr(t) => assert mode != NoFollow ==> succ[0] == Node(t, mode == Match);
    case Fwd(t) => assert mode == Match ==> succ[0] == Node(t, n.behind);
    case _ =>
  }

  /** What a call reaches is closed and holds it. */
  lemma ReachClosed(src: seq<BtfType>, mode: Mode, n: Node)
    requires ValidBtf(src) && n.id < |src|
    ensures n in Reach(src, mode, n) && ClosedUnder(src, mode, Reach(src, mode, n))
  {
    SelfReach(src, mode, n);
    forall m | m in Reach(src, mode, n)
      ensures m.id < |src| && Needed(src, mode, m, Reach(src, mode, n))
    {
      forall k | 0 <= k < |Succ(src, mode, m)|
        ensures Succ(src, mode, m)[k] in Reach(src, mode, n)
      {
        ReachExtends(src, mode, n, m, Succ(src, mode, m)[k]);
      }
      NeededIff(src, mode, m, Reach(src, mode, n));
    }
  }

  /** And nothing that another closed set with it does not hold. */
  lemma ReachLeast(src: seq<BtfType>, mode: Mode, n: Node, S: set<Node>)
    requires ClosedUnder(src, mode, S) && n in S
    ensures Reach(src, mode, n) <= S
  {
    forall m | m in Reach(src, mode, n)
      ensures m in S
    {
      var p :| IsWalk(src, mode, p) && p[0] == n && p[|p| - 1] == m;
      WalkInside(src, mode, p, S, |p| - 1);
    }
  }

  lemma {:induction false} WalkInside(src: seq<BtfType>, mode: Mode, p: seq<Node>, S: set<Node>, i: nat)
    requires ClosedUnder(src, mode, S) && IsWalk(src, mode, p) && p[0] in S && i < |p|
    ensures p[i] in S
  {
    if i > 0 {
      WalkInside(src, mode, p, S, i - 1);
      NeededIff(src, mode, p[i - 1], S);
      assert p[i - 1 + 1] in Succ(src, mode, p[i - 1]);
    }
  }

  /** The kinds a marker accepts. */
  lemma SupportedIff(mode: Mode, b: Body)
    ensures Supported(mode, b) <==>
      || b.Void? || b.Leaf? || b.Composite? || b.Ptr? || b.Array? || b.FuncProto?
      || (b.Ref? && b.ref in {Const, Volatile, Restrict, Typedef})
      || (b.Fwd? && mode == Match)
  {
  }

  lemma IdsIff(r: set<Node>, i: nat)
    ensures i in Ids(r) <==> i != 0 && (Node(i, false) in r || Node(i, true) in r)
  {
    if i in Ids(r) {
      var n :| n in r && n.id == i;
      assert n == Node(i, n.behind);
    }
  }

  /** A successful marking adds every type its calls reach, void excepted. */
  lemma MarkedTypes(src: seq<BtfType>, mode: Mode, was: MarkSet, now: MarkSet, r: set<Node>, i: nat)
    requires Marks(src, mode, was, now, r, true)
    ensures i in now.types <==> i in was.types || (i != 0 && (Node(i, false) in r || Node(i, true) in r))
  {
    IdsIff(r, i);
  }

  /** In match mode it adds all members of the composites it reaches not behind a pointer, in the other modes none. */
  lemma MarkedMembers(src: seq<BtfType>, mode: Mode, was: MarkSet, now: MarkSet, r: set<Node>, i: nat, k: nat)
    requires Marks(src, mode, was, now, r, true)
    ensures (i, k) in now.members <==>
      || (i, k) in was.members
      || (mode == Match && Node(i, false) in r && i < |src| && src[i].body.Composite? && k < |src[i].body.members|)
  {
    if mode == Match && Node(i, false) in r && i < |src| && src[i].body.Composite? && k < |src[i].body.members| {
      assert OpenComposite(src, Node(i, false));
    }
  }
}
