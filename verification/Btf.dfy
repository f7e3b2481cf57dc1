// BTF type graphs: the types bpftool/src/gen.c minimises, and reachability in them.
module Btf {
  import opened Prelude

  /** A name offset: the string it denotes, or the sentinel UINT32_MAX used as a mark. */
  datatype Name = Off(str: string) | Marked

  datatype Member = Member(name: Name, typ: nat, bitOffset: nat, bitfieldSize: nat)

  datatype LeafKind = Int(offset: nat) | Float | Enum | Enum64

  datatype RefKind = Const | Restrict | Volatile | Typedef | TypeTag

  /** Kind and payload of `struct btf_type`; type ids are indices, 0 is void. */
  datatype Body =
    | Void
    | Leaf(kind: LeafKind, size: nat)
    | Composite(isUnion: bool, size: nat, members: seq<Member>)
    | Ptr(typ: nat)
    | Ref(ref: RefKind, typ: nat)
    | Array(elem: nat, index: nat, nelems: nat)
    | Fwd(typ: nat)
    | FuncProto(ret: nat, params: seq<nat>)
    | Other(refs: seq<nat>) // FUNC, VAR, DATASEC, DECL_TAG

  datatype BtfType = BtfType(name: Name, body: Body)

  function MemberTypes(ms: seq<Member>): (ids: seq<nat>)
    ensures |ids| == |ms| && forall k :: 0 <= k < |ms| ==> ids[k] == ms[k].typ
  {
    if ms == [] then [] else [ms[0].typ] + MemberTypes(ms[1..])
  }

  /** The type ids btf_type_visit_type_ids visits. */
  function Refs(b: Body): seq<nat> {
    match b
    case Void => []
    case Leaf(_, _) => []
    case Composite(_, _, ms) => MemberTypes(ms)
    case Ptr(t) => [t]
    case Ref(_, t) => [t]
    case Array(e, i, _) => [e, i]
    case Fwd(t) => [t]
    case FuncProto(r, ps) => [r] + ps
    case Other(rs) => rs
  }

  ghost predicate ValidBtf(btf: seq<BtfType>) {
    && |btf| > 0 && btf[0].body == Void
    && (forall i :: 0 < i < |btf| ==> btf[i].body != Void)
    && forall i, r :: 0 <= i < |btf| && r in Refs(btf[i].body) ==> r < |btf|
  }

  /** The three ways types are marked: field and enum relocations, type relocations, type-match relocations. */
  datatype Mode = NoFollow | Follow | Match

  /** A call of a marker: the type and, for the match marker, its `behind_ptr` argument. */
  datatype Node = Node(id: nat, behind: bool)

  /** The kinds a marker accepts; the others are an error. */
  predicate Supported(mode: Mode, b: Body) {
    match b
    case Ref(k, _) => k != TypeTag
    case Fwd(_) => mode == Match
    case Other(_) => false
    case _ => true
  }

  /** Calls that are not behind a pointer. */
  function Plain(ids: seq<nat>): (ns: seq<Node>)
    ensures |ns| == |ids| && forall k :: 0 <= k < |ids| ==> ns[k] == Node(ids[k], false)
  {
    if ids == [] then [] else [Node(ids[0], false)] + Plain(ids[1..])
  }

  /** The calls one call of the marker makes, in order. */
  function Succ(btf: seq<BtfType>, mode: Mode, n: Node): seq<Node>
    requires n.id < |btf|
  {
    match btf[n.id].body
    case Composite(_, _, ms) =>
      if mode == Match && !n.behind then Plain(MemberTypes(ms)) else []
    case Ptr(t) => if mode == NoFollow then [] else [Node(t, mode == Match)]
    case Ref(k, t) => if k == TypeTag then [] else [Node(t, n.behind)]
    case Array(e, i, _) => [Node(e, false), Node(i, false)]
    case Fwd(t) => if mode == Match then [Node(t, n.behind)] else []
    case FuncProto(r, ps) => Plain([r] + ps)
    case _ => []
  }

  ghost predicate IsWalk(btf: seq<BtfType>, mode: Mode, p: seq<Node>) {
    && |p| > 0
    && (forall i :: 0 <= i < |p| ==> p[i].id < |btf|)
    && forall i :: 0 <= i < |p| - 1 ==> p[i + 1] in Succ(btf, mode, p[i])
  }

  /**
   * No cycle of marker calls that a call of n can run into: without following, every cycle of types it reaches
   * passes a struct, a union or a pointer.
   */
  ghost predicate AcyclicFrom(btf: seq<BtfType>, mode: Mode, n: Node) {
    forall p :: IsWalk(btf, mode, p) && |p| >= 2 && Reaches(btf, mode, n, p[0]) ==> p[0] != p[|p| - 1]
  }

  ghost predicate Reaches(btf: seq<BtfType>, mode: Mode, a: Node, b: Node) {
    exists p :: IsWalk(btf, mode, p) && p[0] == a && p[|p| - 1] == b
  }

  ghost function AllNodes(btf: seq<BtfType>): set<Node> {
    set id, b | 0 <= id < |btf| && b in {false, true} :: Node(id, b)
  }

  ghost function Reach(btf: seq<BtfType>, mode: Mode, n: Node): set<Node> {
    set m | m in AllNodes(btf) && Reaches(btf, mode, n, m)
  }

  ghost function ReachAll(btf: seq<BtfType>, mode: Mode, ns: seq<Node>): set<Node> {
    if ns == [] then {} else ReachAll(btf, mode, ns[..|ns| - 1]) + Reach(btf, mode, ns[|ns| - 1])
  }

  /** The marker's recursion depth is bounded by what is reachable. */
  ghost function Rank(btf: seq<BtfType>, mode: Mode, n: Node): nat {
    |Reach(btf, mode, n)|
  }

  lemma InAllNodes(btf: seq<BtfType>, n: Node)
    requires n.id < |btf|
    ensures n in AllNodes(btf)
  {
  }

  lemma SuccInRange(btf: seq<BtfType>, mode: Mode, n: Node, s: Node)
    requires ValidBtf(btf) && n.id < |btf| && s in Succ(btf, mode, n)
    ensures s.id < |btf|
  {
    var refs := Refs(btf[n.id].body);
    var k :| 0 <= k < |Succ(btf, mode, n)| && Succ(btf, mode, n)[k] == s;
    CallIsRef(btf, mode, n, k);
    assert refs[k] in refs;
  }

  /** The calls follow the type's references, in order. */
  lemma CallIsRef(btf: seq<BtfType>, mode: Mode, n: Node, k: nat)
    requires n.id < |btf| && k < |Succ(btf, mode, n)|
    ensures k < |Refs(btf[n.id].body)| && Succ(btf, mode, n)[k].id == Refs(btf[n.id].body)[k]
  {
    if btf[n.id].body.FuncProto? {
      ProtoRef(btf, mode, n, k);
    }
  }

  lemma ProtoRef(btf: seq<BtfType>, mode: Mode, n: Node, k: nat)
    requires n.id < |btf| && btf[n.id].body.FuncProto? && k < |Succ(btf, mode, n)|
    ensures k < |Refs(btf[n.id].body)| && Succ(btf, mode, n)[k].id == Refs(btf[n.id].body)[k]
  {
  }

  lemma SelfReach(btf: seq<BtfType>, mode: Mode, n: Node)
    requires n.id < |btf|
    ensures n in Reach(btf, mode, n)
  {
    InAllNodes(btf, n);
    assert IsWalk(btf, mode, [n]);
  }

  lemma ReachThrough(btf: seq<BtfType>, mode: Mode, n: Node, s: Node, m: Node)
    requires n.id < |btf| && s in Succ(btf, mode, n) && Reaches(btf, mode, s, m)
    ensures Reaches(btf, mode, n, m)
  {
    var p :| IsWalk(btf, mode, p) && p[0] == s && p[|p| - 1] == m;
    var q := [n] + p;
    assert IsWalk(btf, mode, q);
  }

  lemma {:induction false} InReachAll(btf: seq<BtfType>, mode: Mode, ns: seq<Node>, m: Node)
    ensures m in ReachAll(btf, mode, ns) <==> exists k :: 0 <= k < |ns| && m in Reach(btf, mode, ns[k])
  {
    if ns != [] {
      InReachAll(btf, mode, ns[..|ns| - 1], m);
      assert forall k :: 0 <= k < |ns| - 1 ==> ns[..|ns| - 1][k] == ns[k];
    }
  }

  /** What is reachable: the node itself and all that its successors reach. */
  lemma ReachStep(btf: seq<BtfType>, mode: Mode, n: Node)
    requires ValidBtf(btf) && n.id < |btf|
    ensures Reach(btf, mode, n) == {n} + ReachAll(btf, mode, Succ(btf, mode, n))
  {
    SelfReach(btf, mode, n);
    forall m | m in Reach(btf, mode, n)
      ensures m == n || m in ReachAll(btf, mode, Succ(btf, mode, n))
    {
      if m != n { ReachesFirst(btf, mode, n, m); }
    }
    forall m | m in ReachAll(btf, mode, Succ(btf, mode, n))
      ensures m in Reach(btf, mode, n)
    {
      ReachesRest(btf, mode, n, m);
    }
  }

  lemma ReachesFirst(btf: seq<BtfType>, mode: Mode, n: Node, m: Node)
    requires n.id < |btf| && m in Reach(btf, mode, n) && m != n
    ensures m in ReachAll(btf, mode, Succ(btf, mode, n))
  {
    var p :| IsWalk(btf, mode, p) && p[0] == n && p[|p| - 1] == m;
    WalkTail(btf, mode, p);
    assert p[0 + 1] in Succ(btf, mode, n);
    ReachesCall(btf, mode, Succ(btf, mode, n), p[1], m);
  }

  lemma ReachesCall(btf: seq<BtfType>, mode: Mode, succ: seq<Node>, s: Node, m: Node)
    requires s in succ && Reaches(btf, mode, s, m) && m in AllNodes(btf)
    ensures m in ReachAll(btf, mode, succ)
  {
    var k :| 0 <= k < |succ| && succ[k] == s;
    assert m in Reach(btf, mode, succ[k]);
    InReachAll(btf, mode, succ, m);
  }

  lemma WalkTail(btf: seq<BtfType>, mode: Mode, p: seq<Node>)
    requires IsWalk(btf, mode, p) && |p| > 1
    ensures IsWalk(btf, mode, p[1..]) && p[1..][0] == p[1] && p[1..][|p| - 2] == p[|p| - 1]
  {
  }

  lemma ReachesRest(btf: seq<BtfType>, mode: Mode, n: Node, m: Node)
    requires n.id < |btf| && m in ReachAll(btf, mode, Succ(btf, mode, n))
    ensures m in Reach(btf, mode, n)
  {
    var succ := Succ(btf, mode, n);
    InReachAll(btf, mode, succ, m);
    var k :| 0 <= k < |succ| && m in Reach(btf, mode, succ[k]);
    ReachThrough(btf, mode, n, succ[k], m);
  }

  lemma CycleThrough(btf: seq<BtfType>, mode: Mode, n: Node, s: Node) returns (q: seq<Node>)
    requires n.id < |btf| && s in Succ(btf, mode, n) && Reaches(btf, mode, s, n)
    ensures IsWalk(btf, mode, q) && |q| >= 2 && q[0] == n && q[|q| - 1] == n
  {
    var p :| IsWalk(btf, mode, p) && p[0] == s && p[|p| - 1] == n;
    q := [n] + p;
  }

  /** A call that runs into no cycle is not reached from the calls it makes. */
  lemma NotReachedBack(btf: seq<BtfType>, mode: Mode, n: Node, s: Node)
    requires AcyclicFrom(btf, mode, n) && n.id < |btf| && s in Succ(btf, mode, n)
    ensures !Reaches(btf, mode, s, n)
  {
    SelfReach(btf, mode, n);
    if Reaches(btf, mode, s, n) {
      var q := CycleThrough(btf, mode, n, s);
    }
  }

  /** What a call runs into, its caller runs into too. */
  lemma AcyclicStep(btf: seq<BtfType>, mode: Mode, n: Node, s: Node)
    requires AcyclicFrom(btf, mode, n) && n.id < |btf| && s in Succ(btf, mode, n)
    ensures AcyclicFrom(btf, mode, s)
  {
    forall p | IsWalk(btf, mode, p) && |p| >= 2 && Reaches(btf, mode, s, p[0])
      ensures p[0] != p[|p| - 1]
    {
      ReachThrough(btf, mode, n, s, p[0]);
    }
  }

  /** In an acyclic call graph every call has a smaller rank: the recursion ends. */
  lemma RankDecreases(btf: seq<BtfType>, mode: Mode, n: Node, s: Node)
    requires ValidBtf(btf) && AcyclicFrom(btf, mode, n) && n.id < |btf| && s in Succ(btf, mode, n)
    ensures s.id < |btf| && AcyclicFrom(btf, mode, s)
    ensures Rank(btf, mode, s) < Rank(btf, mode, n)
  {
    SuccInRange(btf, mode, n, s);
    AcyclicStep(btf, mode, n, s);
    NotReachedBack(btf, mode, n, s);
    SelfReach(btf, mode, n);
    var small, big := Reach(btf, mode, s), Reach(btf, mode, n);
    forall m | m in small
      ensures m in big
    {
      ReachThrough(btf, mode, n, s, m);
    }
    StrictSubsetSmaller(small, big, n);
  }

  lemma StrictSubsetSmaller<T>(a: set<T>, b: set<T>, x: T)
    requires a <= b && x in b && x !in a
    ensures |a| < |b|
  {
    SubsetSmaller(a, b - {x});
  }

  lemma {:induction false} SubsetSmaller<T>(a: set<T>, b: set<T>)
    requires a <= b
    ensures |a| <= |b|
  {
    assert b == a + (b - a);
  }

  /** The type ids of a set of calls; void is never marked. */
  ghost function Ids(ns: set<Node>): set<nat> {
    set m | m in ns && m.id != 0 :: m.id
  }

  ghost predicate AllSupported(btf: seq<BtfType>, mode: Mode, ns: set<Node>) {
    forall m :: m in ns && m.id < |btf| ==> Supported(mode, btf[m.id].body)
  }

  lemma ReachAllOne(btf: seq<BtfType>, mode: Mode, n: Node)
    ensures ReachAll(btf, mode, [n]) == Reach(btf, mode, n)
  {
  }

  lemma ReachAllSnoc(btf: seq<BtfType>, mode: Mode, ns: seq<Node>, k: nat)
    requires k < |ns|
    ensures ReachAll(btf, mode, ns[..k + 1]) == ReachAll(btf, mode, ns[..k]) + Reach(btf, mode, ns[k])
  {
    assert ns[..k + 1][..k] == ns[..k];
  }

  lemma ReachAllTwo(btf: seq<BtfType>, mode: Mode, a: Node, b: Node)
    ensures ReachAll(btf, mode, [a, b]) == Reach(btf, mode, a) + Reach(btf, mode, b)
  {
    assert [a, b][..1] == [a];
    ReachAllOne(btf, mode, a);
  }

  lemma ReachAllPrefix(btf: seq<BtfType>, mode: Mode, ns: seq<Node>, k: nat)
    requires k <= |ns|
    ensures ReachAll(btf, mode, ns[..k]) <= ReachAll(btf, mode, ns)
  {
    forall m | m in ReachAll(btf, mode, ns[..k])
      ensures m in ReachAll(btf, mode, ns)
    {
      InReachAll(btf, mode, ns[..k], m);
      InReachAll(btf, mode, ns, m);
    }
  }
}
