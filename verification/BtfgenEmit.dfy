// bpftool/src/gen.c: btfgen_get_btf, the BTF made of the marked types, and what it preserves.
module BtfgenEmit {
  import opened Prelude
  import opened Btf
  import opened Btfgen
  import opened BtfgenRecord

  // ----- the renumbering -----

  /** How many of the types 1 .. i-1 are marked. */
  ghost function Count(types: set<nat>, i: nat): nat {
    if i <= 1 then 0 else Count(types, i - 1) + if i - 1 in types then 1 else 0
  }

  /** The `ids` array: marked types are numbered from 1 in order, all others map to 0. */
  ghost function NewId(types: set<nat>, i: nat): nat {
    if i in types then Count(types, i) + 1 else 0
  }

  lemma {:induction false} CountMonotone(types: set<nat>, i: nat, j: nat)
    requires i <= j
    ensures Count(types, i) <= Count(types, j)
    ensures 0 < i < j && i in types ==> Count(types, i) < Count(types, j)
    decreases j - i
  {
    if i < j {
      CountMonotone(types, i, j - 1);
    }
  }

  /** The renumbering keeps the order of types, so it is injective on marked ones. */
  lemma NewIdOrdered(types: set<nat>, i: nat, j: nat)
    requires 0 < i && 0 < j && i in types && j in types
    ensures i < j <==> NewId(types, i) < NewId(types, j)
  {
    if i < j {
      CountMonotone(types, i, j);
    } else {
      CountMonotone(types, j, i);
    }
  }

  /** The marked types below i. */
  ghost function TypesBelow(types: set<nat>, i: nat): set<nat> { set x | x in types && 0 < x < i }

  /** A marked type's new id is one more than the number of marked types before it. */
  lemma NewIdCounts(types: set<nat>, i: nat)
    ensures NewId(types, i) == if i in types then 1 + |TypesBelow(types, i)| else 0
  {
    CountIs(types, i);
  }

  lemma {:induction false} CountIs(types: set<nat>, i: nat)
    ensures Count(types, i) == |TypesBelow(types, i)|
  {
    if i <= 1 {
      assert TypesBelow(types, i) == {};
    } else {
      CountIs(types, i - 1);
      var before := TypesBelow(types, i - 1);
      assert TypesBelow(types, i) == if i - 1 in types then before + {i - 1} else before;
    }
  }

  /** Every output id but void is the image of a marked type. */
  lemma {:induction false} NewIdOnto(types: set<nat>, n: nat, j: nat) returns (i: nat)
    requires 0 < j <= Count(types, n)
    ensures 0 < i < n && i in types && NewId(types, i) == j
    decreases n
  {
    if n - 1 in types && Count(types, n - 1) + 1 == j {
      i := n - 1;
    } else {
      i := NewIdOnto(types, n - 1, j);
    }
  }

  // ----- the emitted types -----

  /** The marked ones among the first n members of type i. */
  ghost function Kept(ms: seq<Member>, m: MarkSet, i: nat, n: nat): seq<Member>
    requires n <= |ms|
  {
    if n == 0 then []
    else Kept(ms, m, i, n - 1) + if (i, n - 1) in m.members then [ms[n - 1]] else []
  }

  /** A marked member's index among the kept ones. */
  ghost function NewIndex(ms: seq<Member>, m: MarkSet, i: nat, k: nat): nat
    requires k <= |ms|
  {
    |Kept(ms, m, i, k)|
  }

  lemma {:induction false} KeptAt(ms: seq<Member>, m: MarkSet, i: nat, k: nat, n: nat)
    requires k < n <= |ms| && (i, k) in m.members
    ensures NewIndex(ms, m, i, k) < |Kept(ms, m, i, n)|
    ensures Kept(ms, m, i, n)[NewIndex(ms, m, i, k)] == ms[k]
    decreases n
  {
    if k < n - 1 {
      KeptAt(ms, m, i, k, n - 1);
    }
  }

  lemma {:induction false} KeptOnly(ms: seq<Member>, m: MarkSet, i: nat, n: nat, j: nat) returns (k: nat)
    requires n <= |ms| && j < |Kept(ms, m, i, n)|
    ensures k < n && (i, k) in m.members && NewIndex(ms, m, i, k) == j && Kept(ms, m, i, n)[j] == ms[k]
    decreases n
  {
    if j == |Kept(ms, m, i, n - 1)| {
      k := n - 1;
    } else {
      k := KeptOnly(ms, m, i, n - 1, j);
    }
  }

  /** A marked type with only its marked members. */
  ghost function Trimmed(src: seq<BtfType>, m: MarkSet, i: nat): BtfType
    requires i < |src|
  {
    match src[i].body
    case Composite(u, s, ms) => src[i].(body := Composite(u, s, Kept(ms, m, i, |ms|)))
    case _ => src[i]
  }

  /** btf_type_visit_type_ids with btfgen_remap_id. */
  ghost function Remap(types: set<nat>, b: Body): Body {
    match b
    case Composite(u, s, ms) =>
      Composite(u, s, seq(|ms|, k requires 0 <= k < |ms| => ms[k].(typ := NewId(types, ms[k].typ))))
    case Ptr(t) => Ptr(NewId(types, t))
    case Ref(k, t) => Ref(k, NewId(types, t))
    case Array(e, i, n) => Array(NewId(types, e), NewId(types, i), n)
    case Fwd(t) => Fwd(NewId(types, t))
    case FuncProto(r, ps) => FuncProto(NewId(types, r), seq(|ps|, k requires 0 <= k < |ps| => NewId(types, ps[k])))
    case Other(rs) => Other(seq(|rs|, k requires 0 <= k < |rs| => NewId(types, rs[k])))
    case _ => b
  }

  ghost function Image(src: seq<BtfType>, m: MarkSet, i: nat): BtfType
    requires i < |src|
  {
    var t := Trimmed(src, m, i);
    t.(body := Remap(m.types, t.body))
  }

  const VOID: BtfType := BtfType(Off(""), Void)

  /** The minimised BTF: void, then the images of the marked types in order. */
  ghost predicate Emitted(src: seq<BtfType>, m: MarkSet, out: seq<BtfType>) {
    && |out| == Count(m.types, |src|) + 1
    && out[0] == VOID
    && forall i {:trigger Image(src, m, i)} :: i in m.types && 0 < i < |src| ==>
         NewId(m.types, i) < |out| && out[NewId(m.types, i)] == Image(src, m, i)
  }

  /** What btf__add_field accepts (libbpf/src/btf.c:2026-2033). */
  predicate FieldOk(isUnion: bool, bitOffset: nat, bitSize: nat) {
    var isBitfield := bitSize != 0 || bitOffset % 8 != 0;
    && !(isBitfield && (bitSize == 0 || bitSize > 255 || bitOffset > 0xffffff))
    && !(isUnion && bitOffset != 0)
  }

  /** btf__add_field accepts every marked member of type i below n. */
  ghost predicate FieldsOk(src: seq<BtfType>, m: MarkSet, i: nat, n: nat)
    requires i < |src| && src[i].body.Composite? && n <= |src[i].body.members|
  {
    forall k :: 0 <= k < n && (i, k) in m.members ==>
      FieldOk(src[i].body.isUnion, src[i].body.members[k].bitOffset, src[i].body.members[k].bitfieldSize)
  }

  ghost predicate AllFieldsOk(src: seq<BtfType>, m: MarkSet, n: nat)
    requires n <= |src|
  {
    forall i :: 0 < i < n && i in m.types && src[i].body.Composite? ==> FieldsOk(src, m, i, |src[i].body.members|)
  }

  /** The member loop of btfgen_get_btf's first pass. */
  method AddMembers(info: BtfgenInfo, i: nat) returns (r: Option<BtfType>)
    requires info.Valid() && i < |info.src| && info.src[i].body.Composite?
    ensures r.Some? <==> FieldsOk(info.src, info.marks, i, |info.src[i].body.members|)
    ensures r.Some? ==> r.value == Trimmed(info.src, info.marks, i)
  {
    SameShapeAt(info.src, info.marked, i);
    var t := info.src[i];
    var cloned := info.marked[i].body.members;
    var ms := t.body.members;
    var kept: seq<Member> := [];
    var k := 0;
    while k < |cloned|
      invariant k <= |cloned| == |ms| && kept == Kept(ms, info.marks, i, k)
      invariant FieldsOk(info.src, info.marks, i, k)
    {
      assert MemberMarked(info.marked, i, k) <==> (i, k) in info.marks.members;
      if cloned[k].name == Marked {
        if !FieldOk(t.body.isUnion, cloned[k].bitOffset, cloned[k].bitfieldSize) {
          return None;
        }
        kept := kept + [Member(ms[k].name, ms[k].typ, cloned[k].bitOffset, cloned[k].bitfieldSize)];
      }
      k := k + 1;
    }
    return Some(t.(body := Composite(t.body.isUnion, t.body.size, kept)));
  }

  /** btfgen_remap_id over one type. */
  method RemapIds(ids: array<nat>, t: BtfType, ghost types: set<nat>) returns (r: BtfType)
    requires forall j :: 0 <= j < ids.Length ==> ids[j] == NewId(types, j)
    requires forall x :: x in Refs(t.body) ==> x < ids.Length
    ensures r == t.(body := Remap(types, t.body))
  {
    var refs := Refs(t.body);
    assert forall k :: 0 <= k < |refs| ==> refs[k] in Refs(t.body);
    match t.body {
      case Composite(u, s, ms) =>
        assert forall k :: 0 <= k < |ms| ==> ms[k].typ == refs[k];
        var ms' := seq(|ms|, k requires 0 <= k < |ms| && ms[k].typ < ids.Length reads ids => ms[k].(typ := ids[ms[k].typ]));
        assert ms' == Remap(types, t.body).members;
        r := t.(body := Composite(u, s, ms'));
      case Ptr(x) =>
        assert x == refs[0];
        r := t.(body := Ptr(ids[x]));
      case Ref(k, x) =>
        assert x == refs[0];
        r := t.(body := Ref(k, ids[x]));
      case Array(e, i, n) =>
        assert e == refs[0] && i == refs[1];
        r := t.(body := Array(ids[e], ids[i], n));
      case Fwd(x) =>
        assert x == refs[0];
        r := t.(body := Fwd(ids[x]));
      case FuncProto(x, ps) =>
        assert x == refs[0] && forall k :: 0 <= k < |ps| ==> ps[k] == refs[k + 1];
        var ps' := seq(|ps|, k requires 0 <= k < |ps| && ps[k] < ids.Length reads ids => ids[ps[k]]);
        assert ps' == Remap(types, t.body).params;
        r := t.(body := FuncProto(ids[x], ps'));
      case Other(rs) =>
        var rs' := seq(|rs|, k requires 0 <= k < |rs| && rs[k] < ids.Length reads ids => ids[rs[k]]);
        assert rs' == Remap(types, t.body).refs;
        r := t.(body := Other(rs'));
      case _ =>
        r := t;
    }
  }

  /** After the first pass over the types below n: void and the trimmed types, in order. */
  ghost predicate Collected(src: seq<BtfType>, m: MarkSet, btf: seq<BtfType>, n: nat)
    requires n <= |src|
  {
    && |btf| == Count(m.types, n) + 1 && btf[0] == VOID
    && forall i {:trigger NewId(m.types, i)} :: i in m.types && 0 < i < n ==>
         NewId(m.types, i) < |btf| && btf[NewId(m.types, i)] == Trimmed(src, m, i)
  }

  lemma CollectedStep(src: seq<BtfType>, m: MarkSet, btf: seq<BtfType>, n: nat, now: seq<BtfType>)
    requires 0 < n < |src| && Collected(src, m, btf, n)
    requires now == if n in m.types then btf + [Trimmed(src, m, n)] else btf
    ensures Collected(src, m, now, n + 1)
  {
  }

  /** The first pass: append every marked type and record its new id. */
  method Collect(info: BtfgenInfo, ids: array<nat>) returns (r: Option<seq<BtfType>>)
    requires info.Valid() && ids.Length == |info.src|
    requires forall j :: 0 <= j < ids.Length ==> ids[j] == 0
    requires forall i :: i in info.marks.types ==> 0 < i < |info.src|
    modifies ids
    ensures r.Some? <==> AllFieldsOk(info.src, info.marks, |info.src|)
    ensures r.Some? ==> Collected(info.src, info.marks, r.value, |info.src|)
    ensures r.Some? ==> forall j :: 0 <= j < ids.Length ==> ids[j] == NewId(info.marks.types, j)
  {
    ghost var src, m := info.src, info.marks;
    var btfNew := [VOID];
    var i := 1;
    while i < |info.src|
      invariant 1 <= i <= |info.src|
      invariant Collected(src, m, btfNew, i)
      invariant AllFieldsOk(src, m, i)
      invariant forall j :: 0 <= j < i ==> ids[j] == NewId(m.types, j)
      invariant forall j :: i <= j < ids.Length ==> ids[j] == 0
    {
      assert TypeMarked(info.marked, i) <==> i in m.types;
      ghost var before := btfNew;
      if info.marked[i].name == Marked {
        var t := info.src[i];
        if t.body.Composite? {
          var trimmed := AddMembers(info, i);
          if trimmed.None? {
            return None;
          }
          btfNew := btfNew + [trimmed.value];
        } else {
          btfNew := btfNew + [t];
        }
        ids[i] := |btfNew| - 1;
      }
      CollectedStep(src, m, before, i, btfNew);
      i := i + 1;
    }
    return Some(btfNew);
  }

  /** btfgen_get_btf. It fails exactly when btf__add_field rejects a marked member. */
  method GetBtf(info: BtfgenInfo) returns (r: Option<seq<BtfType>>)
    requires info.Valid() && forall i :: i in info.marks.types ==> 0 < i < |info.src|
    ensures r.Some? <==> AllFieldsOk(info.src, info.marks, |info.src|)
    ensures r.Some? ==> Emitted(info.src, info.marks, r.value)
  {
    var ids := new nat[|info.src|](_ => 0);
    var collected := Collect(info, ids);
    if collected.None? {
      return None;
    }
    var trimmed, btfNew := collected.value, collected.value;
    var i := 1;
    while i < |btfNew|
      invariant 1 <= i <= |btfNew| == |trimmed| && btfNew[0] == VOID
      invariant forall j :: 1 <= j < i ==> btfNew[j] == trimmed[j].(body := Remap(info.marks.types, trimmed[j].body))
      invariant forall j :: i <= j < |btfNew| ==> btfNew[j] == trimmed[j]
      modifies {}
    {
      RefsInRange(info.src, info.marks, trimmed, i);
      var t := RemapIds(ids, btfNew[i], info.marks.types);
      btfNew := btfNew[i := t];
      i := i + 1;
    }
    forall k | k in info.marks.types && 0 < k < |info.src|
      ensures NewId(info.marks.types, k) < |btfNew|
      ensures btfNew[NewId(info.marks.types, k)] == Image(info.src, info.marks, k)
    {
      assert trimmed[NewId(info.marks.types, k)] == Trimmed(info.src, info.marks, k);
    }
    return Some(btfNew);
  }

  lemma RefsInRange(src: seq<BtfType>, m: MarkSet, btf: seq<BtfType>, j: nat)
    requires ValidBtf(src) && Collected(src, m, btf, |src|) && 0 < j < |btf|
    ensures forall x :: x in Refs(btf[j].body) ==> x < |src|
  {
    var i := NewIdOnto(m.types, |src|, j);
    assert btf[j] == Trimmed(src, m, i);
    forall x | x in Refs(btf[j].body)
      ensures x < |src|
    {
      TrimmedRefs(src, m, i, x);
    }
  }

  lemma TrimmedRefs(src: seq<BtfType>, m: MarkSet, i: nat, x: nat)
    requires ValidBtf(src) && i < |src| && x in Refs(Trimmed(src, m, i).body)
    ensures x in Refs(src[i].body) && x < |src|
  {
    if src[i].body.Composite? {
      var ms := src[i].body.members;
      var j :| 0 <= j < |Kept(ms, m, i, |ms|)| && Kept(ms, m, i, |ms|)[j].typ == x;
      var k := KeptOnly(ms, m, i, |ms|, j);
      assert Refs(src[i].body)[k] == x;
    }
  }

  // ----- what the output preserves -----

  lemma KeptRef(src: seq<BtfType>, m: MarkSet, i: nat, j: nat)
    requires ValidBtf(src) && Closed(src, m) && i in m.types && src[i].body.Composite?
    requires j < |Trimmed(src, m, i).body.members|
    ensures var x := Trimmed(src, m, i).body.members[j].typ; x < |src| && (x == 0 || x in m.types)
  {
    var ms := src[i].body.members;
    var k := KeptOnly(ms, m, i, |ms|, j);
    assert MemberOk(src, m, i, k);
    assert Refs(src[i].body)[k] in Refs(src[i].body);
  }

  lemma NewIdInRange(src: seq<BtfType>, m: MarkSet, out: seq<BtfType>, x: nat)
    requires Emitted(src, m, out) && Closed(src, m) && x < |src|
    ensures NewId(m.types, x) < |out|
    ensures x in m.types ==> NewId(m.types, x) != 0
  {
    if x in m.types {
      CountMonotone(m.types, x + 1, |src|);
    }
  }

  /** Every reference of an emitted type is the renumbered source reference and in range. */
  lemma EmittedRefs(src: seq<BtfType>, m: MarkSet, out: seq<BtfType>, i: nat, k: nat)
    requires ValidBtf(src) && Closed(src, m) && Emitted(src, m, out) && i in m.types
    requires k < |Refs(Trimmed(src, m, i).body)|
    ensures NewId(m.types, i) < |out| && |Refs(out[NewId(m.types, i)].body)| == |Refs(Trimmed(src, m, i).body)|
    ensures var x, y := Refs(Trimmed(src, m, i).body)[k], Refs(out[NewId(m.types, i)].body)[k];
      && x < |src| && y == NewId(m.types, x) && y < |out|
      // it becomes 0 only for void or for a pointer to an unmarked type
      && (y == 0 <==> x == 0 || (src[i].body.Ptr? && x !in m.types))
  {
    assert Image(src, m, i) == out[NewId(m.types, i)];
    var b := Trimmed(src, m, i).body;
    var x := Refs(b)[k];
    assert x in Refs(b);
    TrimmedRefs(src, m, i, x);
    NewIdInRange(src, m, out, x);
    if b.Composite? {
      KeptRef(src, m, i, k);
      assert Remap(m.types, b).members[k] == b.members[k].(typ := NewId(m.types, x));
    } else {
      if !b.Ptr? {
        assert x in Needs(src[i].body);
      }
      assert Refs(Remap(m.types, b))[k] == NewId(m.types, x);
    }
  }

  /** The output is a valid BTF. */
  lemma EmittedValid(src: seq<BtfType>, m: MarkSet, out: seq<BtfType>)
    requires ValidBtf(src) && Closed(src, m) && Emitted(src, m, out)
    ensures ValidBtf(out)
  {
    forall j | 0 < j < |out|
      ensures out[j].body != Void && forall r :: r in Refs(out[j].body) ==> r < |out|
    {
      var i := NewIdOnto(m.types, |src|, j);
      assert Image(src, m, i) == out[j];
      forall r | r in Refs(out[j].body)
        ensures r < |out|
      {
        var k :| 0 <= k < |Refs(out[j].body)| && Refs(out[j].body)[k] == r;
        SameRefCount(src, m, i);
        EmittedRefs(src, m, out, i, k);
      }
    }
  }

  /** The members of a composite that are marked. */
  ghost function MarkedBelow(m: MarkSet, i: nat, n: nat): set<nat> { set k: nat | k < n && (i, k) in m.members }

  /** A member's new index is the number of marked members before it. */
  lemma {:induction false} NewIndexCounts(ms: seq<Member>, m: MarkSet, i: nat, n: nat)
    requires n <= |ms|
    ensures NewIndex(ms, m, i, n) == |MarkedBelow(m, i, n)|
  {
    if n == 0 {
      assert MarkedBelow(m, i, 0) == {};
    } else {
      NewIndexCounts(ms, m, i, n - 1);
      var before := MarkedBelow(m, i, n - 1);
      assert MarkedBelow(m, i, n) == if (i, n - 1) in m.members then before + {n - 1} else before;
    }
  }

  /** An emitted type has its source's name, kind and payload, with every reference renumbered. */
  lemma EmittedKind(src: seq<BtfType>, m: MarkSet, out: seq<BtfType>, i: nat)
    requires Emitted(src, m, out) && i in m.types && 0 < i < |src|
    ensures NewId(m.types, i) < |out| && out[NewId(m.types, i)].name == src[i].name
    ensures var b := out[NewId(m.types, i)].body;
      match src[i].body
      case Void => b.Void?
      case Leaf(kind, size) => b.Leaf? && b.kind == kind && b.size == size
      case Composite(isUnion, size, ms) =>
        b.Composite? && b.isUnion == isUnion && b.size == size && |b.members| == |MarkedBelow(m, i, |ms|)|
      case Ptr(t) => b.Ptr? && b.typ == NewId(m.types, t)
      case Ref(kind, t) => b.Ref? && b.ref == kind && b.typ == NewId(m.types, t)
      case Array(e, x, n) =>
        b.Array? && b.nelems == n && b.elem == NewId(m.types, e) && b.index == NewId(m.types, x)
      case Fwd(t) => b.Fwd? && b.typ == NewId(m.types, t)
      case FuncProto(r, ps) =>
        && b.FuncProto? && |b.params| == |ps| && b.ret == NewId(m.types, r)
        && forall k :: 0 <= k < |ps| ==> b.params[k] == NewId(m.types, ps[k])
      case Other(rs) => b.Other? && |b.refs| == |rs| && forall k :: 0 <= k < |rs| ==> b.refs[k] == NewId(m.types, rs[k])
  {
    assert Image(src, m, i) == out[NewId(m.types, i)];
    if src[i].body.Composite? {
      NewIndexCounts(src[i].body.members, m, i, |src[i].body.members|);
    }
  }

  /** A marked member is emitted behind the marked ones before it, with its name, offset and size. */
  lemma EmittedMember(src: seq<BtfType>, m: MarkSet, out: seq<BtfType>, i: nat, k: nat)
    requires Emitted(src, m, out) && i in m.types && 0 < i < |src|
    requires src[i].body.Composite? && k < |src[i].body.members| && (i, k) in m.members
    ensures NewId(m.types, i) < |out| && out[NewId(m.types, i)].body.Composite?
    ensures |MarkedBelow(m, i, k)| < |out[NewId(m.types, i)].body.members|
    ensures var was, now := src[i].body.members[k], out[NewId(m.types, i)].body.members[|MarkedBelow(m, i, k)|];
      && now.name == was.name && now.bitOffset == was.bitOffset && now.bitfieldSize == was.bitfieldSize
      && now.typ == NewId(m.types, was.typ)
  {
    assert Image(src, m, i) == out[NewId(m.types, i)];
    NewIndexCounts(src[i].body.members, m, i, k);
    KeptAt(src[i].body.members, m, i, k, |src[i].body.members|);
  }

  /** Plain fields go at any byte of a struct, bitfields have 1 to 255 bits and start below 2^24, unions start at 0. */
  lemma FieldOkIff(isUnion: bool, bitOffset: nat, bitSize: nat)
    ensures bitSize == 0 && !isUnion ==> (FieldOk(isUnion, bitOffset, bitSize) <==> bitOffset % 8 == 0)
    ensures bitSize > 0 && !isUnion ==>
      (FieldOk(isUnion, bitOffset, bitSize) <==> bitSize < 256 && bitOffset < 0x100_0000)
    ensures isUnion ==> (FieldOk(isUnion, bitOffset, bitSize) <==> bitOffset == 0 && bitSize < 256)
  {
  }

  lemma SameRefCount(src: seq<BtfType>, m: MarkSet, i: nat)
    requires i < |src|
    ensures |Refs(Image(src, m, i).body)| == |Refs(Trimmed(src, m, i).body)|
  {
  }

  /** The whole of btfgen: record every relocation, emit, and every recorded access path still resolves. */
  method Minimise(info: BtfgenInfo, relos: seq<Relo>) returns (r: Option<seq<BtfType>>)
    requires info.Valid() && info.marks == MarkSet({}, {})
    requires forall k :: 0 <= k < |relos| ==> ReloReady(info.src, relos[k])
    modifies info
    ensures info.Valid()
    ensures r.Some? ==> Closed(info.src, info.marks) && Emitted(info.src, info.marks, r.value)
    ensures r.Some? ==> AllPathsMarked(info.src, info.marks, relos)
    ensures r.Some? ==> AllRecordable(info.src, relos) && info.marks == AllMarks(info.src, relos)
    ensures AllRecordable(info.src, relos) && AllFieldsOk(info.src, AllMarks(info.src, relos), |info.src|) ==> r.Some?
  {
    var ok := RecordObj(info, relos);
    if !ok {
      return None;
    }
    r := GetBtf(info);
  }
}
