// libbpf/src/relo_core.c: recorded access paths resolve in the minimised BTF as they did in the source.
module BtfgenAccess {
  import opened Prelude
  import opened Btf
  import opened Btfgen
  import opened BtfgenRecord
  import opened BtfgenEmit

  const PTR_SZ: nat := 8
  const UINT32_MAX: nat := 0xffffffff
  const MAX_RESOLVE_DEPTH: nat := 32

  /** A product of 32-bit counts, or the E2BIG error. */
  function CheckedSize(nelems: nat, size: nat): Option<nat> {
    if nelems != 0 && size > UINT32_MAX / nelems then None else Some(nelems * size)
  }

  /** btf__resolve_size (libbpf/src/btf.c:604-657), from the element count and depth so far. */
  function ResolveSize(btf: seq<BtfType>, id: nat, nelems: nat, depth: nat): Option<nat>
    requires ValidBtf(btf) && id < |btf|
    decreases depth
  {
    if depth == 0 then None
    else
      match btf[id].body
      case Leaf(_, size) => CheckedSize(nelems, size)
      case Composite(_, size, _) => CheckedSize(nelems, size)
      case Ptr(_) => CheckedSize(nelems, PTR_SZ)
      case Ref(_, t) =>
        assert Refs(btf[id].body)[0] in Refs(btf[id].body);
        ResolveSize(btf, t, nelems, depth - 1)
      case Array(e, _, n) =>
        assert Refs(btf[id].body)[0] in Refs(btf[id].body);
        (match CheckedSize(nelems, n)
         case None => None
         case Some(k) => ResolveSize(btf, e, k, depth - 1))
      case _ => None
  }

  /** The size of what is left after skipping modifiers and typedefs. */
  function SizeOf(btf: seq<BtfType>, id: nat, depth: nat): Option<nat>
    requires ValidBtf(btf) && id < |btf|
  {
    match Skip(btf, id, depth)
    case None => None
    case Some(t) => ResolveSize(btf, t, 1, MAX_RESOLVE_DEPTH)
  }

  /** Where one accessor leads: to a member's type or to the element type. */
  function Next(btf: seq<BtfType>, id: nat, idx: nat, depth: nat): (r: Option<nat>)
    requires ValidBtf(btf) && id < |btf|
    ensures r.Some? ==> r.value < |btf|
  {
    match Skip(btf, id, depth)
    case None => None
    case Some(t) =>
      match btf[t].body
      case Composite(_, _, ms) =>
        if idx >= |ms| then None
        else
          assert Refs(btf[t].body)[idx] in Refs(btf[t].body);
          Some(ms[idx].typ)
      case Array(e, _, _) =>
        assert Refs(btf[t].body)[0] in Refs(btf[t].body);
        Some(e)
      case _ => None
  }

  /** The bits one accessor adds: the member's offset, or the index times the element size. */
  function Delta(btf: seq<BtfType>, id: nat, idx: nat, depth: nat): Option<nat>
    requires ValidBtf(btf) && id < |btf|
  {
    match Skip(btf, id, depth)
    case None => None
    case Some(t) =>
      match btf[t].body
      case Composite(_, _, ms) => if idx >= |ms| then None else Some(ms[idx].bitOffset)
      case Array(e, _, _) =>
        assert Refs(btf[t].body)[0] in Refs(btf[t].body);
        (match SizeOf(btf, e, depth)
         case None => None
         case Some(sz) => Some(ElemBits(idx, sz)))
      case _ => None
  }

  /** The bits before element `idx` of elements of `sz` bytes. */
  function ElemBits(idx: nat, sz: nat): nat { idx * sz * 8 }

  /** Walk the accessors from type `id` at bit offset `off`: the type reached and its offset. */
  function Walk(btf: seq<BtfType>, id: nat, off: nat, spec: seq<nat>, depth: nat): Option<(nat, nat)>
    requires ValidBtf(btf) && id < |btf|
    decreases |spec|
  {
    if spec == [] then Some((id, off))
    else
      match Next(btf, id, spec[0], depth)
      case None => None
      case Some(n) =>
        match Delta(btf, id, spec[0], depth)
        case None => None
        case Some(d) => Walk(btf, n, off + d, spec[1..], depth)
  }

  /** A whole relocation: the first accessor indexes an array of root types. */
  function Access(btf: seq<BtfType>, root: nat, spec: seq<nat>, depth: nat): Option<(nat, nat)>
    requires ValidBtf(btf) && root < |btf|
  {
    if spec == [] then None
    else
      match SizeOf(btf, root, depth)
      case None => None
      case Some(sz) => Walk(btf, root, ElemBits(spec[0], sz), spec[1..], depth)
  }

  /** A member index becomes its index among the kept members; an array index stays. */
  ghost function NewAccessor(src: seq<BtfType>, m: MarkSet, id: nat, idx: nat, depth: nat): nat
    requires ValidBtf(src) && id < |src|
  {
    match Skip(src, id, depth)
    case None => idx
    case Some(t) =>
      match src[t].body
      case Composite(_, _, ms) => if idx >= |ms| then idx else NewIndex(ms, m, t, idx)
      case _ => idx
  }

  /** The accessors, renumbered along the walk. */
  ghost function Renumber(src: seq<BtfType>, m: MarkSet, id: nat, spec: seq<nat>, depth: nat): seq<nat>
    requires ValidBtf(src) && id < |src|
    decreases |spec|
  {
    if spec == [] then []
    else
      match Next(src, id, spec[0], depth)
      case None => spec
      case Some(n) => [NewAccessor(src, m, id, spec[0], depth)] + Renumber(src, m, n, spec[1..], depth)
  }

  /** A type that survives: void or marked. */
  ghost predicate Kept0(m: MarkSet, id: nat) { id == 0 || id in m.types }

  ghost predicate Minimised(src: seq<BtfType>, m: MarkSet, out: seq<BtfType>) {
    ValidBtf(src) && Closed(src, m) && Emitted(src, m, out) && ValidBtf(out)
  }

  /** The image of a surviving type has the image's body. */
  lemma ImageAt(src: seq<BtfType>, m: MarkSet, out: seq<BtfType>, id: nat)
    requires Minimised(src, m, out) && Kept0(m, id)
    ensures id < |src| && NewId(m.types, id) < |out|
    ensures out[NewId(m.types, id)].body == Remap(m.types, Trimmed(src, m, id).body)
    ensures NewId(m.types, id) == 0 <==> id == 0
    ensures forall r :: r in Needs(src[id].body) ==> Kept0(m, r) && r < |src|
  {
    if id in m.types {
      assert Image(src, m, id) == out[NewId(m.types, id)];
    } else {
      assert 0 !in m.types;
    }
  }

  lemma {:induction false} SkipImage(src: seq<BtfType>, m: MarkSet, out: seq<BtfType>, id: nat, depth: nat)
    requires Minimised(src, m, out) && Kept0(m, id)
    ensures id < |src| && NewId(m.types, id) < |out|
    ensures match Skip(src, id, depth)
      case None => Skip(out, NewId(m.types, id), depth) == None
      case Some(t) => Kept0(m, t) && Skip(out, NewId(m.types, id), depth) == Some(NewId(m.types, t))
    decreases depth
  {
    ImageAt(src, m, out, id);
    if src[id].body.Ref? && depth > 0 {
      assert src[id].body.typ in Needs(src[id].body);
      SkipImage(src, m, out, src[id].body.typ, depth - 1);
    }
  }

  lemma {:induction false} SizeImage(src: seq<BtfType>, m: MarkSet, out: seq<BtfType>, id: nat, nelems: nat, depth: nat)
    requires Minimised(src, m, out) && Kept0(m, id)
    ensures id < |src| && NewId(m.types, id) < |out|
    ensures ResolveSize(out, NewId(m.types, id), nelems, depth) == ResolveSize(src, id, nelems, depth)
    decreases depth
  {
    ImageAt(src, m, out, id);
    if depth > 0 {
      match src[id].body
      case Ref(_, t) =>
        assert t in Needs(src[id].body);
        SizeImage(src, m, out, t, nelems, depth - 1);
      case Array(e, _, n) =>
        assert Refs(src[id].body)[0] in Needs(src[id].body);
        match CheckedSize(nelems, n) {
          case None =>
          case Some(k) => SizeImage(src, m, out, e, k, depth - 1);
        }
      case _ =>
    }
  }

  lemma SizeOfImage(src: seq<BtfType>, m: MarkSet, out: seq<BtfType>, id: nat, depth: nat)
    requires Minimised(src, m, out) && Kept0(m, id)
    ensures id < |src| && NewId(m.types, id) < |out|
    ensures SizeOf(out, NewId(m.types, id), depth) == SizeOf(src, id, depth)
  {
    SkipImage(src, m, out, id, depth);
    match Skip(src, id, depth)
    case None =>
    case Some(t) => SizeImage(src, m, out, t, 1, MAX_RESOLVE_DEPTH);
  }

  ghost function ImageOf(m: MarkSet, r: Option<(nat, nat)>): Option<(nat, nat)> {
    match r
    case None => None
    case Some(p) => Some((NewId(m.types, p.0), p.1))
  }

  /** One marked accessor, renumbered, leads to the image of the same type and adds the same bits. */
  lemma AccessorImage(src: seq<BtfType>, m: MarkSet, out: seq<BtfType>, id: nat, spec: seq<nat>)
    requires Minimised(src, m, out) && PathMarked(src, m, id, spec) && spec != []
    ensures NewId(m.types, id) < |out|
    ensures Next(src, id, spec[0], Depth(src)).Some?
    ensures PathMarked(src, m, Next(src, id, spec[0], Depth(src)).value, spec[1..])
    ensures Next(out, NewId(m.types, id), NewAccessor(src, m, id, spec[0], Depth(src)), Depth(src))
         == Some(NewId(m.types, Next(src, id, spec[0], Depth(src)).value))
    ensures Delta(out, NewId(m.types, id), NewAccessor(src, m, id, spec[0], Depth(src)), Depth(src))
         == Delta(src, id, spec[0], Depth(src))
  {
    SkipImage(src, m, out, id, Depth(src));
    var t := Skip(src, id, Depth(src)).value;
    ImageAt(src, m, out, t);
    match src[t].body
    case Composite(_, _, ms) =>
      KeptAt(ms, m, t, spec[0], |ms|);
    case Array(e, _, _) =>
      SizeOfImage(src, m, out, e, Depth(src));
    case _ =>
  }

  lemma SurvivorInRange(src: seq<BtfType>, m: MarkSet, out: seq<BtfType>, id: nat)
    requires Minimised(src, m, out) && Kept0(m, id)
    ensures id < |src| && NewId(m.types, id) < |out|
  {
    ImageAt(src, m, out, id);
  }

  lemma WalkOn(btf: seq<BtfType>, id: nat, off: nat, idx: nat, rest: seq<nat>, depth: nat, n: nat, d: nat)
    requires ValidBtf(btf) && id < |btf| && Next(btf, id, idx, depth) == Some(n) && Delta(btf, id, idx, depth) == Some(d)
    ensures Walk(btf, id, off, [idx] + rest, depth) == Walk(btf, n, off + d, rest, depth)
  {
  }

  lemma WalksStop(src: seq<BtfType>, out: seq<BtfType>, id: nat, id': nat, off: nat, idx: nat, idx': nat,
                  rest: seq<nat>, rest': seq<nat>, depth: nat, n: nat, n': nat)
    requires ValidBtf(src) && ValidBtf(out) && id < |src| && id' < |out|
    requires Next(src, id, idx, depth) == Some(n) && Next(out, id', idx', depth) == Some(n')
    requires Delta(src, id, idx, depth) == Delta(out, id', idx', depth) == None
    ensures Walk(out, id', off, [idx'] + rest', depth) == Walk(src, id, off, [idx] + rest, depth) == None
  {
  }

  lemma {:induction false} WalkImage(src: seq<BtfType>, m: MarkSet, out: seq<BtfType>, id: nat, off: nat, spec: seq<nat>)
    requires Minimised(src, m, out) && PathMarked(src, m, id, spec)
    ensures NewId(m.types, id) < |out|
    ensures Walk(out, NewId(m.types, id), off, Renumber(src, m, id, spec, Depth(src)), Depth(src))
         == ImageOf(m, Walk(src, id, off, spec, Depth(src)))
    decreases |spec|
  {
    SurvivorInRange(src, m, out, id);
    if spec != [] {
      var dp := Depth(src);
      AccessorImage(src, m, out, id, spec);
      var n := Next(src, id, spec[0], dp).value;
      var idx, rest := NewAccessor(src, m, id, spec[0], dp), Renumber(src, m, n, spec[1..], dp);
      assert spec == [spec[0]] + spec[1..];
      match Delta(src, id, spec[0], dp)
      case None =>
        WalksStop(src, out, id, NewId(m.types, id), off, spec[0], idx, spec[1..], rest, dp, n, NewId(m.types, n));
      case Some(d) =>
        WalkImage(src, m, out, n, off + d, spec[1..]);
        assert Delta(out, NewId(m.types, id), idx, dp) == Some(d);
        assert Walk(out, NewId(m.types, n), off + d, rest, dp) == ImageOf(m, Walk(src, n, off + d, spec[1..], dp));
        WalkOn(src, id, off, spec[0], spec[1..], dp, n, d);
        WalkOn(out, NewId(m.types, id), off, idx, rest, dp, NewId(m.types, n), d);
    }
  }

  /** Every recorded access path, renumbered, reaches the image of the same type at the same bit offset. */
  lemma AccessPreserved(src: seq<BtfType>, m: MarkSet, out: seq<BtfType>, root: nat, spec: seq<nat>)
    requires ValidBtf(src) && Closed(src, m) && Emitted(src, m, out)
    requires |spec| > 0 && PathMarked(src, m, root, spec[1..])
    ensures ValidBtf(out) && NewId(m.types, root) < |out|
    ensures Access(out, NewId(m.types, root), [spec[0]] + Renumber(src, m, root, spec[1..], Depth(src)), Depth(src))
         == ImageOf(m, Access(src, root, spec, Depth(src)))
  {
    EmittedValid(src, m, out);
    RootAccess(src, m, out, root, spec);
  }

  lemma RootAccess(src: seq<BtfType>, m: MarkSet, out: seq<BtfType>, root: nat, spec: seq<nat>)
    requires Minimised(src, m, out) && |spec| > 0 && PathMarked(src, m, root, spec[1..])
    ensures NewId(m.types, root) < |out|
    ensures Access(out, NewId(m.types, root), [spec[0]] + Renumber(src, m, root, spec[1..], Depth(src)), Depth(src))
         == ImageOf(m, Access(src, root, spec, Depth(src)))
  {
    SizeOfImage(src, m, out, root, Depth(src));
    var rest := Renumber(src, m, root, spec[1..], Depth(src));
    AccessCons(out, NewId(m.types, root), spec[0], rest, Depth(src));
    match SizeOf(src, root, Depth(src))
    case None =>
    case Some(sz) => WalkImage(src, m, out, root, ElemBits(spec[0], sz), spec[1..]);
  }

  lemma AccessCons(btf: seq<BtfType>, root: nat, idx: nat, rest: seq<nat>, depth: nat)
    requires ValidBtf(btf) && root < |btf|
    ensures Access(btf, root, [idx] + rest, depth)
         == match SizeOf(btf, root, depth)
            case None => None
            case Some(sz) => Walk(btf, root, ElemBits(idx, sz), rest, depth)
  {
  }

  // ----- array bounds -----

  /** The last accessor with a record of its own: a named member, or an array index, which has no name. */
  datatype Accessor = Accessor(named: bool, typ: nat, idx: nat)

  /** is_flex_arr (libbpf/src/relo_core.c:71-84): an array without elements that is a struct's last member. */
  predicate IsFlexArr(btf: seq<BtfType>, acc: Accessor, nelems: nat) {
    && acc.named && nelems == 0
    && acc.typ < |btf| && btf[acc.typ].body.Composite? && acc.idx + 1 == |btf[acc.typ].body.members|
  }

  /** The bound on an array index (libbpf/src/relo_core.c:373-375). */
  predicate StepFits(btf: seq<BtfType>, id: nat, idx: nat, acc: Accessor, depth: nat)
    requires ValidBtf(btf) && id < |btf|
  {
    match Skip(btf, id, depth)
    case None => true
    case Some(t) => btf[t].body.Array? ==> idx < btf[t].body.nelems || IsFlexArr(btf, acc, btf[t].body.nelems)
  }

  /** Members without a name leave no record. */
  function StepAccessor(btf: seq<BtfType>, id: nat, idx: nat, acc: Accessor, depth: nat): Accessor
    requires ValidBtf(btf) && id < |btf|
  {
    match Skip(btf, id, depth)
    case None => acc
    case Some(t) =>
      match btf[t].body
      case Composite(_, _, ms) => if idx < |ms| && ms[idx].name != Off("") then Accessor(true, t, idx) else acc
      case Array(e, _, _) => Accessor(false, e, idx)
      case _ => acc
  }

  /** Every array index on the path is within its bound. */
  predicate PathFits(btf: seq<BtfType>, id: nat, spec: seq<nat>, acc: Accessor, depth: nat)
    requires ValidBtf(btf) && id < |btf|
    decreases |spec|
  {
    spec == [] ||
    (StepFits(btf, id, spec[0], acc, depth) &&
     match Next(btf, id, spec[0], depth)
     case None => true
     case Some(n) => PathFits(btf, n, spec[1..], StepAccessor(btf, id, spec[0], acc, depth), depth))
  }

  /** A relocation with its array bounds checked. */
  function CheckedAccess(btf: seq<BtfType>, root: nat, spec: seq<nat>, depth: nat): Option<(nat, nat)>
    requires ValidBtf(btf) && root < |btf|
  {
    if spec != [] && PathFits(btf, root, spec[1..], Accessor(false, root, spec[0]), depth)
    then Access(btf, root, spec, depth) else None
  }

  /** A marked member and its image, or no named member on either side. */
  ghost predicate SameAccessor(src: seq<BtfType>, m: MarkSet, a: Accessor, b: Accessor) {
    && a.named == b.named
    && (a.named ==>
          && MemberOk(src, m, a.typ, a.idx) && (a.typ, a.idx) in m.members
          && b.typ == NewId(m.types, a.typ) && b.idx == NewIndex(src[a.typ].body.members, m, a.typ, a.idx))
  }

  /** The last member of a struct is the last of its image, so flexible arrays stay flexible. */
  lemma FlexImage(src: seq<BtfType>, m: MarkSet, out: seq<BtfType>, a: Accessor, b: Accessor, nelems: nat)
    requires Minimised(src, m, out) && SameAccessor(src, m, a, b) && IsFlexArr(src, a, nelems)
    ensures IsFlexArr(out, b, nelems)
  {
    ImageAt(src, m, out, a.typ);
  }

  /** One accessor of a recorded path: its bound holds in the output too, and the records correspond. */
  lemma StepFitsImage(
      src: seq<BtfType>, m: MarkSet, out: seq<BtfType>, id: nat, spec: seq<nat>, a: Accessor, b: Accessor)
    requires Minimised(src, m, out) && PathMarked(src, m, id, spec) && spec != [] && SameAccessor(src, m, a, b)
    requires id < |src| && StepFits(src, id, spec[0], a, Depth(src))
    ensures NewId(m.types, id) < |out|
    ensures var id', idx := NewId(m.types, id), NewAccessor(src, m, id, spec[0], Depth(src));
      && StepFits(out, id', idx, b, Depth(src))
      && SameAccessor(src, m, StepAccessor(src, id, spec[0], a, Depth(src)), StepAccessor(out, id', idx, b, Depth(src)))
  {
    SkipImage(src, m, out, id, Depth(src));
    var t := Skip(src, id, Depth(src)).value;
    ImageAt(src, m, out, t);
    match src[t].body
    case Composite(_, _, ms) =>
      KeptAt(ms, m, t, spec[0], |ms|);
    case Array(_, _, n) =>
      if IsFlexArr(src, a, n) {
        FlexImage(src, m, out, a, b, n);
      }
    case _ =>
  }

  lemma {:induction false} PathFitsImage(
      src: seq<BtfType>, m: MarkSet, out: seq<BtfType>, id: nat, spec: seq<nat>, a: Accessor, b: Accessor)
    requires Minimised(src, m, out) && PathMarked(src, m, id, spec) && SameAccessor(src, m, a, b)
    requires id < |src| && PathFits(src, id, spec, a, Depth(src))
    ensures NewId(m.types, id) < |out|
    ensures PathFits(out, NewId(m.types, id), Renumber(src, m, id, spec, Depth(src)), b, Depth(src))
    decreases |spec|
  {
    SurvivorInRange(src, m, out, id);
    if spec != [] {
      var dp := Depth(src);
      StepFitsImage(src, m, out, id, spec, a, b);
      AccessorImage(src, m, out, id, spec);
      var n := Next(src, id, spec[0], dp).value;
      var idx := NewAccessor(src, m, id, spec[0], dp);
      var a', b' := StepAccessor(src, id, spec[0], a, dp), StepAccessor(out, NewId(m.types, id), idx, b, dp);
      PathFitsImage(src, m, out, n, spec[1..], a', b');
      PathFitsCons(out, NewId(m.types, id), idx, Renumber(src, m, n, spec[1..], dp), b, dp, NewId(m.types, n));
    }
  }

  lemma PathFitsCons(btf: seq<BtfType>, id: nat, idx: nat, rest: seq<nat>, acc: Accessor, depth: nat, n: nat)
    requires ValidBtf(btf) && id < |btf| && n < |btf| && Next(btf, id, idx, depth) == Some(n)
    ensures PathFits(btf, id, [idx] + rest, acc, depth) <==>
      StepFits(btf, id, idx, acc, depth) && PathFits(btf, n, rest, StepAccessor(btf, id, idx, acc, depth), depth)
  {
  }

  /** With array bounds checked, every recorded access that succeeds in the source succeeds in the output. */
  lemma CheckedAccessPreserved(src: seq<BtfType>, m: MarkSet, out: seq<BtfType>, root: nat, spec: seq<nat>)
    requires ValidBtf(src) && Closed(src, m) && Emitted(src, m, out)
    requires |spec| > 0 && PathMarked(src, m, root, spec[1..])
    ensures ValidBtf(out) && NewId(m.types, root) < |out|
    ensures CheckedAccess(src, root, spec, Depth(src)).Some? ==>
      CheckedAccess(out, NewId(m.types, root), [spec[0]] + Renumber(src, m, root, spec[1..], Depth(src)), Depth(src))
        == ImageOf(m, CheckedAccess(src, root, spec, Depth(src)))
  {
    AccessPreserved(src, m, out, root, spec);
    if CheckedAccess(src, root, spec, Depth(src)).Some? {
      var rest := Renumber(src, m, root, spec[1..], Depth(src));
      var first := Accessor(false, NewId(m.types, root), spec[0]);
      PathFitsImage(src, m, out, root, spec[1..], Accessor(false, root, spec[0]), first);
      assert ([spec[0]] + rest)[1..] == rest;
    }
  }
}
