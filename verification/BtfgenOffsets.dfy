// libbpf/src/relo_core.c, libbpf/src/btf.c: the offsets and sizes behind an access path.
module BtfgenOffsets {
  import opened Prelude
  import opened Btf
  import opened Btfgen
  import opened BtfgenRecord
  import opened BtfgenAccess

  // ----- sizes -----

  /** The size of a type in bytes: pointers have 8, an array as many as its elements together. */
  function Bytes(btf: seq<BtfType>, id: nat, depth: nat): Option<nat>
    requires ValidBtf(btf) && id < |btf|
    decreases depth
  {
    if depth == 0 then None
    else
      match btf[id].body
      case Leaf(_, size) => Some(size)
      case Composite(_, size, _) => Some(size)
      case Ptr(_) => Some(8)
      case Ref(_, t) =>
        assert Refs(btf[id].body)[0] in Refs(btf[id].body);
        Bytes(btf, t, depth - 1)
      case Array(e, _, n) =>
        assert Refs(btf[id].body)[0] in Refs(btf[id].body);
        (match Bytes(btf, e, depth - 1)
         case None => None
         case Some(b) => Some(n * b))
      case _ => None
  }

  lemma TimesTimes(a: nat, b: nat, c: nat)
    ensures a * b * c == a * (b * c)
  {
  }

  /** A product that is checked against 32 bits is the product, and fits. */
  lemma CheckedSizeIs(nelems: nat, size: nat)
    ensures var r := CheckedSize(nelems, size);
      && (r.Some? <==> nelems * size <= 0xffffffff)
      && (r.Some? ==> r.value == nelems * size)
  {
    if nelems != 0 {
      var q := 0xffffffff / nelems;
      assert 0xffffffff == nelems * q + 0xffffffff % nelems;
      if size > q {
        Larger(nelems, q + 1, size);
      } else {
        Larger(nelems, size, q);
      }
    }
  }

  lemma Larger(n: nat, a: nat, b: nat)
    requires a <= b
    ensures n * a <= n * b
  {
  }

  /** A size that is resolved is the number of elements so far times the size of the type, and has 32 bits. */
  lemma {:induction false} ResolvedSize(btf: seq<BtfType>, id: nat, nelems: nat, depth: nat)
    requires ValidBtf(btf) && id < |btf|
    ensures var r := ResolveSize(btf, id, nelems, depth);
      r.Some? ==>
        && Bytes(btf, id, depth).Some? && r.value == nelems * Bytes(btf, id, depth).value
        && r.value <= 0xffffffff
    decreases depth
  {
    if depth > 0 {
      match btf[id].body
      case Leaf(_, size) => CheckedSizeIs(nelems, size);
      case Composite(_, size, _) => CheckedSizeIs(nelems, size);
      case Ptr(_) => CheckedSizeIs(nelems, 8);
      case Ref(_, t) =>
        assert Refs(btf[id].body)[0] in Refs(btf[id].body);
        ResolvedSize(btf, t, nelems, depth - 1);
      case Array(e, _, n) =>
        assert Refs(btf[id].body)[0] in Refs(btf[id].body);
        CheckedSizeIs(nelems, n);
        if nelems * n <= 0xffffffff {
          ResolvedSize(btf, e, nelems * n, depth - 1);
          if b :| Bytes(btf, e, depth - 1) == Some(b) {
            TimesTimes(nelems, n, b);
          }
        }
      case _ =>
    }
  }

  /** Conversely every size that fits is resolved, unless an empty type hides a product that does not. */
  lemma {:induction false} SizeResolves(btf: seq<BtfType>, id: nat, nelems: nat, depth: nat)
    requires ValidBtf(btf) && id < |btf|
    requires var b := Bytes(btf, id, depth); b.Some? && b.value > 0 && nelems * b.value <= 0xffffffff
    ensures ResolveSize(btf, id, nelems, depth).Some?
    decreases depth
  {
    match btf[id].body
    case Leaf(_, size) => CheckedSizeIs(nelems, size);
    case Composite(_, size, _) => CheckedSizeIs(nelems, size);
    case Ptr(_) => CheckedSizeIs(nelems, 8);
    case Ref(_, t) =>
      assert Refs(btf[id].body)[0] in Refs(btf[id].body);
      SizeResolves(btf, t, nelems, depth - 1);
    case Array(e, _, n) =>
      assert Refs(btf[id].body)[0] in Refs(btf[id].body);
      var b := Bytes(btf, e, depth - 1).value;
      TimesTimes(nelems, n, b);
      PositiveFactors(n, b);
      Larger(nelems * n, 1, b);
      CheckedSizeIs(nelems, n);
      SizeResolves(btf, e, nelems * n, depth - 1);
    case _ =>
  }

  lemma PositiveFactors(n: nat, b: nat)
    requires n * b > 0
    ensures n > 0 && b > 0
  {
  }

  /** The size an access multiplies with is the size in bytes of the type without its modifiers. */
  lemma SizeIsBytes(btf: seq<BtfType>, id: nat, depth: nat)
    requires ValidBtf(btf) && id < |btf|
    ensures SizeOf(btf, id, depth).Some? ==>
      && Skip(btf, id, depth).Some?
      && SizeOf(btf, id, depth) == Bytes(btf, Skip(btf, id, depth).value, 32)
  {
    var t := Skip(btf, id, depth);
    if t.Some? {
      ResolvedSize(btf, t.value, 1, 32);
    }
  }

  // ----- array bounds -----

  /** An index is in bounds below the number of elements; one into the last, named member without elements always is. */
  lemma IndexInBounds(btf: seq<BtfType>, id: nat, t: nat, idx: nat, acc: Accessor, depth: nat)
    requires ValidBtf(btf) && id < |btf| && Skip(btf, id, depth) == Some(t) && btf[t].body.Array?
    ensures idx < btf[t].body.nelems ==> StepFits(btf, id, idx, acc, depth)
    ensures btf[t].body.nelems > 0 && idx >= btf[t].body.nelems ==> !StepFits(btf, id, idx, acc, depth)
    ensures btf[t].body.nelems == 0 ==>
      (StepFits(btf, id, idx, acc, depth) <==>
         && acc.named && acc.typ < |btf| && btf[acc.typ].body.Composite?
         && acc.idx == |btf[acc.typ].body.members| - 1)
  {
  }

  // ----- offsets -----

  /** A walk that starts further on ends as much further on. */
  lemma {:induction false} WalkShifts(btf: seq<BtfType>, id: nat, off: nat, d: nat, spec: seq<nat>, depth: nat)
    requires ValidBtf(btf) && id < |btf|
    ensures Walk(btf, id, off + d, spec, depth) == Further(Walk(btf, id, off, spec, depth), d)
    decreases |spec|
  {
    if spec != [] && Next(btf, id, spec[0], depth).Some? && Delta(btf, id, spec[0], depth).Some? {
      var n, bits := Next(btf, id, spec[0], depth).value, Delta(btf, id, spec[0], depth).value;
      WalkShifts(btf, n, off + bits, d, spec[1..], depth);
    }
  }

  function Further(r: Option<(nat, nat)>, d: nat): Option<(nat, nat)> {
    match r
    case None => None
    case Some(p) => Some((p.0, p.1 + d))
  }

  /** Root index i lies 8 * i times the size of the root further than root index 0. */
  lemma RootOffset(btf: seq<BtfType>, root: nat, i: nat, rest: seq<nat>, depth: nat, sz: nat)
    requires ValidBtf(btf) && root < |btf| && SizeOf(btf, root, depth) == Some(sz)
    ensures Access(btf, root, [i] + rest, depth) == Further(Access(btf, root, [0] + rest, depth), 8 * i * sz)
  {
    AccessCons(btf, root, i, rest, depth);
    AccessCons(btf, root, 0, rest, depth);
    EightTimes(i, sz);
    WalkShifts(btf, root, 0, 8 * i * sz, rest, depth);
  }

  lemma EightTimes(i: nat, sz: nat)
    ensures ElemBits(i, sz) == 8 * i * sz && ElemBits(0, sz) == 0
  {
  }

  /** The first root starts at bit 0. */
  lemma RootStart(btf: seq<BtfType>, root: nat, depth: nat)
    requires ValidBtf(btf) && root < |btf| && SizeOf(btf, root, depth).Some?
    ensures Access(btf, root, [0], depth) == Some((root, 0))
  {
    AccessCons(btf, root, 0, [], depth);
    assert [0] + [] == [0];
  }

  /** Element i of an array lies 8 * i times the element size behind the array, and is of the element type. */
  lemma ElementOffset(
      btf: seq<BtfType>, id: nat, t: nat, off: nat, i: nat, rest: seq<nat>, depth: nat, sz: nat)
    requires ValidBtf(btf) && id < |btf| && Skip(btf, id, depth) == Some(t) && btf[t].body.Array?
    requires btf[t].body.elem < |btf| && SizeOf(btf, btf[t].body.elem, depth) == Some(sz)
    ensures Walk(btf, id, off, [i] + rest, depth) == Further(Walk(btf, btf[t].body.elem, off, rest, depth), 8 * i * sz)
  {
    EightTimes(i, sz);
    WalkOn(btf, id, off, i, rest, depth, btf[t].body.elem, 8 * i * sz);
    WalkShifts(btf, btf[t].body.elem, off, 8 * i * sz, rest, depth);
  }

  /** A member lies its bit offset behind its composite, and is of its own type. */
  lemma MemberOffset(btf: seq<BtfType>, id: nat, t: nat, off: nat, k: nat, rest: seq<nat>, depth: nat)
    requires ValidBtf(btf) && id < |btf| && Skip(btf, id, depth) == Some(t) && btf[t].body.Composite?
    requires k < |btf[t].body.members| && btf[t].body.members[k].typ < |btf|
    ensures var mb := btf[t].body.members[k];
      Walk(btf, id, off, [k] + rest, depth) == Further(Walk(btf, mb.typ, off, rest, depth), mb.bitOffset)
  {
    var mb := btf[t].body.members[k];
    WalkOn(btf, id, off, k, rest, depth, mb.typ, mb.bitOffset);
    WalkShifts(btf, mb.typ, off, mb.bitOffset, rest, depth);
  }
}
