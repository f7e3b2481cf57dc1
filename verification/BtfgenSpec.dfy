// libbpf/src/relo_core.c: the match of a whole field relocation, in the source and in the minimised BTF.
module BtfgenSpec {
  import opened Prelude
  import opened Btf
  import opened Btfgen
  import opened BtfgenRecord
  import opened BtfgenEmit
  import opened BtfgenAccess
  import opened BtfgenMatch

  /** The target spec so far: the type it stands on, the last accessor, the raw accessors after the first, the bits. */
  datatype Spec = Spec(typ: nat, last: Accessor, path: seq<nat>, off: int)

  datatype Outcome = NoMatch | Error | At(spec: Spec)

  ghost predicate SpecOk(targ: seq<BtfType>, s: Spec) { s.typ < |targ| && |s.path| < SPEC_MAX_LEN }

  /** The elements an array index leads to, when the target's array admits it. */
  function Element(targ: seq<BtfType>, t: nat, idx: nat, last: Accessor): (e: Option<nat>)
    requires ValidBtf(targ) && t < |targ|
    ensures e.Some? ==> targ[t].body.Array? && e.value == targ[t].body.elem && e.value < |targ|
  {
    if targ[t].body.Array? && (idx < targ[t].body.nelems || IsFlexArr(targ, last, targ[t].body.nelems)) then
      assert Refs(targ[t].body)[0] in Refs(targ[t].body);
      Some(targ[t].body.elem)
    else None
  }

  /** The spec with an array index behind n accessors: it stands on the element type without its modifiers. */
  function Indexed(targ: seq<BtfType>, e: nat, idx: nat, n: nat, depth: nat): (r: Option<(nat, nat)>)
    requires ValidBtf(targ) && e < |targ|
    ensures r.Some? ==> r.value.0 < |targ| && n < SPEC_MAX_LEN && Skip(targ, e, depth) == Some(r.value.0)
  {
    match Skip(targ, e, depth)
    case None => None
    case Some(t) =>
      if n >= SPEC_MAX_LEN then None
      else
        match ResolveSize(targ, t, 1, MAX_RESOLVE_DEPTH)
        case None => None
        case Some(sz) => Some((t, ElemBits(idx, sz)))
  }

  /** One turn of the loop: a named field is searched, an array index checked. */
  function Step(loc: seq<BtfType>, acc: LocalAcc, targ: seq<BtfType>, s: Spec, depth: nat): (r: Outcome)
    requires ValidBtf(loc) && AccOk(loc, acc) && ValidBtf(targ) && SpecOk(targ, s)
    ensures r.At? ==> SpecOk(targ, r.spec)
  {
    match Skip(targ, s.typ, depth)
    case None => Error
    case Some(t) =>
      match acc
      case Field(_, _) =>
        (match MatchMember(loc, acc, targ, t, |s.path| + 1, depth)
         case Missing(_, _) => NoMatch
         case Failed => Error
         case Hit(path, off, owner, idx, next) =>
           At(Spec(next, Accessor(true, owner, idx), s.path + path, s.off + off)))
      case Elem(idx) =>
        match Element(targ, t, idx, s.last)
        case None => NoMatch
        case Some(e) =>
          match Indexed(targ, e, idx, |s.path| + 1, depth)
          case None => Error
          case Some(p) => At(Spec(p.0, Accessor(false, p.0, idx), s.path + [idx], s.off + p.1))
  }

  /** bpf_core_spec_match for a field relocation (libbpf/src/relo_core.c:557-676): its loop after k more accessors. */
  function SpecMatch(local: Local, targ: seq<BtfType>, root: nat, k: nat, depth: nat): (r: Outcome)
    requires LocalOk(local) && ValidBtf(targ) && root < |targ| && k <= |local.rest|
    ensures r.At? ==> SpecOk(targ, r.spec)
  {
    if k == 0 then
      match Indexed(targ, root, local.first, 0, depth)
      case None => Error
      case Some(p) => At(Spec(p.0, Accessor(false, p.0, local.first), [], p.1))
    else
      match SpecMatch(local, targ, root, k - 1, depth)
      case At(s) => Step(local.btf, local.rest[k - 1], targ, s, depth)
      case r => r
  }

  /** The search for a field of the local spec is tidy. */
  ghost predicate TidyStep(loc: seq<BtfType>, acc: LocalAcc, targ: seq<BtfType>, s: Spec, depth: nat)
    requires ValidBtf(loc) && AccOk(loc, acc) && ValidBtf(targ) && SpecOk(targ, s)
  {
    acc.Field? ==>
      match Skip(targ, s.typ, depth)
      case None => true
      case Some(t) => Tidy(loc, acc, targ, t, |s.path| + 1, depth)
  }

  ghost predicate TidyAt(local: Local, targ: seq<BtfType>, root: nat, k: nat, depth: nat)
    requires LocalOk(local) && ValidBtf(targ) && root < |targ| && k < |local.rest|
  {
    match SpecMatch(local, targ, root, k, depth)
    case At(s) => TidyStep(local.btf, local.rest[k], targ, s, depth)
    case _ => true
  }

  // ----- paths -----

  /** A path may start at a type or at what is left of it without modifiers. */
  lemma SkippedPath(src: seq<BtfType>, m: MarkSet, id: nat, t: nat, path: seq<nat>)
    requires ValidBtf(src) && Closed(src, m) && id < |src| && t < |src| && Kept0(m, t)
    requires Skip(src, id, Depth(src)) == Skip(src, t, Depth(src))
    ensures PathMarked(src, m, id, path) ==> PathMarked(src, m, t, path)
    ensures Renumber(src, m, id, path, Depth(src)) == Renumber(src, m, t, path, Depth(src))
  {
  }

  /** A path in two parts. */
  ghost predicate InParts(src: seq<BtfType>, m: MarkSet, id: nat, p: seq<nat>, q: seq<nat>, n: nat)
    requires ValidBtf(src) && id < |src| && n < |src|
  {
    && (PathMarked(src, m, id, p + q) ==> PathMarked(src, m, id, p) && PathMarked(src, m, n, q))
    && Renumber(src, m, id, p + q, Depth(src)) ==
         Renumber(src, m, id, p, Depth(src)) + Renumber(src, m, n, q, Depth(src))
    && Lands(src, id, p + q, Depth(src)) == Lands(src, n, q, Depth(src))
  }

  lemma {:induction false} PathSplit(src: seq<BtfType>, m: MarkSet, id: nat, p: seq<nat>, q: seq<nat>, n: nat)
    requires ValidBtf(src) && id < |src| && Lands(src, id, p, Depth(src)) == Some(n)
    ensures InParts(src, m, id, p, q, n)
    decreases |p|
  {
    if p == [] {
      NoPath(src, m, id, q);
    } else {
      var e := Next(src, id, p[0], Depth(src)).value;
      PathSplit(src, m, e, p[1..], q, n);
      SplitCons(src, m, id, p[0], p[1..], q, n, e);
      assert [p[0]] + p[1..] == p;
    }
  }

  lemma NoPath(src: seq<BtfType>, m: MarkSet, id: nat, q: seq<nat>)
    requires ValidBtf(src) && id < |src|
    ensures InParts(src, m, id, [], q, id)
  {
    assert [] + q == q;
  }

  lemma SplitCons(src: seq<BtfType>, m: MarkSet, id: nat, idx: nat, p: seq<nat>, q: seq<nat>, n: nat, e: nat)
    requires ValidBtf(src) && id < |src| && n < |src| && Next(src, id, idx, Depth(src)) == Some(e)
    requires InParts(src, m, e, p, q, n)
    ensures InParts(src, m, id, [idx] + p, q, n)
  {
    Assoc([idx], p, q);
    Assoc([NewAccessor(src, m, id, idx, Depth(src))], Renumber(src, m, e, p, Depth(src)),
          Renumber(src, m, n, q, Depth(src)));
    PathCons(src, m, id, idx, p, e);
    PathCons(src, m, id, idx, p + q, e);
  }

  lemma Assoc(a: seq<nat>, b: seq<nat>, c: seq<nat>)
    ensures (a + b) + c == a + (b + c)
  {
  }

  lemma PathCons(src: seq<BtfType>, m: MarkSet, id: nat, idx: nat, rest: seq<nat>, e: nat)
    requires ValidBtf(src) && id < |src| && Next(src, id, idx, Depth(src)) == Some(e)
    ensures PathMarked(src, m, id, [idx] + rest) <==> PathMarked(src, m, id, [idx]) && PathMarked(src, m, e, rest)
    ensures Renumber(src, m, id, [idx] + rest, Depth(src)) ==
      [NewAccessor(src, m, id, idx, Depth(src))] + Renumber(src, m, e, rest, Depth(src))
    ensures Lands(src, id, [idx] + rest, Depth(src)) == Lands(src, e, rest, Depth(src))
  {
    assert ([idx] + rest)[1..] == rest && [idx][1..] == [];
  }

  lemma {:induction false} RenumberLength(src: seq<BtfType>, m: MarkSet, id: nat, path: seq<nat>)
    requires ValidBtf(src) && id < |src|
    ensures |Renumber(src, m, id, path, Depth(src))| == |path|
    decreases |path|
  {
    if path != [] && Next(src, id, path[0], Depth(src)).Some? {
      RenumberLength(src, m, Next(src, id, path[0], Depth(src)).value, path[1..]);
    }
  }

  /** The path leads to where the spec stands. */
  ghost predicate OnSpec(src: seq<BtfType>, root: nat, s: Spec)
    requires ValidBtf(src) && root < |src|
  {
    s.typ < |src| &&
    match Lands(src, root, s.path, Depth(src))
    case None => false
    case Some(e) => Skip(src, e, Depth(src)) == Skip(src, s.typ, Depth(src))
  }

  // ----- the match in the output -----

  lemma IndexedImage(src: seq<BtfType>, m: MarkSet, out: seq<BtfType>, e: nat, idx: nat, n: nat)
    requires Minimised(src, m, out) && Kept0(m, e)
    ensures e < |src| && NewId(m.types, e) < |out|
    ensures var p := Indexed(src, e, idx, n, Depth(src));
      p.Some? ==>
        && Kept0(m, p.value.0)
        && Indexed(out, NewId(m.types, e), idx, n, Depth(src)) == Some((NewId(m.types, p.value.0), p.value.1))
  {
    SkipImage(src, m, out, e, Depth(src));
    var t := Skip(src, e, Depth(src));
    if t.Some? {
      SizeImage(src, m, out, t.value, 1, MAX_RESOLVE_DEPTH);
    }
  }

  lemma ElementKept(src: seq<BtfType>, m: MarkSet, out: seq<BtfType>, t: nat, idx: nat, a: Accessor, b: Accessor)
    requires Minimised(src, m, out) && Kept0(m, t) && t < |src| && SameAccessor(src, m, a, b)
    ensures NewId(m.types, t) < |out|
    ensures var e := Element(src, t, idx, a);
      e.Some? ==> Kept0(m, e.value) && Element(out, NewId(m.types, t), idx, b) == Some(NewId(m.types, e.value))
  {
    ElementImage(src, m, out, t);
    if src[t].body.Array? && IsFlexArr(src, a, src[t].body.nelems) {
      FlexImage(src, m, out, a, b, src[t].body.nelems);
    }
  }

  /** Two specs that correspond: the second one is the image of the first. */
  ghost predicate SameSpec(src: seq<BtfType>, m: MarkSet, root: nat, s: Spec, s': Spec)
    requires ValidBtf(src) && root < |src|
  {
    && OnSpec(src, root, s) && Kept0(m, s.typ) && SameAccessor(src, m, s.last, s'.last)
    && s'.typ == NewId(m.types, s.typ) && s'.path == Renumber(src, m, root, s.path, Depth(src)) && s'.off == s.off
  }

  /** A step of both specs along `path`. */
  lemma StepPath(src: seq<BtfType>, m: MarkSet, root: nat, s: Spec, t: nat, path: seq<nat>, e: nat)
    requires ValidBtf(src) && Closed(src, m) && root < |src| && OnSpec(src, root, s)
    requires t < |src| && Kept0(m, t) && Skip(src, s.typ, Depth(src)) == Some(t)
    requires Lands(src, t, path, Depth(src)) == Some(e) && path != []
    ensures PathMarked(src, m, root, s.path + path) ==> PathMarked(src, m, root, s.path) && PathMarked(src, m, t, path)
    ensures Renumber(src, m, root, s.path + path, Depth(src)) ==
      Renumber(src, m, root, s.path, Depth(src)) + Renumber(src, m, t, path, Depth(src))
    ensures Lands(src, root, s.path + path, Depth(src)) == Some(e)
  {
    var n := Lands(src, root, s.path, Depth(src)).value;
    PathSplit(src, m, root, s.path, path, n);
    SkippedPath(src, m, n, t, path);
  }

  /** The spec after a hit. */
  function Extended(s: Spec, h: Search): Spec
    requires h.Hit?
  {
    Spec(h.next, Accessor(true, h.owner, h.idx), s.path + h.path, s.off + h.off)
  }

  /** Two hits below type t that correspond. */
  ghost predicate FoundBoth(src: seq<BtfType>, m: MarkSet, t: nat, h: Search, h': Search)
    requires ValidBtf(src) && t < |src|
  {
    && h.Hit? && h.path != [] && h.next < |src| && Lands(src, t, h.path, Depth(src)) == Some(h.next)
    && h'.Hit? && h'.path == Renumber(src, m, t, h.path, Depth(src)) && h'.off == h.off
    && h'.next == NewId(m.types, h.next)
    && SameAccessor(src, m, Accessor(true, h.owner, h.idx), Accessor(true, h'.owner, h'.idx))
  }

  /** The output's search hits the image of a recorded hit. */
  lemma FieldFound(
      src: seq<BtfType>, m: MarkSet, out: seq<BtfType>, loc: seq<BtfType>, want: LocalAcc, t: nat, n: nat, h: Search,
      h': Search)
    requires Minimised(src, m, out) && ValidBtf(loc) && Wanted(loc, want) && n <= SPEC_MAX_LEN
    requires t < |src| && Kept0(m, t) && NewId(m.types, t) < |out| && Tidy(loc, want, src, t, n, Depth(src))
    requires h == MatchMember(loc, want, src, t, n, Depth(src)) && h.Hit? && PathMarked(src, m, t, h.path)
    requires h' == MatchMember(loc, want, out, NewId(m.types, t), n, Depth(src))
    ensures FoundBoth(src, m, t, h, h')
  {
    HitLands(loc, want, src, t, n, Depth(src));
    MemberImage(src, m, out, loc, want, t, n);
  }

  /** Corresponding hits extend corresponding specs. */
  lemma FieldImage(src: seq<BtfType>, m: MarkSet, root: nat, s: Spec, s': Spec, t: nat, h: Search, h': Search)
    requires ValidBtf(src) && Closed(src, m) && root < |src| && SameSpec(src, m, root, s, s')
    requires t < |src| && Kept0(m, t) && Skip(src, s.typ, Depth(src)) == Some(t) && FoundBoth(src, m, t, h, h')
    requires PathMarked(src, m, root, s.path + h.path)
    ensures SameSpec(src, m, root, Extended(s, h), Extended(s', h'))
  {
    StepPath(src, m, root, s, t, h.path, h.next);
    PathEnds(src, m, root, s.path + h.path, h.next);
  }

  /** The type a recorded path leads to survives. */
  lemma {:induction false} PathEnds(src: seq<BtfType>, m: MarkSet, id: nat, path: seq<nat>, n: nat)
    requires ValidBtf(src) && id < |src| && PathMarked(src, m, id, path) && Lands(src, id, path, Depth(src)) == Some(n)
    ensures Kept0(m, n)
    decreases |path|
  {
    if path != [] {
      PathEnds(src, m, Next(src, id, path[0], Depth(src)).value, path[1..], n);
    }
  }

  /** So has one at an array index. */
  lemma ElemImage(
      src: seq<BtfType>, m: MarkSet, out: seq<BtfType>, idx: nat, root: nat, s: Spec, s': Spec, t: nat, e: nat,
      p: (nat, nat))
    requires Minimised(src, m, out) && root < |src| && SameSpec(src, m, root, s, s') && |s.path| < SPEC_MAX_LEN
    requires Skip(src, s.typ, Depth(src)) == Some(t) && Kept0(m, t)
    requires Element(src, t, idx, s.last) == Some(e) && Indexed(src, e, idx, |s.path| + 1, Depth(src)) == Some(p)
    ensures NewId(m.types, t) < |out| && NewId(m.types, e) < |out|
    ensures Element(out, NewId(m.types, t), idx, s'.last) == Some(NewId(m.types, e))
    ensures Indexed(out, NewId(m.types, e), idx, |s.path| + 1, Depth(src)) == Some((NewId(m.types, p.0), p.1))
    ensures SameSpec(src, m, root, Spec(p.0, Accessor(false, p.0, idx), s.path + [idx], s.off + p.1),
                     Spec(NewId(m.types, p.0), Accessor(false, NewId(m.types, p.0), idx), s'.path + [idx], s'.off + p.1))
  {
    ElementKept(src, m, out, t, idx, s.last, s'.last);
    IndexedImage(src, m, out, e, idx, |s.path| + 1);
    IndexPath(src, m, t, idx);
    StepPath(src, m, root, s, t, [idx], e);
  }

  lemma IndexPath(src: seq<BtfType>, m: MarkSet, t: nat, idx: nat)
    requires ValidBtf(src) && t < |src| && Skip(src, t, Depth(src)) == Some(t) && src[t].body.Array?
    ensures src[t].body.elem < |src|
    ensures Lands(src, t, [idx], Depth(src)) == Some(src[t].body.elem)
    ensures Renumber(src, m, t, [idx], Depth(src)) == [idx]
  {
    assert Refs(src[t].body)[0] in Refs(src[t].body);
    assert [idx][1..] == [];
  }

  lemma FieldStep(
      src: seq<BtfType>, m: MarkSet, out: seq<BtfType>, loc: seq<BtfType>, acc: LocalAcc, root: nat, s: Spec, s': Spec,
      t: nat)
    requires Minimised(src, m, out) && root < |src| && SpecOk(src, s) && SpecOk(out, s') && SameSpec(src, m, root, s, s')
    requires ValidBtf(loc) && Wanted(loc, acc) && TidyStep(loc, acc, src, s, Depth(src)) && |s'.path| == |s.path|
    requires Skip(src, s.typ, Depth(src)) == Some(t) && Kept0(m, t) && NewId(m.types, t) < |out|
    requires Skip(out, s'.typ, Depth(src)) == Some(NewId(m.types, t))
    requires var r := Step(loc, acc, src, s, Depth(src)); r.At? && PathMarked(src, m, root, r.spec.path)
    ensures var r, r' := Step(loc, acc, src, s, Depth(src)), Step(loc, acc, out, s', Depth(src));
      r'.At? && SameSpec(src, m, root, r.spec, r'.spec)
  {
    var n := |s.path| + 1;
    var h := MatchMember(loc, acc, src, t, n, Depth(src));
    var h' := MatchMember(loc, acc, out, NewId(m.types, t), n, Depth(src));
    HitLands(loc, acc, src, t, n, Depth(src));
    StepPath(src, m, root, s, t, h.path, h.next);
    FieldFound(src, m, out, loc, acc, t, n, h, h');
    FieldImage(src, m, root, s, s', t, h, h');
  }

  /** One step of the match, whatever it is. */
  lemma StepImage(
      src: seq<BtfType>, m: MarkSet, out: seq<BtfType>, loc: seq<BtfType>, acc: LocalAcc, root: nat, s: Spec, s': Spec)
    requires Minimised(src, m, out) && root < |src| && SpecOk(src, s) && SpecOk(out, s') && SameSpec(src, m, root, s, s')
    requires ValidBtf(loc) && AccOk(loc, acc) && TidyStep(loc, acc, src, s, Depth(src))
    requires var r := Step(loc, acc, src, s, Depth(src)); r.At? && PathMarked(src, m, root, r.spec.path)
    ensures var r, r' := Step(loc, acc, src, s, Depth(src)), Step(loc, acc, out, s', Depth(src));
      r'.At? && SameSpec(src, m, root, r.spec, r'.spec)
  {
    SkipImage(src, m, out, s.typ, Depth(src));
    var t := Skip(src, s.typ, Depth(src)).value;
    RenumberLength(src, m, root, s.path);
    if acc.Field? {
      FieldStep(src, m, out, loc, acc, root, s, s', t);
    } else {
      var e := Element(src, t, acc.idx, s.last).value;
      ElemImage(src, m, out, acc.idx, root, s, s', t, e, Indexed(src, e, acc.idx, |s.path| + 1, Depth(src)).value);
    }
  }

  /** A step only adds accessors, so a recorded path was recorded before the step. */
  lemma StepExtends(src: seq<BtfType>, m: MarkSet, loc: seq<BtfType>, acc: LocalAcc, root: nat, s: Spec)
    requires ValidBtf(src) && SpecOk(src, s) && ValidBtf(loc) && AccOk(loc, acc)
    ensures var r := Step(loc, acc, src, s, Depth(src));
      r.At? && PathMarked(src, m, root, r.spec.path) ==> PathMarked(src, m, root, s.path)
  {
    var r := Step(loc, acc, src, s, Depth(src));
    if r.At? && PathMarked(src, m, root, r.spec.path) {
      var q := r.spec.path[|s.path|..];
      assert r.spec.path == s.path + q;
      PathPrefix(src, m, root, s.path, q);
    }
  }

  lemma {:induction false} PathPrefix(src: seq<BtfType>, m: MarkSet, id: nat, p: seq<nat>, q: seq<nat>)
    requires ValidBtf(src) && PathMarked(src, m, id, p + q)
    ensures PathMarked(src, m, id, p)
    decreases |p|
  {
    if p != [] {
      assert (p + q)[0] == p[0] && (p + q)[1..] == p[1..] + q;
      match src[Skip(src, id, Depth(src)).value].body
      case Composite(_, _, ms) => PathPrefix(src, m, ms[p[0]].typ, p[1..], q);
      case Array(e, _, _) => PathPrefix(src, m, e, p[1..], q);
    }
  }

  lemma StartImage(src: seq<BtfType>, m: MarkSet, out: seq<BtfType>, local: Local, root: nat)
    requires Minimised(src, m, out) && LocalOk(local) && root < |src| && PathMarked(src, m, root, [])
    requires NewId(m.types, root) < |out| && SpecMatch(local, src, root, 0, Depth(src)).At?
    ensures var r, r' := SpecMatch(local, src, root, 0, Depth(src)),
                         SpecMatch(local, out, NewId(m.types, root), 0, Depth(src));
      r'.At? && SameSpec(src, m, root, r.spec, r'.spec)
  {
    IndexedImage(src, m, out, root, local.first, 0);
    SkipImage(src, m, out, root, Depth(src));
  }

  /** A recorded match is recorded and tidy one accessor earlier. */
  lemma LoopBefore(src: seq<BtfType>, m: MarkSet, local: Local, root: nat, k: nat)
    requires ValidBtf(src) && LocalOk(local) && root < |src| && 0 < k <= |local.rest|
    requires TidyAt(local, src, root, k - 1, Depth(src))
    requires var r := SpecMatch(local, src, root, k, Depth(src)); r.At? && PathMarked(src, m, root, r.spec.path)
    ensures AccOk(local.btf, local.rest[k - 1])
    ensures var r, s := SpecMatch(local, src, root, k, Depth(src)), SpecMatch(local, src, root, k - 1, Depth(src));
      && s.At? && SpecOk(src, s.spec) && PathMarked(src, m, root, s.spec.path)
      && r == Step(local.btf, local.rest[k - 1], src, s.spec, Depth(src))
      && TidyStep(local.btf, local.rest[k - 1], src, s.spec, Depth(src))
  {
    StepExtends(src, m, local.btf, local.rest[k - 1], root, SpecMatch(local, src, root, k - 1, Depth(src)).spec);
  }

  lemma LoopAfter(local: Local, out: seq<BtfType>, root: nat, k: nat, s: Spec, depth: nat)
    requires ValidBtf(out) && LocalOk(local) && root < |out| && 0 < k <= |local.rest|
    requires SpecMatch(local, out, root, k - 1, depth) == At(s)
    ensures SpecOk(out, s) && AccOk(local.btf, local.rest[k - 1])
    ensures SpecMatch(local, out, root, k, depth) == Step(local.btf, local.rest[k - 1], out, s, depth)
  {
  }

  /** After every number of accessors, as long as the path is recorded. */
  lemma {:induction false} LoopImage(
      src: seq<BtfType>, m: MarkSet, out: seq<BtfType>, local: Local, root: nat, k: nat) returns (s: Spec, s': Spec)
    requires Minimised(src, m, out) && LocalOk(local) && root < |src| && NewId(m.types, root) < |out|
    requires k <= |local.rest| && forall j :: 0 <= j < k ==> TidyAt(local, src, root, j, Depth(src))
    requires var r := SpecMatch(local, src, root, k, Depth(src)); r.At? && PathMarked(src, m, root, r.spec.path)
    ensures SpecMatch(local, src, root, k, Depth(src)) == At(s)
    ensures SpecMatch(local, out, NewId(m.types, root), k, Depth(src)) == At(s')
    ensures SameSpec(src, m, root, s, s')
  {
    if k == 0 {
      StartImage(src, m, out, local, root);
      s := SpecMatch(local, src, root, 0, Depth(src)).spec;
      s' := SpecMatch(local, out, NewId(m.types, root), 0, Depth(src)).spec;
    } else {
      assert TidyAt(local, src, root, k - 1, Depth(src));
      LoopBefore(src, m, local, root, k);
      var was, was' := LoopImage(src, m, out, local, root, k - 1);
      LoopAfter(local, src, root, k, was, Depth(src));
      LoopAfter(local, out, NewId(m.types, root), k, was', Depth(src));
      StepImage(src, m, out, local.btf, local.rest[k - 1], root, was, was');
      s := Step(local.btf, local.rest[k - 1], src, was, Depth(src)).spec;
      s' := Step(local.btf, local.rest[k - 1], out, was', Depth(src)).spec;
    }
  }

  /**
   * A relocation that matches in the source and whose path is recorded matches in the minimised BTF: with the
   * renumbered path, at the same bit offset, and at the image of the type.
   */
  lemma MatchPreserved(src: seq<BtfType>, m: MarkSet, out: seq<BtfType>, local: Local, root: nat)
    requires ValidBtf(src) && Closed(src, m) && Emitted(src, m, out) && LocalOk(local) && root < |src|
    requires forall j :: 0 <= j < |local.rest| ==> TidyAt(local, src, root, j, Depth(src))
    requires var r := SpecMatch(local, src, root, |local.rest|, Depth(src));
      r.At? && PathMarked(src, m, root, r.spec.path)
    ensures ValidBtf(out) && NewId(m.types, root) < |out|
    ensures var r, r' := SpecMatch(local, src, root, |local.rest|, Depth(src)),
                         SpecMatch(local, out, NewId(m.types, root), |local.rest|, Depth(src));
      && r'.At? && r'.spec.path == Renumber(src, m, root, r.spec.path, Depth(src)) && r'.spec.off == r.spec.off
      && r.spec.typ < |src| && r'.spec.typ == NewId(m.types, r.spec.typ)
  {
    EmittedValid(src, m, out);
    SurvivorInRange(src, m, out, root);
    var s, s' := LoopImage(src, m, out, local, root, |local.rest|);
  }

  /** So every field relocation that was recorded matches what it matched when it was recorded. */
  lemma RecordedMatches(
      src: seq<BtfType>, m: MarkSet, out: seq<BtfType>, relos: seq<Relo>, k: nat, local: Local, root: nat)
    requires ValidBtf(src) && Closed(src, m) && Emitted(src, m, out) && LocalOk(local) && root < |src|
    requires forall j :: 0 <= j < |local.rest| ==> TidyAt(local, src, root, j, Depth(src))
    requires AllPathsMarked(src, m, relos) && k < |relos|
    requires var r := SpecMatch(local, src, root, |local.rest|, Depth(src));
      r.At? && relos[k] == FieldRelo(root, [local.first] + r.spec.path)
    ensures ValidBtf(out) && NewId(m.types, root) < |out|
    ensures var r, r' := SpecMatch(local, src, root, |local.rest|, Depth(src)),
                         SpecMatch(local, out, NewId(m.types, root), |local.rest|, Depth(src));
      && r'.At? && r'.spec.path == Renumber(src, m, root, r.spec.path, Depth(src)) && r'.spec.off == r.spec.off
      && r.spec.typ < |src| && r'.spec.typ == NewId(m.types, r.spec.typ)
  {
    var path := SpecMatch(local, src, root, |local.rest|, Depth(src)).spec.path;
    assert Tail(relos[k].spec) == path;
    assert PathMarked(src, m, relos[k].root, Tail(relos[k].spec));
    MatchPreserved(src, m, out, local, root);
  }

  // ----- where a match leads -----

  lemma StepLands(src: seq<BtfType>, loc: seq<BtfType>, acc: LocalAcc, root: nat, s: Spec)
    requires ValidBtf(src) && root < |src| && SpecOk(src, s) && OnSpec(src, root, s)
    requires ValidBtf(loc) && AccOk(loc, acc) && TidyStep(loc, acc, src, s, Depth(src))
    ensures var r := Step(loc, acc, src, s, Depth(src)); r.At? ==> OnSpec(src, root, r.spec)
  {
    var r := Step(loc, acc, src, s, Depth(src));
    if r.At? {
      var e, t := Lands(src, root, s.path, Depth(src)).value, Skip(src, s.typ, Depth(src)).value;
      var q := r.spec.path[|s.path|..];
      assert r.spec.path == s.path + q;
      PathSplit(src, NOTHING, root, s.path, q, e);
      if acc.Field? {
        HitLands(loc, acc, src, t, |s.path| + 1, Depth(src));
      } else {
        IndexPath(src, NOTHING, t, acc.idx);
      }
      SameLands(src, e, t, q);
    }
  }

  lemma SameLands(src: seq<BtfType>, e: nat, t: nat, q: seq<nat>)
    requires ValidBtf(src) && e < |src| && t < |src| && Skip(src, e, Depth(src)) == Some(t) && q != []
    ensures Lands(src, e, q, Depth(src)) == Lands(src, t, q, Depth(src))
  {
  }

  /** When all searches are tidy, the raw accessors of the target spec lead to the type it stands on. */
  lemma {:induction false} MatchLands(src: seq<BtfType>, local: Local, root: nat, k: nat)
    requires ValidBtf(src) && LocalOk(local) && root < |src| && k <= |local.rest|
    requires forall j :: 0 <= j < k ==> TidyAt(local, src, root, j, Depth(src))
    ensures var r := SpecMatch(local, src, root, k, Depth(src)); r.At? ==> OnSpec(src, root, r.spec)
  {
    if k > 0 {
      MatchLands(src, local, root, k - 1);
      assert TidyAt(local, src, root, k - 1, Depth(src));
      var r := SpecMatch(local, src, root, k - 1, Depth(src));
      if r.At? {
        StepLands(src, local.btf, local.rest[k - 1], root, r.spec);
      }
    }
  }

  /**
   * A struct whose anonymous member holds a float x before its own int x, which C does not allow. A search for an
   * int x takes the second one, but leaves the first one's index in the raw accessors.
   */
  const INT: BtfType := BtfType(Off("int"), Leaf(Int(0), 4))
  const STRAY: seq<BtfType> := [
    VOID, INT, BtfType(Off("float"), Leaf(Float, 4)),
    BtfType(Off(""), Composite(false, 4, [Member(Off("x"), 2, 0, 0)])),
    BtfType(Off("s"), Composite(false, 8, [Member(Off(""), 3, 0, 0), Member(Off("x"), 1, 32, 0)]))
  ]
  const WANTS_X: Local := Local([VOID, INT], 0, [Field("x", 1)])

  lemma StrayValid()
    ensures ValidBtf(STRAY) && LocalOk(WANTS_X)
  {
    forall i, r | 0 <= i < |STRAY| && r in Refs(STRAY[i].body)
      ensures r < |STRAY|
    {
      assert i == 3 || i == 4;
    }
    assert AccOk(WANTS_X.btf, WANTS_X.rest[0]);
  }

  /** Below the anonymous member the search stops at the float, and keeps its index. */
  lemma StrayBelow(depth: nat)
    requires ValidBtf(STRAY) && LocalOk(WANTS_X) && Wanted(WANTS_X.btf, WANTS_X.rest[0])
    ensures MatchMember(WANTS_X.btf, WANTS_X.rest[0], STRAY, 3, 2, depth) == Missing([0], 0)
  {
    assert FieldsCompat(WANTS_X.btf, 1, STRAY, 2, depth, depth) == No;
  }

  lemma StrayLoop(depth: nat)
    requires ValidBtf(STRAY) && LocalOk(WANTS_X) && Wanted(WANTS_X.btf, WANTS_X.rest[0])
    ensures MatchMember(WANTS_X.btf, WANTS_X.rest[0], STRAY, 4, 1, depth) == Hit([0, 1], 32, 4, 1, 1)
  {
    var loc, want := WANTS_X.btf, WANTS_X.rest[0];
    StrayBelow(depth);
    assert FieldsCompat(loc, 1, STRAY, 1, depth, depth) == Yes;
    assert MatchFrom(loc, want, STRAY, 4, 1, [0], 0, 1, depth) == Hit([0, 1], 32, 4, 1, 1);
    assert ([] + [0] + [0])[..1] == [0];
  }

  /** Then the recorded path leads nowhere. */
  lemma StrayPath(depth: nat)
    ensures ValidBtf(STRAY) && LocalOk(WANTS_X)
    ensures var r := SpecMatch(WANTS_X, STRAY, 4, 1, depth);
      r.At? && r.spec.path == [0, 1] && r.spec.typ == 1 && Lands(STRAY, 4, r.spec.path, depth) == None
  {
    StrayValid();
    assert AccOk(WANTS_X.btf, WANTS_X.rest[0]);
    assert SpecMatch(WANTS_X, STRAY, 4, 0, depth) == At(Spec(4, Accessor(false, 4, 0), [], 0));
    StrayLoop(depth);
    StrayLands(depth);
  }

  lemma StrayLands(depth: nat)
    requires ValidBtf(STRAY)
    ensures Lands(STRAY, 4, [0, 1], depth) == None
  {
    assert Next(STRAY, 4, 0, depth) == Some(3);
    assert Next(STRAY, 3, 1, depth) == None;
    assert [0, 1][1..] == [1];
  }
}
