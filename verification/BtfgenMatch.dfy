// libbpf/src/relo_core.c: a field relocation finds its target by name; it finds the same one in the minimised BTF.
module BtfgenMatch {
  import opened Prelude
  import opened Btf
  import opened Btfgen
  import opened BtfgenRecord
  import opened BtfgenEmit
  import opened BtfgenAccess

  const SPEC_MAX_LEN: nat := 64

  // ----- names -----

  /** bpf_core_is_flavor_sep: X___Y with X and Y no underscores (libbpf/src/libbpf.c:5363-5369). */
  predicate FlavorSep(name: string, i: nat)
    requires i + 5 <= |name|
  {
    name[i] != '_' && name[i + 1] == '_' && name[i + 2] == '_' && name[i + 3] == '_' && name[i + 4] != '_'
  }

  /** The name without its flavor, searched from separator position i - 1 down (libbpf/src/libbpf.c:5375-5385). */
  function EssentialFrom(name: string, i: nat): string
    requires i + 4 <= |name| || i == 0
  {
    if i == 0 then name else if FlavorSep(name, i - 1) then name[..i] else EssentialFrom(name, i - 1)
  }

  function Essential(name: string): string { EssentialFrom(name, if |name| < 5 then 0 else |name| - 4) }

  function Str(name: Name): string { if name.Off? then name.str else "" }

  // ----- compatible fields -----

  datatype Verdict = Yes | No | Bad

  /** One of them is anonymous, or they agree up to the flavor. */
  predicate NamesCompat(a: Name, b: Name) {
    var x, y := Essential(Str(a)), Essential(Str(b));
    x == "" || y == "" || x == y
  }

  /** bpf_core_fields_are_compat (libbpf/src/relo_core.c:412-463); `fuel` bounds the dimensions of arrays. */
  function FieldsCompat(loc: seq<BtfType>, lid: nat, targ: seq<BtfType>, tid: nat, depth: nat, fuel: nat): Verdict
    requires ValidBtf(loc) && lid < |loc| && ValidBtf(targ) && tid < |targ|
    decreases fuel
  {
    match Skip(loc, lid, |loc|)
    case None => Bad
    case Some(l) =>
      match Skip(targ, tid, depth)
      case None => Bad
      case Some(t) =>
        if loc[l].body.Array? && targ[t].body.Array? then
          if fuel == 0 then Bad
          else
            assert Refs(loc[l].body)[0] in Refs(loc[l].body) && Refs(targ[t].body)[0] in Refs(targ[t].body);
            FieldsCompat(loc, loc[l].body.elem, targ, targ[t].body.elem, depth, fuel - 1)
        else if TypesCompat(loc[l], targ[t]) then Yes else No
  }

  /** The kinds the compatibility check decides without going on to another type. */
  predicate TypesCompat(a: BtfType, b: BtfType) {
    match (a.body, b.body)
    case (Composite(_, _, _), Composite(_, _, _)) => true
    case (Ptr(_), Ptr(_)) => true
    case (Fwd(_), Fwd(_)) => NamesCompat(a.name, b.name)
    case (Leaf(k, _), Leaf(j, _)) =>
      (match (k, j)
       case (Int(o), Int(p)) => o == 0 && p == 0
       case (Float, Float) => true
       case _ => (k.Enum? || k.Enum64?) && (j.Enum? || j.Enum64?) && NamesCompat(a.name, b.name))
    case _ => false
  }

  // ----- the search for a member -----

  /** The local side: its BTF, and the accessors after the first index: array indices, or fields by name and type. */
  datatype LocalAcc = Elem(idx: nat) | Field(name: string, typ: nat)

  datatype Local = Local(btf: seq<BtfType>, first: nat, rest: seq<LocalAcc>)

  ghost predicate LocalOk(local: Local) {
    ValidBtf(local.btf) && AccsOk(local.btf, local.rest)
  }

  ghost predicate AccsOk(loc: seq<BtfType>, accs: seq<LocalAcc>) {
    forall k :: 0 <= k < |accs| ==> AccOk(loc, accs[k])
  }

  ghost predicate AccOk(loc: seq<BtfType>, acc: LocalAcc) { acc.Field? ==> acc.typ < |loc| }

  ghost predicate Wanted(loc: seq<BtfType>, want: LocalAcc) { want.Field? && want.typ < |loc| }

  /**
   * A search from one type: found along `path`, `off` bits further, as member `idx` of type `owner`, with type `next`;
   * failed; or without result. Then `path` and `off` are what is left of the speculation on the target spec.
   */
  datatype Search =
    | Missing(path: seq<nat>, off: int)
    | Failed
    | Hit(path: seq<nat>, off: int, owner: nat, idx: nat, next: nat)

  const CLEAN: Search := Missing([], 0)

  /** bpf_core_match_member (libbpf/src/relo_core.c:481-551), with n accessors in the target spec so far. */
  function MatchMember(loc: seq<BtfType>, want: LocalAcc, targ: seq<BtfType>, tid: nat, n: nat, depth: nat): (r: Search)
    requires ValidBtf(loc) && Wanted(loc, want) && ValidBtf(targ) && tid < |targ| && n <= SPEC_MAX_LEN
    ensures r.Missing? ==> n + |r.path| <= SPEC_MAX_LEN
    ensures r.Hit? ==> r.path != [] && r.next < |targ| && n + |r.path| <= SPEC_MAX_LEN
    decreases SPEC_MAX_LEN - n, 1, 0
  {
    match Skip(targ, tid, depth)
    case None => Failed
    case Some(t) =>
      if targ[t].body.Composite? then MatchFrom(loc, want, targ, t, 0, [], 0, n, depth) else CLEAN
  }

  /** Its loop from member i on, with `path` and `off` left behind by the members before. */
  function MatchFrom(
      loc: seq<BtfType>, want: LocalAcc, targ: seq<BtfType>, t: nat, i: nat, path: seq<nat>, off: int, n: nat,
      depth: nat): (r: Search)
    requires ValidBtf(loc) && Wanted(loc, want) && ValidBtf(targ) && t < |targ| && targ[t].body.Composite?
    requires i <= |targ[t].body.members| && n + |path| <= SPEC_MAX_LEN
    ensures r.Missing? ==> n + |r.path| <= SPEC_MAX_LEN
    ensures r.Hit? ==> r.path != [] && r.next < |targ| && n + |r.path| <= SPEC_MAX_LEN
    decreases SPEC_MAX_LEN - n - |path|, 0, |targ[t].body.members| - i
  {
    var ms := targ[t].body.members;
    if i == |ms| then Missing(path, off)
    else if n + |path| == SPEC_MAX_LEN then Failed
    else
      assert Refs(targ[t].body)[i] in Refs(targ[t].body);
      var name, bits := Str(ms[i].name), ms[i].bitOffset;
      if name == "" then
        match MatchMember(loc, want, targ, ms[i].typ, n + |path| + 1, depth)
        case Missing(p, o) =>
          var left := path + [i] + p;
          MatchFrom(loc, want, targ, t, i + 1, left[..|left| - 1], off + o, n, depth)
        case Failed => Failed
        case Hit(p, o, owner, idx, next) => Hit(path + [i] + p, off + bits + o, owner, idx, next)
      else if want.name == name then
        match FieldsCompat(loc, want.typ, targ, ms[i].typ, depth, depth)
        case Yes => Hit(path + [i], off + bits, t, i, ms[i].typ)
        case No => Missing(path + [i], off + bits)
        case Bad => Failed
      else MatchFrom(loc, want, targ, t, i + 1, path, off, n, depth)
  }

  /**
   * The search never goes on behind an anonymous member that holds an incompatible field of the same name. In C the
   * names of a structure's members are distinct, those of its anonymous members included.
   */
  ghost predicate Tidy(loc: seq<BtfType>, want: LocalAcc, targ: seq<BtfType>, tid: nat, n: nat, depth: nat)
    requires ValidBtf(loc) && Wanted(loc, want) && ValidBtf(targ) && tid < |targ| && n <= SPEC_MAX_LEN
    decreases SPEC_MAX_LEN - n, 1, 0
  {
    match Skip(targ, tid, depth)
    case None => true
    case Some(t) => targ[t].body.Composite? ==> TidyFrom(loc, want, targ, t, 0, n, depth)
  }

  ghost predicate TidyFrom(loc: seq<BtfType>, want: LocalAcc, targ: seq<BtfType>, t: nat, i: nat, n: nat, depth: nat)
    requires ValidBtf(loc) && Wanted(loc, want) && ValidBtf(targ) && t < |targ| && targ[t].body.Composite?
    requires i <= |targ[t].body.members| && n <= SPEC_MAX_LEN
    decreases SPEC_MAX_LEN - n, 0, |targ[t].body.members| - i
  {
    var ms := targ[t].body.members;
    i == |ms| || n == SPEC_MAX_LEN ||
    (assert Refs(targ[t].body)[i] in Refs(targ[t].body);
     if Str(ms[i].name) == "" then
       && Tidy(loc, want, targ, ms[i].typ, n + 1, depth)
       && (MatchMember(loc, want, targ, ms[i].typ, n + 1, depth).Missing? ==>
             && MatchMember(loc, want, targ, ms[i].typ, n + 1, depth) == CLEAN
             && TidyFrom(loc, want, targ, t, i + 1, n, depth))
     else want.name == Str(ms[i].name) || TidyFrom(loc, want, targ, t, i + 1, n, depth))
  }

  // ----- the search in the output -----

  lemma NameKept(src: seq<BtfType>, m: MarkSet, out: seq<BtfType>, id: nat)
    requires Minimised(src, m, out) && id in m.types
    ensures id < |src| && NewId(m.types, id) < |out| && out[NewId(m.types, id)].name == src[id].name
  {
    ImageAt(src, m, out, id);
    assert Image(src, m, id) == out[NewId(m.types, id)];
  }

  lemma TypesCompatImage(src: seq<BtfType>, m: MarkSet, out: seq<BtfType>, a: BtfType, id: nat)
    requires Minimised(src, m, out) && Kept0(m, id)
    ensures id < |src| && NewId(m.types, id) < |out|
    ensures TypesCompat(a, out[NewId(m.types, id)]) == TypesCompat(a, src[id])
  {
    ImageAt(src, m, out, id);
    if id != 0 {
      NameKept(src, m, out, id);
    }
  }

  /** The elements of a surviving array survive. */
  lemma ElementImage(src: seq<BtfType>, m: MarkSet, out: seq<BtfType>, id: nat)
    requires Minimised(src, m, out) && Kept0(m, id)
    ensures id < |src| && NewId(m.types, id) < |out| && (out[NewId(m.types, id)].body.Array? <==> src[id].body.Array?)
    ensures src[id].body.Array? ==>
      && Kept0(m, src[id].body.elem) && out[NewId(m.types, id)].body.elem == NewId(m.types, src[id].body.elem)
      && out[NewId(m.types, id)].body.nelems == src[id].body.nelems
  {
    ImageAt(src, m, out, id);
    if src[id].body.Array? {
      assert Refs(src[id].body)[0] in Needs(src[id].body);
    }
  }

  /** A surviving type is compatible with the same local types in the output. */
  lemma {:induction false} CompatImage(
      src: seq<BtfType>, m: MarkSet, out: seq<BtfType>, loc: seq<BtfType>, lid: nat, tid: nat, fuel: nat)
    requires Minimised(src, m, out) && Kept0(m, tid) && ValidBtf(loc) && lid < |loc|
    ensures tid < |src| && NewId(m.types, tid) < |out|
    ensures FieldsCompat(loc, lid, out, NewId(m.types, tid), Depth(src), fuel)
         == FieldsCompat(loc, lid, src, tid, Depth(src), fuel)
    decreases fuel
  {
    SkipImage(src, m, out, tid, Depth(src));
    var l, t := Skip(loc, lid, |loc|), Skip(src, tid, Depth(src));
    if l.Some? && t.Some? {
      ElementImage(src, m, out, t.value);
      TypesCompatImage(src, m, out, loc[l.value], t.value);
      if loc[l.value].body.Array? && src[t.value].body.Array? && fuel > 0 {
        assert Refs(loc[l.value].body)[0] in Refs(loc[l.value].body);
        CompatImage(src, m, out, loc, loc[l.value].body.elem, src[t.value].body.elem, fuel - 1);
      }
    }
  }

  /** What the output's search finds: the image of a hit whose path is marked, and nothing where there was nothing. */
  ghost predicate SameSearch(src: seq<BtfType>, m: MarkSet, tid: nat, r: Search, r': Search)
    requires ValidBtf(src) && tid < |src|
  {
    && (r == CLEAN ==> r' == CLEAN)
    && (r.Hit? && PathMarked(src, m, tid, r.path) ==>
          && MemberOk(src, m, r.owner, r.idx) && (r.owner, r.idx) in m.members
          && r' == Hit(Renumber(src, m, tid, r.path, Depth(src)), r.off, NewId(m.types, r.owner),
                       NewIndex(src[r.owner].body.members, m, r.owner, r.idx), NewId(m.types, r.next)))
  }

  /** Where a path leads. */
  function Lands(btf: seq<BtfType>, id: nat, path: seq<nat>, depth: nat): (r: Option<nat>)
    requires ValidBtf(btf) && id < |btf|
    ensures r.Some? ==> r.value < |btf|
    decreases |path|
  {
    if path == [] then Some(id)
    else
      match Next(btf, id, path[0], depth)
      case None => None
      case Some(n) => Lands(btf, n, path[1..], depth)
  }

  /** The outcome r at an anonymous member i: that of the search q below it, or of the search `on` behind it. */
  predicate Under(q: Search, i: nat, bits: nat, on: Search, r: Search) {
    match q
    case Missing(_, _) => q == CLEAN ==> r == on
    case Failed => r == Failed
    case Hit(path, off, owner, idx, next) => r == Hit([i] + path, bits + off, owner, idx, next)
  }

  /** The outcome r at a member of the wanted name. */
  predicate Settled(v: Verdict, t: nat, i: nat, mb: Member, r: Search) {
    match v
    case Yes => r == Hit([i], mb.bitOffset, t, i, mb.typ)
    case No => r == Missing([i], mb.bitOffset)
    case Bad => r == Failed
  }

  /** One turn of the loop, when nothing is left behind. */
  lemma FromStep(loc: seq<BtfType>, want: LocalAcc, targ: seq<BtfType>, t: nat, i: nat, n: nat, depth: nat)
    requires ValidBtf(loc) && Wanted(loc, want) && ValidBtf(targ) && t < |targ| && targ[t].body.Composite?
    requires i < |targ[t].body.members| && n < SPEC_MAX_LEN
    ensures targ[t].body.members[i].typ < |targ|
    ensures var mb, r := targ[t].body.members[i], MatchFrom(loc, want, targ, t, i, [], 0, n, depth);
      var on := MatchFrom(loc, want, targ, t, i + 1, [], 0, n, depth);
      if Str(mb.name) == "" then Under(MatchMember(loc, want, targ, mb.typ, n + 1, depth), i, mb.bitOffset, on, r)
      else if want.name == Str(mb.name) then
        Settled(FieldsCompat(loc, want.typ, targ, mb.typ, depth, depth), t, i, mb, r)
      else r == on
  {
    assert Refs(targ[t].body)[i] in Refs(targ[t].body);
    assert ([] + [i] + [])[..0] == [];
    assert [] + [i] == [i];
  }

  /** A hit lies where its path leads. */
  lemma {:induction false} HitLands(
      loc: seq<BtfType>, want: LocalAcc, targ: seq<BtfType>, tid: nat, n: nat, depth: nat)
    requires ValidBtf(loc) && Wanted(loc, want) && ValidBtf(targ) && tid < |targ| && n <= SPEC_MAX_LEN
    requires Tidy(loc, want, targ, tid, n, depth)
    ensures var r := MatchMember(loc, want, targ, tid, n, depth);
      r.Hit? ==> Lands(targ, tid, r.path, depth) == Some(r.next)
    decreases SPEC_MAX_LEN - n, 1, 0
  {
    var s := Skip(targ, tid, depth);
    if s.Some? && targ[s.value].body.Composite? {
      HitLandsFrom(loc, want, targ, tid, s.value, 0, n, depth);
    }
  }

  lemma {:induction false} HitLandsFrom(
      loc: seq<BtfType>, want: LocalAcc, targ: seq<BtfType>, tid: nat, t: nat, i: nat, n: nat, depth: nat)
    requires ValidBtf(loc) && Wanted(loc, want) && ValidBtf(targ) && tid < |targ| && n <= SPEC_MAX_LEN
    requires Skip(targ, tid, depth) == Some(t) && targ[t].body.Composite? && i <= |targ[t].body.members|
    requires TidyFrom(loc, want, targ, t, i, n, depth)
    ensures var r := MatchFrom(loc, want, targ, t, i, [], 0, n, depth);
      r.Hit? ==> Lands(targ, tid, r.path, depth) == Some(r.next)
    decreases SPEC_MAX_LEN - n, 0, |targ[t].body.members| - i
  {
    if i < |targ[t].body.members| && n < SPEC_MAX_LEN {
      var mb := targ[t].body.members[i];
      FromStep(loc, want, targ, t, i, n, depth);
      if Str(mb.name) == "" {
        var q := MatchMember(loc, want, targ, mb.typ, n + 1, depth);
        HitLands(loc, want, targ, mb.typ, n + 1, depth);
        if q.Hit? {
          assert ([i] + q.path)[1..] == q.path;
        } else if q == CLEAN {
          HitLandsFrom(loc, want, targ, tid, t, i + 1, n, depth);
        }
      } else if want.name != Str(mb.name) {
        HitLandsFrom(loc, want, targ, tid, t, i + 1, n, depth);
      }
    }
  }

  lemma {:induction false} MemberImage(
      src: seq<BtfType>, m: MarkSet, out: seq<BtfType>, loc: seq<BtfType>, want: LocalAcc, tid: nat, n: nat)
    requires Minimised(src, m, out) && Kept0(m, tid) && ValidBtf(loc) && Wanted(loc, want) && n <= SPEC_MAX_LEN
    requires tid < |src| && NewId(m.types, tid) < |out| && Tidy(loc, want, src, tid, n, Depth(src))
    ensures SameSearch(src, m, tid, MatchMember(loc, want, src, tid, n, Depth(src)),
                       MatchMember(loc, want, out, NewId(m.types, tid), n, Depth(src)))
    decreases SPEC_MAX_LEN - n, 1, 0
  {
    SkipImage(src, m, out, tid, Depth(src));
    var s := Skip(src, tid, Depth(src));
    if s.Some? {
      ImageAt(src, m, out, s.value);
      if src[s.value].body.Composite? {
        FromImage(src, m, out, loc, want, tid, s.value, 0, n);
      }
    }
  }

  /** A marked member's image, at its new index. */
  lemma KeptMember(src: seq<BtfType>, m: MarkSet, out: seq<BtfType>, t: nat, i: nat)
    requires Minimised(src, m, out) && t < |src| && src[t].body.Composite? && i < |src[t].body.members|
    requires t in m.types && (t, i) in m.members
    ensures var ms, k := src[t].body.members, NewIndex(src[t].body.members, m, t, i);
      && NewIndex(ms, m, t, i + 1) == k + 1 && Kept0(m, ms[i].typ) && ms[i].typ < |src|
      && NewId(m.types, t) < |out| && out[NewId(m.types, t)].body.Composite?
      && k < |out[NewId(m.types, t)].body.members| && NewId(m.types, ms[i].typ) < |out|
      && out[NewId(m.types, t)].body.members[k] == ms[i].(typ := NewId(m.types, ms[i].typ))
  {
    var ms := src[t].body.members;
    ImageAt(src, m, out, t);
    KeptAt(ms, m, t, i, |ms|);
    assert MemberOk(src, m, t, i);
    SurvivorInRange(src, m, out, ms[i].typ);
  }

  /** The path through member i. */
  lemma PathThrough(src: seq<BtfType>, m: MarkSet, tid: nat, t: nat, i: nat, path: seq<nat>)
    requires ValidBtf(src) && tid < |src| && Skip(src, tid, Depth(src)) == Some(t)
    requires src[t].body.Composite? && i < |src[t].body.members| && src[t].body.members[i].typ < |src|
    ensures PathMarked(src, m, tid, [i] + path) ==>
      (t, i) in m.members && PathMarked(src, m, src[t].body.members[i].typ, path)
    ensures Renumber(src, m, tid, [i] + path, Depth(src)) ==
      [NewIndex(src[t].body.members, m, t, i)] + Renumber(src, m, src[t].body.members[i].typ, path, Depth(src))
  {
    assert ([i] + path)[1..] == path;
  }

  lemma {:induction false} FromImage(
      src: seq<BtfType>, m: MarkSet, out: seq<BtfType>, loc: seq<BtfType>, want: LocalAcc, tid: nat, t: nat, i: nat,
      n: nat)
    requires Minimised(src, m, out) && t in m.types && ValidBtf(loc) && Wanted(loc, want) && n <= SPEC_MAX_LEN
    requires tid < |src| && Skip(src, tid, Depth(src)) == Some(t)
    requires src[t].body.Composite? && i <= |src[t].body.members| && TidyFrom(loc, want, src, t, i, n, Depth(src))
    ensures SameFrom(src, m, out, loc, want, tid, t, i, n)
    decreases SPEC_MAX_LEN - n, 0, |src[t].body.members| - i
  {
    var ms, dp := src[t].body.members, Depth(src);
    ImageAt(src, m, out, t);
    KeptMonotone(ms, m, t, i, |ms|);
    if i < |ms| {
      if n < SPEC_MAX_LEN {
        FromStep(loc, want, src, t, i, n, dp);
        if GoesOn(loc, want, src, t, i, n, dp) {
          FromImage(src, m, out, loc, want, tid, t, i + 1, n);
        }
        if (t, i) !in m.members {
          UnmarkedMember(src, m, loc, want, tid, t, i, n);
        } else {
          KeptMember(src, m, out, t, i);
          if Str(ms[i].name) == "" {
            MemberImage(src, m, out, loc, want, ms[i].typ, n + 1);
            AnonymousMember(src, m, out, loc, want, tid, t, i, n);
          } else {
            NamedMember(src, m, out, loc, want, tid, t, i, n);
          }
        }
      }
    }
  }

  /** The search of the output does the same from the image of member i on. */
  ghost predicate SameFrom(
      src: seq<BtfType>, m: MarkSet, out: seq<BtfType>, loc: seq<BtfType>, want: LocalAcc, tid: nat, t: nat, i: nat,
      n: nat)
    requires Minimised(src, m, out) && t in m.types && ValidBtf(loc) && Wanted(loc, want) && n <= SPEC_MAX_LEN
    requires tid < |src| && t < |src| && src[t].body.Composite? && i <= |src[t].body.members|
  {
    var k, t' := NewIndex(src[t].body.members, m, t, i), NewId(m.types, t);
    && t' < |out| && out[t'].body.Composite? && k <= |out[t'].body.members|
    && SameSearch(src, m, tid, MatchFrom(loc, want, src, t, i, [], 0, n, Depth(src)),
                  MatchFrom(loc, want, out, t', k, [], 0, n, Depth(src)))
  }

  /** A result from below a marked anonymous member is preserved if the one below is. */
  lemma SameUnder(
      src: seq<BtfType>, m: MarkSet, tid: nat, t: nat, i: nat, q: Search, q': Search, on: Search, on': Search, r: Search,
      r': Search)
    requires ValidBtf(src) && tid < |src| && Skip(src, tid, Depth(src)) == Some(t)
    requires src[t].body.Composite? && i < |src[t].body.members| && src[t].body.members[i].typ < |src|
    requires var mb, k := src[t].body.members[i], NewIndex(src[t].body.members, m, t, i);
      SameSearch(src, m, mb.typ, q, q') && Under(q, i, mb.bitOffset, on, r) && Under(q', k, mb.bitOffset, on', r')
    requires (q.Missing? ==> q == CLEAN) && (q == CLEAN ==> SameSearch(src, m, tid, on, on'))
    ensures SameSearch(src, m, tid, r, r')
  {
    if q.Hit? {
      PathThrough(src, m, tid, t, i, q.path);
    }
  }

  /** So is the result at a marked member of the wanted name. */
  lemma SameSettled(src: seq<BtfType>, m: MarkSet, tid: nat, t: nat, i: nat, v: Verdict, r: Search, r': Search)
    requires ValidBtf(src) && Closed(src, m) && tid < |src| && Skip(src, tid, Depth(src)) == Some(t)
    requires src[t].body.Composite? && i < |src[t].body.members| && src[t].body.members[i].typ < |src|
    requires (t, i) in m.members && Settled(v, t, i, src[t].body.members[i], r)
    requires var ms := src[t].body.members;
      Settled(v, NewId(m.types, t), NewIndex(ms, m, t, i), ms[i].(typ := NewId(m.types, ms[i].typ)), r')
    ensures SameSearch(src, m, tid, r, r')
  {
    PathThrough(src, m, tid, t, i, []);
    assert [i] + [] == [i];
  }

  /** A marked anonymous member. */
  lemma AnonymousMember(
      src: seq<BtfType>, m: MarkSet, out: seq<BtfType>, loc: seq<BtfType>, want: LocalAcc, tid: nat, t: nat, i: nat,
      n: nat)
    requires Minimised(src, m, out) && t in m.types && ValidBtf(loc) && Wanted(loc, want) && n < SPEC_MAX_LEN
    requires tid < |src| && Skip(src, tid, Depth(src)) == Some(t) && (t, i) in m.members
    requires src[t].body.Composite? && i < |src[t].body.members| && TidyFrom(loc, want, src, t, i, n, Depth(src))
    requires var mb := src[t].body.members[i];
      && Str(mb.name) == "" && mb.typ < |src| && NewId(m.types, mb.typ) < |out|
      && SameSearch(src, m, mb.typ, MatchMember(loc, want, src, mb.typ, n + 1, Depth(src)),
                    MatchMember(loc, want, out, NewId(m.types, mb.typ), n + 1, Depth(src)))
    requires GoesOn(loc, want, src, t, i, n, Depth(src)) ==> SameFrom(src, m, out, loc, want, tid, t, i + 1, n)
    ensures SameFrom(src, m, out, loc, want, tid, t, i, n)
  {
    KeptMember(src, m, out, t, i);
    FromStep(loc, want, src, t, i, n, Depth(src));
    FromStep(loc, want, out, NewId(m.types, t), NewIndex(src[t].body.members, m, t, i), n, Depth(src));
    var ms, dp, t', k := src[t].body.members, Depth(src), NewId(m.types, t), NewIndex(src[t].body.members, m, t, i);
    SameUnder(src, m, tid, t, i, MatchMember(loc, want, src, ms[i].typ, n + 1, dp),
              MatchMember(loc, want, out, NewId(m.types, ms[i].typ), n + 1, dp),
              MatchFrom(loc, want, src, t, i + 1, [], 0, n, dp), MatchFrom(loc, want, out, t', k + 1, [], 0, n, dp),
              MatchFrom(loc, want, src, t, i, [], 0, n, dp), MatchFrom(loc, want, out, t', k, [], 0, n, dp));
  }

  /** A marked member with a name. */
  lemma NamedMember(
      src: seq<BtfType>, m: MarkSet, out: seq<BtfType>, loc: seq<BtfType>, want: LocalAcc, tid: nat, t: nat, i: nat,
      n: nat)
    requires Minimised(src, m, out) && t in m.types && ValidBtf(loc) && Wanted(loc, want) && n < SPEC_MAX_LEN
    requires tid < |src| && Skip(src, tid, Depth(src)) == Some(t) && (t, i) in m.members
    requires src[t].body.Composite? && i < |src[t].body.members| && Str(src[t].body.members[i].name) != ""
    requires GoesOn(loc, want, src, t, i, n, Depth(src)) ==> SameFrom(src, m, out, loc, want, tid, t, i + 1, n)
    ensures SameFrom(src, m, out, loc, want, tid, t, i, n)
  {
    KeptMember(src, m, out, t, i);
    FromStep(loc, want, src, t, i, n, Depth(src));
    FromStep(loc, want, out, NewId(m.types, t), NewIndex(src[t].body.members, m, t, i), n, Depth(src));
    CompatImage(src, m, out, loc, want.typ, src[t].body.members[i].typ, Depth(src));
    if want.name == Str(src[t].body.members[i].name) {
      var k := NewIndex(src[t].body.members, m, t, i);
      SameSettled(src, m, tid, t, i,
                  FieldsCompat(loc, want.typ, src, src[t].body.members[i].typ, Depth(src), Depth(src)),
                  MatchFrom(loc, want, src, t, i, [], 0, n, Depth(src)),
                  MatchFrom(loc, want, out, NewId(m.types, t), k, [], 0, n, Depth(src)));
    }
  }

  lemma {:induction false} KeptMonotone(ms: seq<Member>, m: MarkSet, t: nat, i: nat, n: nat)
    requires i <= n <= |ms|
    ensures NewIndex(ms, m, t, i) <= NewIndex(ms, m, t, n)
    decreases n
  {
    if i < n {
      KeptMonotone(ms, m, t, i, n - 1);
    }
  }

  /** The search passes member i without a result. */
  ghost predicate GoesOn(loc: seq<BtfType>, want: LocalAcc, targ: seq<BtfType>, t: nat, i: nat, n: nat, depth: nat)
    requires ValidBtf(loc) && Wanted(loc, want) && ValidBtf(targ) && t < |targ| && targ[t].body.Composite?
    requires i < |targ[t].body.members| && n < SPEC_MAX_LEN
  {
    assert Refs(targ[t].body)[i] in Refs(targ[t].body);
    var mb := targ[t].body.members[i];
    if Str(mb.name) == "" then MatchMember(loc, want, targ, mb.typ, n + 1, depth) == CLEAN else want.name != Str(mb.name)
  }

  /** The path of a hit. */
  ghost function Trail(loc: seq<BtfType>, want: LocalAcc, targ: seq<BtfType>, tid: nat, n: nat, depth: nat): seq<nat>
    requires ValidBtf(loc) && Wanted(loc, want) && ValidBtf(targ) && tid < |targ| && n <= SPEC_MAX_LEN
  {
    var r := MatchMember(loc, want, targ, tid, n, depth);
    if r.Hit? then r.path else []
  }

  /** A search that does not pass an unmarked member has nothing to preserve. */
  lemma UnmarkedMember(
      src: seq<BtfType>, m: MarkSet, loc: seq<BtfType>, want: LocalAcc, tid: nat, t: nat, i: nat, n: nat)
    requires ValidBtf(src) && ValidBtf(loc) && Wanted(loc, want) && n < SPEC_MAX_LEN
    requires tid < |src| && Skip(src, tid, Depth(src)) == Some(t) && (t, i) !in m.members
    requires src[t].body.Composite? && i < |src[t].body.members| && TidyFrom(loc, want, src, t, i, n, Depth(src))
    ensures NewIndex(src[t].body.members, m, t, i + 1) == NewIndex(src[t].body.members, m, t, i)
    ensures !GoesOn(loc, want, src, t, i, n, Depth(src)) ==>
      var r := MatchFrom(loc, want, src, t, i, [], 0, n, Depth(src));
      r != CLEAN && !(r.Hit? && PathMarked(src, m, tid, r.path))
  {
    var ms, dp := src[t].body.members, Depth(src);
    FromStep(loc, want, src, t, i, n, dp);
    PathThrough(src, m, tid, t, i, Trail(loc, want, src, ms[i].typ, n + 1, dp));
    PathThrough(src, m, tid, t, i, []);
    assert [i] + [] == [i];
  }
}
