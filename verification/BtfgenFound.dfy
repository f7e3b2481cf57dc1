// libbpf/src/relo_core.c: what the search by name finds, and where it lies.
module BtfgenFound {
  import opened Prelude
  import opened Btf
  import opened Btfgen
  import opened BtfgenRecord
  import opened BtfgenAccess
  import opened BtfgenMatch
  import opened BtfgenSpec

  // ----- names -----

  /** X___Y from position i on, X and Y no underscores. */
  predicate Separates(name: string, i: int) {
    0 <= i && i + 5 <= |name| && name[i + 1..i + 4] == "___" && name[i] != '_' && name[i + 4] != '_'
  }

  /** The name without its flavor ends before the last separator; without a separator it is the whole name. */
  lemma EssentialIs(name: string)
    ensures var e := Essential(name);
      && e <= name
      && (forall i :: |e| <= i ==> !Separates(name, i))
      && (e == name || Separates(name, |e| - 1))
  {
    var last := if |name| < 5 then 0 else |name| - 4;
    EssentialBelow(name, last);
  }

  lemma {:induction false} EssentialBelow(name: string, i: nat)
    requires i + 4 <= |name| || i == 0
    requires forall k :: i <= k ==> !Separates(name, k)
    ensures var e := EssentialFrom(name, i);
      && e <= name
      && (forall k :: |e| <= k ==> !Separates(name, k))
      && (e == name || Separates(name, |e| - 1))
  {
    if i > 0 {
      var s := name[i - 1 + 1..i - 1 + 4];
      assert s == "___" <==> s[0] == '_' && s[1] == '_' && s[2] == '_';
      assert FlavorSep(name, i - 1) <==> Separates(name, i - 1);
      if !FlavorSep(name, i - 1) {
        EssentialBelow(name, i - 1);
      }
    }
  }

  // ----- what is compatible -----

  /**
   * Any two structs or unions, any two pointers and any two floats are compatible; integers unless they are bitfields
   * of the old kind; enums of either size and forward declarations when their names are. Nothing else is.
   */
  lemma CompatIff(a: BtfType, b: BtfType)
    ensures TypesCompat(a, b) <==>
      || (a.body.Composite? && b.body.Composite?)
      || (a.body.Ptr? && b.body.Ptr?)
      || (a.body.Fwd? && b.body.Fwd? && SameName(a.name, b.name))
      || (a.body.Leaf? && b.body.Leaf? && a.body.kind == b.body.kind && a.body.kind in {Float, Int(0)})
      || (a.body.Leaf? && b.body.Leaf? && {a.body.kind, b.body.kind} <= {Enum, Enum64} && SameName(a.name, b.name))
  {
  }

  /** Equal up to the flavor, or one is empty up to the flavor. */
  predicate SameName(a: Name, b: Name) {
    Essential(Str(a)) == Essential(Str(b)) || |Essential(Str(a))| == 0 || |Essential(Str(b))| == 0
  }

  /** Arrays are compatible when their elements are, whatever their lengths. */
  lemma ArraysCompat(loc: seq<BtfType>, l: nat, targ: seq<BtfType>, t: nat, depth: nat, fuel: nat)
    requires ValidBtf(loc) && l < |loc| && loc[l].body.Array? && loc[l].body.elem < |loc|
    requires ValidBtf(targ) && t < |targ| && targ[t].body.Array? && targ[t].body.elem < |targ|
    ensures FieldsCompat(loc, l, targ, t, depth, fuel + 1)
         == FieldsCompat(loc, loc[l].body.elem, targ, targ[t].body.elem, depth, fuel)
  {
  }

  // ----- what is found -----

  /** What is found is a member of the wanted name whose type is compatible. */
  ghost predicate Wants(loc: seq<BtfType>, want: LocalAcc, targ: seq<BtfType>, r: Search, depth: nat)
    requires ValidBtf(loc) && Wanted(loc, want) && ValidBtf(targ)
  {
    r.Hit? ==>
      && r.owner < |targ| && targ[r.owner].body.Composite? && r.idx < |targ[r.owner].body.members|
      && var mb := targ[r.owner].body.members[r.idx];
         && Str(mb.name) == want.name && mb.typ == r.next && r.next < |targ|
         && FieldsCompat(loc, want.typ, targ, r.next, depth, depth) == Yes
  }

  lemma {:induction false} HitNamed(
      loc: seq<BtfType>, want: LocalAcc, targ: seq<BtfType>, tid: nat, n: nat, depth: nat)
    requires ValidBtf(loc) && Wanted(loc, want) && ValidBtf(targ) && tid < |targ| && n <= SPEC_MAX_LEN
    ensures Wants(loc, want, targ, MatchMember(loc, want, targ, tid, n, depth), depth)
    decreases SPEC_MAX_LEN - n, 1, 0
  {
    var s := Skip(targ, tid, depth);
    if s.Some? && targ[s.value].body.Composite? {
      HitNamedFrom(loc, want, targ, s.value, 0, [], 0, n, depth);
    }
  }

  lemma {:induction false} HitNamedFrom(
      loc: seq<BtfType>, want: LocalAcc, targ: seq<BtfType>, t: nat, i: nat, path: seq<nat>, off: int, n: nat,
      depth: nat)
    requires ValidBtf(loc) && Wanted(loc, want) && ValidBtf(targ) && t < |targ| && targ[t].body.Composite?
    requires i <= |targ[t].body.members| && n + |path| <= SPEC_MAX_LEN
    ensures Wants(loc, want, targ, MatchFrom(loc, want, targ, t, i, path, off, n, depth), depth)
    decreases SPEC_MAX_LEN - n - |path|, 0, |targ[t].body.members| - i
  {
    if i < |targ[t].body.members| && n + |path| < SPEC_MAX_LEN {
      var mb := targ[t].body.members[i];
      assert Refs(targ[t].body)[i] in Refs(targ[t].body);
      if Str(mb.name) == "" {
        HitNamed(loc, want, targ, mb.typ, n + |path| + 1, depth);
        var q := MatchMember(loc, want, targ, mb.typ, n + |path| + 1, depth);
        if q.Missing? {
          var left := path + [i] + q.path;
          HitNamedFrom(loc, want, targ, t, i + 1, left[..|left| - 1], off + q.off, n, depth);
        }
      } else if want.name != Str(mb.name) {
        HitNamedFrom(loc, want, targ, t, i + 1, path, off, n, depth);
      }
    }
  }

  /** No member of type t below i has the name, and no anonymous one holds it. */
  ghost predicate NoneBelow(
      loc: seq<BtfType>, want: LocalAcc, targ: seq<BtfType>, t: nat, i: nat, to: nat, n: nat, depth: nat)
    requires ValidBtf(loc) && Wanted(loc, want) && ValidBtf(targ) && t < |targ| && targ[t].body.Composite?
    requires to <= |targ[t].body.members| && n < SPEC_MAX_LEN
  {
    forall k :: i <= k < to ==> Passes(loc, want, targ, targ[t].body.members[k], n, depth)
  }

  ghost predicate Passes(loc: seq<BtfType>, want: LocalAcc, targ: seq<BtfType>, mb: Member, n: nat, depth: nat)
    requires ValidBtf(loc) && Wanted(loc, want) && ValidBtf(targ) && n < SPEC_MAX_LEN
  {
    Str(mb.name) != want.name
    && (Str(mb.name) == "" ==> mb.typ < |targ| && MatchMember(loc, want, targ, mb.typ, n + 1, depth) == CLEAN)
  }

  /** A tidy search takes the first member that fits: it passes all before it, and all if it finds none. */
  lemma {:induction false} HitFirst(
      loc: seq<BtfType>, want: LocalAcc, targ: seq<BtfType>, t: nat, i: nat, n: nat, depth: nat)
    requires ValidBtf(loc) && Wanted(loc, want) && ValidBtf(targ) && t < |targ| && targ[t].body.Composite?
    requires i <= |targ[t].body.members| && n < SPEC_MAX_LEN && want.name != ""
    requires TidyFrom(loc, want, targ, t, i, n, depth)
    ensures var r := MatchFrom(loc, want, targ, t, i, [], 0, n, depth);
      && (r.Hit? ==>
            && r.path != [] && i <= r.path[0] < |targ[t].body.members|
            && NoneBelow(loc, want, targ, t, i, r.path[0], n, depth))
      && (r == CLEAN ==> NoneBelow(loc, want, targ, t, i, |targ[t].body.members|, n, depth))
    decreases |targ[t].body.members| - i
  {
    if i < |targ[t].body.members| {
      var mb := targ[t].body.members[i];
      FromStep(loc, want, targ, t, i, n, depth);
      if GoesOn(loc, want, targ, t, i, n, depth) {
        HitFirst(loc, want, targ, t, i + 1, n, depth);
        assert Passes(loc, want, targ, mb, n, depth);
      }
    }
  }

  /** A target spec has room for 64 accessors: the last one may still be a hit, one more fails. */
  lemma SpecLimit(loc: seq<BtfType>, want: LocalAcc, targ: seq<BtfType>, t: nat, depth: nat)
    requires ValidBtf(loc) && Wanted(loc, want) && ValidBtf(targ) && t < |targ| && targ[t].body.Composite?
    requires |targ[t].body.members| > 0 && want.name != "" && targ[t].body.members[0].typ < |targ|
    requires Str(targ[t].body.members[0].name) == want.name
    requires FieldsCompat(loc, want.typ, targ, targ[t].body.members[0].typ, depth, depth) == Yes
    ensures MatchMember(loc, want, targ, t, 63, depth).Hit? && MatchMember(loc, want, targ, t, 64, depth) == Failed
  {
    FromStep(loc, want, targ, t, 0, 63, depth);
  }

  /** A field that is missing and an index that does not fit mean no match; what cannot be followed is an error. */
  lemma StepAnswers(loc: seq<BtfType>, acc: LocalAcc, targ: seq<BtfType>, s: Spec, t: nat, depth: nat)
    requires ValidBtf(loc) && AccOk(loc, acc) && ValidBtf(targ) && SpecOk(targ, s) && Skip(targ, s.typ, depth) == Some(t)
    ensures acc.Field? ==>
      && (Step(loc, acc, targ, s, depth) == NoMatch <==> MatchMember(loc, acc, targ, t, |s.path| + 1, depth).Missing?)
      && (Step(loc, acc, targ, s, depth) == Error <==> MatchMember(loc, acc, targ, t, |s.path| + 1, depth) == Failed)
    ensures acc.Elem? && !targ[t].body.Array? ==> Step(loc, acc, targ, s, depth) == NoMatch
    ensures acc.Elem? && targ[t].body.Array? && targ[t].body.nelems > 0 ==>
      (Step(loc, acc, targ, s, depth) == NoMatch <==> acc.idx >= targ[t].body.nelems)
    ensures acc.Elem? && targ[t].body.Array? && targ[t].body.nelems == 0 ==>
      (Step(loc, acc, targ, s, depth) == NoMatch <==>
         !(s.last.named && s.last.typ < |targ| && targ[s.last.typ].body.Composite?
           && s.last.idx == |targ[s.last.typ].body.members| - 1))
  {
  }

  // ----- where it lies -----

  /** A hit lies where a walk along its accessors leads, offset included. */
  ghost predicate Walks(targ: seq<BtfType>, tid: nat, off: nat, r: Search, depth: nat)
    requires ValidBtf(targ) && tid < |targ|
  {
    r.Hit? ==> r.off >= 0 && Walk(targ, tid, off, r.path, depth) == Some((r.next, off + r.off))
  }

  /** A hit below an anonymous member, or at the member itself when q is empty. */
  lemma WalksUnder(
      targ: seq<BtfType>, tid: nat, t: nat, i: nat, off: nat, path: seq<nat>, o: int, owner: nat, idx: nat, next: nat,
      depth: nat)
    requires ValidBtf(targ) && tid < |targ| && Skip(targ, tid, depth) == Some(t) && targ[t].body.Composite?
    requires i < |targ[t].body.members| && targ[t].body.members[i].typ < |targ| && o >= 0
    requires var mb := targ[t].body.members[i];
      Walk(targ, mb.typ, off + mb.bitOffset, path, depth) == Some((next, off + mb.bitOffset + o))
    ensures var bits := targ[t].body.members[i].bitOffset;
      Walks(targ, tid, off, Hit([i] + path, bits + o, owner, idx, next), depth)
  {
    WalkOn(targ, tid, off, i, path, depth, targ[t].body.members[i].typ, targ[t].body.members[i].bitOffset);
  }

  lemma UnderWalks(
      targ: seq<BtfType>, tid: nat, t: nat, i: nat, off: nat, q: Search, on: Search, r: Search, depth: nat)
    requires ValidBtf(targ) && tid < |targ| && Skip(targ, tid, depth) == Some(t) && targ[t].body.Composite?
    requires i < |targ[t].body.members| && targ[t].body.members[i].typ < |targ| && !q.Missing?
    requires var mb := targ[t].body.members[i];
      Under(q, i, mb.bitOffset, on, r) && Walks(targ, mb.typ, off + mb.bitOffset, q, depth)
    ensures Walks(targ, tid, off, r, depth)
  {
    if q.Hit? {
      WalksUnder(targ, tid, t, i, off, q.path, q.off, q.owner, q.idx, q.next, depth);
    }
  }

  lemma SettledWalks(targ: seq<BtfType>, tid: nat, t: nat, i: nat, off: nat, v: Verdict, r: Search, depth: nat)
    requires ValidBtf(targ) && tid < |targ| && Skip(targ, tid, depth) == Some(t) && targ[t].body.Composite?
    requires i < |targ[t].body.members| && targ[t].body.members[i].typ < |targ|
    requires Settled(v, t, i, targ[t].body.members[i], r)
    ensures Walks(targ, tid, off, r, depth)
  {
    WalksUnder(targ, tid, t, i, off, [], 0, t, i, targ[t].body.members[i].typ, depth);
    assert [i] + [] == [i];
  }

  lemma {:induction false} HitWalks(
      loc: seq<BtfType>, want: LocalAcc, targ: seq<BtfType>, tid: nat, n: nat, off: nat, depth: nat)
    requires ValidBtf(loc) && Wanted(loc, want) && ValidBtf(targ) && tid < |targ| && n <= SPEC_MAX_LEN
    requires Tidy(loc, want, targ, tid, n, depth)
    ensures Walks(targ, tid, off, MatchMember(loc, want, targ, tid, n, depth), depth)
    decreases SPEC_MAX_LEN - n, 1, 0
  {
    var s := Skip(targ, tid, depth);
    if s.Some? && targ[s.value].body.Composite? {
      HitWalksFrom(loc, want, targ, tid, s.value, 0, n, off, depth);
    }
  }

  lemma {:induction false} HitWalksFrom(
      loc: seq<BtfType>, want: LocalAcc, targ: seq<BtfType>, tid: nat, t: nat, i: nat, n: nat, off: nat, depth: nat)
    requires ValidBtf(loc) && Wanted(loc, want) && ValidBtf(targ) && tid < |targ| && n <= SPEC_MAX_LEN
    requires Skip(targ, tid, depth) == Some(t) && targ[t].body.Composite? && i <= |targ[t].body.members|
    requires TidyFrom(loc, want, targ, t, i, n, depth)
    ensures Walks(targ, tid, off, MatchFrom(loc, want, targ, t, i, [], 0, n, depth), depth)
    decreases SPEC_MAX_LEN - n, 0, |targ[t].body.members| - i
  {
    if i < |targ[t].body.members| && n < SPEC_MAX_LEN {
      var mb := targ[t].body.members[i];
      FromStep(loc, want, targ, t, i, n, depth);
      var r := MatchFrom(loc, want, targ, t, i, [], 0, n, depth);
      if GoesOn(loc, want, targ, t, i, n, depth) {
        HitWalksFrom(loc, want, targ, tid, t, i + 1, n, off, depth);
      } else if Str(mb.name) == "" {
        HitWalks(loc, want, targ, mb.typ, n + 1, off + mb.bitOffset, depth);
        UnderWalks(targ, tid, t, i, off, MatchMember(loc, want, targ, mb.typ, n + 1, depth), CLEAN, r, depth);
      } else {
        SettledWalks(targ, tid, t, i, off, FieldsCompat(loc, want.typ, targ, mb.typ, depth, depth), r, depth);
      }
    }
  }

  /** The path walked from the root leads to where the spec stands, at its offset. */
  ghost predicate Arrives(targ: seq<BtfType>, root: nat, first: nat, s: Spec, depth: nat)
    requires ValidBtf(targ) && root < |targ|
  {
    && s.typ < |targ| && s.off >= 0
    && match Access(targ, root, [first] + s.path, depth)
       case None => false
       case Some(p) => p.0 < |targ| && p.1 == s.off && Skip(targ, p.0, depth) == Skip(targ, s.typ, depth)
  }

  /** A walk in two parts. */
  lemma {:induction false} WalkSplit(
      btf: seq<BtfType>, id: nat, off: nat, p: seq<nat>, q: seq<nat>, depth: nat, e: nat, at: nat)
    requires ValidBtf(btf) && id < |btf| && e < |btf| && Walk(btf, id, off, p, depth) == Some((e, at))
    ensures Walk(btf, id, off, p + q, depth) == Walk(btf, e, at, q, depth)
    decreases |p|
  {
    if p == [] {
      assert p + q == q;
    } else {
      var n, d := Next(btf, id, p[0], depth).value, Delta(btf, id, p[0], depth).value;
      WalkSplit(btf, n, off + d, p[1..], q, depth, e, at);
      WalkOn(btf, id, off, p[0], p[1..] + q, depth, n, d);
      Assoc([p[0]], p[1..], q);
      assert [p[0]] + p[1..] == p;
    }
  }

  /** A walk may start at a type or at what is left of it without modifiers. */
  lemma WalkSkips(btf: seq<BtfType>, e: nat, t: nat, off: nat, q: seq<nat>, depth: nat)
    requires ValidBtf(btf) && e < |btf| && t < |btf| && q != [] && Skip(btf, e, depth) == Skip(btf, t, depth)
    ensures Walk(btf, e, off, q, depth) == Walk(btf, t, off, q, depth)
  {
  }

  /** Going on along q from where the spec stands. */
  lemma ArrivesOn(targ: seq<BtfType>, root: nat, first: nat, s: Spec, q: seq<nat>, next: nat, at: nat, depth: nat)
    requires ValidBtf(targ) && root < |targ| && Arrives(targ, root, first, s, depth) && q != []
    requires Walk(targ, s.typ, s.off, q, depth) == Some((next, at))
    ensures Access(targ, root, [first] + (s.path + q), depth) == Some((next, at))
  {
    var e := Access(targ, root, [first] + s.path, depth).value.0;
    var sz := SizeOf(targ, root, depth).value;
    AccessCons(targ, root, first, s.path, depth);
    AccessCons(targ, root, first, s.path + q, depth);
    WalkSkips(targ, e, s.typ, s.off, q, depth);
    WalkSplit(targ, root, ElemBits(first, sz), s.path, q, depth, e, s.off);
  }

  lemma FieldArrives(targ: seq<BtfType>, loc: seq<BtfType>, acc: LocalAcc, root: nat, first: nat, s: Spec, depth: nat)
    requires ValidBtf(targ) && root < |targ| && SpecOk(targ, s) && Arrives(targ, root, first, s, depth)
    requires ValidBtf(loc) && Wanted(loc, acc) && TidyStep(loc, acc, targ, s, depth)
    ensures var r := Step(loc, acc, targ, s, depth); r.At? ==> Arrives(targ, root, first, r.spec, depth)
  {
    var r := Step(loc, acc, targ, s, depth);
    if r.At? {
      var t := Skip(targ, s.typ, depth).value;
      var h := MatchMember(loc, acc, targ, t, |s.path| + 1, depth);
      HitWalks(loc, acc, targ, t, |s.path| + 1, s.off, depth);
      WalkSkips(targ, s.typ, t, s.off, h.path, depth);
      ArrivesOn(targ, root, first, s, h.path, h.next, s.off + h.off, depth);
    }
  }

  lemma ElemArrives(targ: seq<BtfType>, loc: seq<BtfType>, acc: LocalAcc, root: nat, first: nat, s: Spec, depth: nat)
    requires ValidBtf(targ) && root < |targ| && SpecOk(targ, s) && Arrives(targ, root, first, s, depth)
    requires ValidBtf(loc) && acc.Elem?
    ensures var r := Step(loc, acc, targ, s, depth); r.At? ==> Arrives(targ, root, first, r.spec, depth)
  {
    var r := Step(loc, acc, targ, s, depth);
    if r.At? {
      var t := Skip(targ, s.typ, depth).value;
      var e := Element(targ, t, acc.idx, s.last).value;
      var p := Indexed(targ, e, acc.idx, |s.path| + 1, depth).value;
      WalkOn(targ, s.typ, s.off, acc.idx, [], depth, e, p.1);
      assert [acc.idx] + [] == [acc.idx];
      ArrivesOn(targ, root, first, s, [acc.idx], e, s.off + p.1, depth);
    }
  }

  /** With tidy searches, the access by the matched spec's accessors leads to the matched type at the matched offset. */
  lemma {:induction false} MatchArrives(targ: seq<BtfType>, local: Local, root: nat, k: nat, depth: nat)
    requires ValidBtf(targ) && LocalOk(local) && root < |targ| && k <= |local.rest|
    requires forall j :: 0 <= j < k ==> TidyAt(local, targ, root, j, depth)
    ensures var r := SpecMatch(local, targ, root, k, depth); r.At? ==> Arrives(targ, root, local.first, r.spec, depth)
  {
    if k == 0 {
      AccessCons(targ, root, local.first, [], depth);
    } else {
      MatchArrives(targ, local, root, k - 1, depth);
      assert TidyAt(local, targ, root, k - 1, depth);
      var r := SpecMatch(local, targ, root, k - 1, depth);
      if r.At? {
        assert AccOk(local.btf, local.rest[k - 1]);
        if local.rest[k - 1].Field? {
          FieldArrives(targ, local.btf, local.rest[k - 1], root, local.first, r.spec, depth);
        } else {
          ElemArrives(targ, local.btf, local.rest[k - 1], root, local.first, r.spec, depth);
        }
      }
    }
  }
}
