// bpftool/src/gen.c: codegen_datasec_def, the padding of an emitted data-section struct.
module Datasec {
  import opened Prelude
  import opened Words

  /** One variable of a data section. `align` is what btf__align_of says, `hostAlign` what the compiler will use. */
  datatype Var = Var(isStatic: bool, offset: nat, size: nat, align: int, hostAlign: int)

  /** A member of the emitted struct: `char __padN[n]` or the declaration of variable v. */
  datatype Field = Pad(n: nat) | Decl(v: nat)

  function RoundUp(off: nat, align: int): (r: nat)
    requires align > 0
    ensures r % align == 0 && off <= r < off + align
  {
    var r := (off + align - 1) / align * align;
    RoundUpFacts(off, align);
    r
  }

  lemma RoundUpFacts(off: nat, align: int)
    requires align > 0
    ensures var r := (off + align - 1) / align * align; r % align == 0 && off <= r < off + align
  {
    var q := (off + align - 1) / align;
    assert off + align - 1 == q * align + (off + align - 1) % align;
    MulMod(q, align);
  }

  lemma MulMod(q: nat, d: nat)
    requires d > 0
    ensures q * d >= 0 && (q * d) % d == 0
  {
    DivModUnique(q * d, d, q, 0);
  }

  /** The only multiple of h in [off, off + h) is where C rounds up to. */
  lemma RoundUpUnique(off: nat, h: int, x: nat)
    requires h > 0 && off <= x < off + h
    ensures x % h == 0 <==> RoundUp(off, h) == x
  {
    if x % h == 0 {
      var a := x / h;
      assert x == a * h;
      DivModUnique(off + h - 1, h, a, off + h - 1 - x);
    }
  }

  function Capped(align: int): int { if align > 4 then 4 else align }

  /** Where C puts a field after a struct prefix of `end` bytes: at the next multiple of its alignment. */
  function Place(vars: seq<Var>, end: nat, f: Field): nat
    requires FieldValid(vars, f)
  {
    if f.Decl? then RoundUp(end, vars[f.v].hostAlign) else end
  }

  function Width(vars: seq<Var>, f: Field): nat
    requires FieldValid(vars, f)
  {
    if f.Decl? then vars[f.v].size else f.n
  }

  /** The bytes a list of fields takes. */
  function End(vars: seq<Var>, fields: seq<Field>): nat
    requires AllValid(vars, fields)
  {
    if fields == [] then 0
    else
      var f := fields[|fields| - 1];
      Place(vars, End(vars, fields[..|fields| - 1]), f) + Width(vars, f)
  }

  predicate FieldValid(vars: seq<Var>, f: Field) { f.Decl? ==> f.v < |vars| && vars[f.v].hostAlign > 0 }

  predicate AllValid(vars: seq<Var>, fields: seq<Field>) { forall f :: f in fields ==> FieldValid(vars, f) }

  /** The variables declared, in order. */
  function Declared(fields: seq<Field>): seq<nat> {
    if fields == [] then []
    else
      var f := fields[|fields| - 1];
      Declared(fields[..|fields| - 1]) + if f.Decl? then [f.v] else []
  }

  /** The non-static variables below n, in order. */
  function Exposed(vars: seq<Var>, n: nat): seq<nat>
    requires n <= |vars|
  {
    if n == 0 then [] else Exposed(vars, n - 1) + if vars[n - 1].isStatic then [] else [n - 1]
  }

  /** Every declared variable lies at its BTF offset. */
  predicate AllRight(vars: seq<Var>, fields: seq<Field>)
    requires AllValid(vars, fields)
  {
    fields == [] ||
    var f, init := fields[|fields| - 1], fields[..|fields| - 1];
    && AllRight(vars, init)
    && (f.Decl? ==> Place(vars, End(vars, init), f) == vars[f.v].offset)
  }

  /** The compiler aligns to a multiple of min(align, 4): a 32-bit or a 64-bit ABI. */
  predicate HostOk(vars: seq<Var>) {
    forall k {:trigger HostFits(vars[k])} :: 0 <= k < |vars| ==> HostFits(vars[k])
  }

  predicate HostFits(v: Var) {
    v.align > 0 ==> v.hostAlign > 0 && v.hostAlign % (if v.align < 4 then v.align else 4) == 0
  }

  /** The variable's offset suits the compiler's alignment. */
  predicate Suits(v: Var) { v.hostAlign > 0 && v.offset % v.hostAlign == 0 }

  /** Every non-static variable below n is naturally aligned for the compiler. */
  predicate Aligned(vars: seq<Var>, n: nat)
    requires n <= |vars|
  {
    forall k {:trigger Suits(vars[k])} :: 0 <= k < n && !vars[k].isStatic ==> Suits(vars[k])
  }

  /** Where the last non-static variable before k ends. */
  function PrevEnd(vars: seq<Var>, k: nat): nat
    requires k <= |vars|
  {
    if k == 0 then 0
    else if vars[k - 1].isStatic then PrevEnd(vars, k - 1)
    else vars[k - 1].offset + vars[k - 1].size
  }

  /** The non-static variables below n ascend without overlap and have an alignment. */
  predicate Ascending(vars: seq<Var>, n: nat)
    requires n <= |vars|
  {
    forall k :: 0 <= k < n ==> Ascends(vars, k)
  }

  /** A non-static variable starts no earlier than the one before it ends, and has an alignment. */
  predicate Ascends(vars: seq<Var>, k: nat)
    requires k < |vars|
  {
    vars[k].isStatic || (PrevEnd(vars, k) <= vars[k].offset && vars[k].align > 0)
  }

  /** What the loop has emitted for the variables below i, and where the last one ends. */
  ghost predicate Emitting(vars: seq<Var>, i: nat, fields: seq<Field>, off: nat) {
    && i <= |vars| && off == PrevEnd(vars, i) && Ascending(vars, i)
    && AllValid(vars, fields) && Declared(fields) == Exposed(vars, i)
    && (AllRight(vars, fields) <==> Aligned(vars, i))
    && (Aligned(vars, i) ==> End(vars, fields) == off)
  }

  /** The fields before variable v: with a pad if rounding up does not lead to its offset. */
  function Padded(fields: seq<Field>, off: nat, v: Var): seq<Field>
    requires off <= v.offset && v.align > 0
  {
    if RoundUp(off, Capped(v.align)) != v.offset then fields + [Pad(v.offset - off)] else fields
  }

  /**
   * The loop of codegen_datasec_def. It fails exactly on overlap or an unknown alignment; otherwise it
   * declares the non-static variables in order, and every one lies at its BTF offset exactly when every
   * offset suits the compiler's alignment.
   */
  method CodegenDatasecDef(vars: seq<Var>) returns (r: Option<seq<Field>>)
    requires HostOk(vars)
    ensures r.Some? <==> Ascending(vars, |vars|)
    ensures r.Some? ==> AllValid(vars, r.value) && Declared(r.value) == Exposed(vars, |vars|)
    ensures r.Some? ==> (AllRight(vars, r.value) <==> Aligned(vars, |vars|))
  {
    var fields: seq<Field> := [];
    var off: nat := 0;
    var i := 0;
    while i < |vars|
      invariant 0 <= i && Emitting(vars, i, fields, off)
    {
      var v := vars[i];
      if !v.isStatic {
        var needOff := v.offset;
        if off > needOff || v.align <= 0 {
          Refused(vars, i, fields, off);
          return None;
        }
        var align := Capped(v.align);
        var alignOff := RoundUp(off, align);
        ghost var next := Padded(fields, off, v) + [Decl(i)];
        EmitVar(vars, i, fields, off);
        if alignOff != needOff {
          fields := fields + [Pad(needOff - off)];
        }
        fields := fields + [Decl(i)];
        assert fields == next;
        off := v.offset + v.size;
      } else {
        SkipStatic(vars, i, fields, off);
      }
      i := i + 1;
    }
    Finished(vars, i, fields, off);
    return Some(fields);
  }

  lemma Refused(vars: seq<Var>, i: nat, fields: seq<Field>, off: nat)
    requires Emitting(vars, i, fields, off) && i < |vars| && !vars[i].isStatic
    requires off > vars[i].offset || vars[i].align <= 0
    ensures !Ascending(vars, |vars|)
  {
    assert !Ascends(vars, i);
  }

  lemma Finished(vars: seq<Var>, i: nat, fields: seq<Field>, off: nat)
    requires Emitting(vars, i, fields, off) && i >= |vars|
    ensures Ascending(vars, |vars|) && AllValid(vars, fields) && Declared(fields) == Exposed(vars, |vars|)
    ensures AllRight(vars, fields) <==> Aligned(vars, |vars|)
  {
  }

  lemma SkipStatic(vars: seq<Var>, i: nat, fields: seq<Field>, off: nat)
    requires Emitting(vars, i, fields, off) && i < |vars| && vars[i].isStatic
    ensures Emitting(vars, i + 1, fields, off)
  {
    AlignedStep(vars, i);
  }

  lemma EmitVar(vars: seq<Var>, i: nat, fields: seq<Field>, off: nat)
    requires HostOk(vars) && Emitting(vars, i, fields, off) && i < |vars| && !vars[i].isStatic
    requires off <= vars[i].offset && vars[i].align > 0
    ensures Emitting(vars, i + 1, Padded(fields, off, vars[i]) + [Decl(i)], vars[i].offset + vars[i].size)
  {
    var v := vars[i];
    var padded := Padded(fields, off, v);
    assert HostFits(vars[i]);
    AlignedStep(vars, i);
    PadKeeps(vars, fields, v.offset - off);
    DeclPlaced(vars, fields, padded, i, off);
  }

  lemma AlignedStep(vars: seq<Var>, i: nat)
    requires i < |vars|
    ensures Aligned(vars, i + 1) <==> Aligned(vars, i) && (vars[i].isStatic || Suits(vars[i]))
  {
  }

  lemma PadKeeps(vars: seq<Var>, fields: seq<Field>, n: nat)
    requires AllValid(vars, fields)
    ensures AllValid(vars, fields + [Pad(n)]) && Declared(fields + [Pad(n)]) == Declared(fields)
    ensures AllRight(vars, fields + [Pad(n)]) <==> AllRight(vars, fields)
    ensures End(vars, fields + [Pad(n)]) == End(vars, fields) + n
  {
  }

  /** With the padding before it, a declaration lands on its offset exactly when the offset is aligned. */
  lemma DeclPlaced(vars: seq<Var>, was: seq<Field>, padded: seq<Field>, i: nat, off: nat)
    requires i < |vars| && HostFits(vars[i]) && vars[i].align > 0 && off <= vars[i].offset
    requires AllValid(vars, was) && AllValid(vars, padded)
    requires padded ==
      if RoundUp(off, Capped(vars[i].align)) != vars[i].offset then was + [Pad(vars[i].offset - off)] else was
    ensures AllValid(vars, padded + [Decl(i)]) && Declared(padded + [Decl(i)]) == Declared(padded) + [i]
    ensures AllRight(vars, padded + [Decl(i)]) ==> AllRight(vars, padded) && Suits(vars[i])
    ensures AllRight(vars, padded) && End(vars, was) == off && Suits(vars[i]) ==>
      AllRight(vars, padded + [Decl(i)]) && End(vars, padded + [Decl(i)]) == vars[i].offset + vars[i].size
  {
    var need, h, c := vars[i].offset, vars[i].hostAlign, Capped(vars[i].align);
    var all := padded + [Decl(i)];
    assert all[..|padded|] == padded;
    if End(vars, was) == off && need % h == 0 {
      if RoundUp(off, c) != need {
        PadKeeps(vars, was, need - off);
        RoundUpUnique(need, h, need);
      } else {
        assert c <= h by { DivisorSmaller(h, c); }
        RoundUpUnique(off, h, need);
      }
    }
  }

  lemma DivisorSmaller(h: int, c: int)
    requires c > 0 && h > 0 && h % c == 0
    ensures c <= h
  {
    if h < c {
      DivModUnique(h, c, 0, h);
    }
  }
}
